/** Sequences of identifiers, read as the linked lists that hold them. */
module Lists {
  import opened Options

  /** What a link to entry `i` holds: nothing past either end. */
  function At(list: seq<nat>, i: int): Option<nat> {
    if 0 <= i < |list| then Some(list[i]) else None
  }

  /** The list once entry `i` is unlinked. */
  function Without(list: seq<nat>, i: nat): seq<nat>
    requires i < |list|
  {
    list[..i] + list[i + 1..]
  }

  lemma WithoutAt(list: seq<nat>, i: nat, j: nat)
    requires i < |list| && j + 1 < |list|
    ensures Without(list, i)[j] == list[if j < i then j else j + 1]
    ensures At(Without(list, i), j + 1) == At(list, if j + 1 < i then j + 1 else j + 2)
    ensures At(Without(list, i), j - 1) == At(list, if j - 1 < i then j - 1 else j)
  {
  }
}
