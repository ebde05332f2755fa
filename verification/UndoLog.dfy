/**
 The uninstall log as a value: entries of overwritten bytes, what undoing them
 latest first does to a byte image, and the file format the log is kept in.
 */
module UndoLog {

  import opened Words

  datatype Entry = Entry(loc: nat, data: seq<Byte>)

  const LOG_MAX: nat := 256

  /** `image` with `data` written over it from byte `at` on. */
  function Splice(image: seq<Byte>, at: nat, data: seq<Byte>): (r: seq<Byte>)
    requires data == [] || at + |data| <= |image|
    ensures |r| == |image|
  {
    seq(|image|, p requires 0 <= p < |image| => if at <= p < at + |data| then data[p - at] else image[p])
  }

  function Slice(image: seq<Byte>, at: nat, count: nat): (r: seq<Byte>)
    requires count == 0 || at + count <= |image|
    ensures |r| == count && forall i :: 0 <= i < count ==> r[i] == image[at + i]
  {
    if count == 0 then [] else image[at..at + count]
  }

  lemma SliceOn(image: seq<Byte>, at: nat, count: nat, more: nat)
    requires 0 < more && at + count + more <= |image|
    ensures Slice(image, at, count) + Slice(image, at + count, more) == Slice(image, at, count + more)
  {
  }

  lemma SpliceOn(image: seq<Byte>, at: nat, data: seq<Byte>, more: seq<Byte>)
    requires more != [] && at + |data| + |more| <= |image|
    ensures Splice(Splice(image, at, data), at + |data|, more) == Splice(image, at, data + more)
  {
  }

  lemma SpliceWithin(image: seq<Byte>, base: nat, block: seq<Byte>, offset: nat, part: seq<Byte>)
    requires base + |block| <= |image| && 0 < |part| <= |block| - offset
    ensures Splice(image, base, Splice(block, offset, part)) == Splice(Splice(image, base, block), base + offset, part)
  {
  }

  predicate Fits(e: Entry, size: nat) {
    e.data == [] || e.loc + |e.data| <= size
  }

  predicate AllFit(log: seq<Entry>, size: nat) {
    forall i :: 0 <= i < |log| ==> Fits(log[i], size)
  }

  /** The part of an entry below byte `size`. */
  function Clip(e: Entry, size: nat): (r: Entry)
    ensures Fits(r, size) && r.loc == e.loc && r.data <= e.data && (Fits(e, size) <==> r == e)
  {
    if Fits(e, size) then e
    else if size <= e.loc then Entry(e.loc, [])
    else Entry(e.loc, e.data[..size - e.loc])
  }

  /** Begins below byte `size` and ends past it. */
  predicate Straddles(e: Entry, size: nat) {
    e.loc < size < e.loc + |e.data|
  }

  lemma SpliceTwice(image: seq<Byte>, at: nat, data: seq<Byte>)
    requires data == [] || at + |data| <= |image|
    ensures Splice(Splice(image, at, data), at, data) == Splice(image, at, data)
  {
  }

  /** The entries written back one after the other. */
  function Replay(log: seq<Entry>, image: seq<Byte>): (r: seq<Byte>)
    requires AllFit(log, |image|)
    ensures |r| == |image|
    decreases |log|
  {
    if log == [] then image
    else
      var e := log[|log| - 1];
      var before := Replay(log[..|log| - 1], image);
      assert Fits(e, |image|);
      Splice(before, e.loc, e.data)
  }

  /** The first n entries written back, each as far as it lies below byte `limit`. */
  function ReplayBelow(log: seq<Entry>, n: nat, limit: nat, image: seq<Byte>): (r: seq<Byte>)
    requires n <= |log| && limit <= |image|
    ensures |r| == |image|
    decreases n
  {
    if n == 0 then image
    else Splice(ReplayBelow(log, n - 1, limit, image), log[n - 1].loc, Clip(log[n - 1], limit).data)
  }

  lemma {:induction false} ReplayAllBelow(log: seq<Entry>, n: nat, limit: nat, image: seq<Byte>)
    requires n <= |log| && limit <= |image| && AllFit(log, limit)
    ensures AllFit(log[..n], |image|) && ReplayBelow(log, n, limit, image) == Replay(log[..n], image)
    decreases n
  {
    if n == 0 {
    } else {
      ReplayAllBelow(log, n - 1, limit, image);
      assert log[..n][..n - 1] == log[..n - 1];
      assert Fits(log[n - 1], limit);
    }
  }

  function Reverse(log: seq<Entry>): (r: seq<Entry>)
    ensures |r| == |log|
    ensures forall i :: 0 <= i < |log| ==> r[i] == log[|log| - 1 - i]
  {
    seq(|log|, i requires 0 <= i < |log| => log[|log| - 1 - i])
  }

  predicate Covers(e: Entry, p: nat) {
    e.loc <= p < e.loc + |e.data|
  }

  /** What undoing the log leaves at byte `p` that holds `x` now: the oldest entry decides. */
  ghost function Restored(log: seq<Entry>, p: nat, x: Byte): Byte {
    if log == [] then x
    else if Covers(log[0], p) then log[0].data[p - log[0].loc]
    else Restored(log[1..], p, x)
  }

  lemma {:induction false} RestoredSnoc(log: seq<Entry>, e: Entry, p: nat, x: Byte)
    ensures Restored(log + [e], p, x) ==
            Restored(log, p, if Covers(e, p) then e.data[p - e.loc] else x)
  {
    if log == [] {
    } else {
      assert (log + [e])[1..] == log[1..] + [e];
      RestoredSnoc(log[1..], e, p, x);
    }
  }

  /** Replaying the reversed log leaves exactly the restored byte everywhere. */
  lemma {:induction false} ReplayReversed(log: seq<Entry>, image: seq<Byte>, p: nat)
    requires AllFit(log, |image|) && p < |image|
    ensures AllFit(Reverse(log), |image|)
    ensures Replay(Reverse(log), image)[p] == Restored(log, p, image[p])
    decreases |log|
  {
    if log == [] {
    } else {
      var rest := log[1..];
      assert Reverse(log)[..|log| - 1] == Reverse(rest);
      assert Reverse(log)[|log| - 1] == log[0];
      assert Fits(log[0], |image|);
      ReplayReversed(rest, image, p);
    }
  }

  /** Undoing `log` from `image` gives back every byte of `orig`. */
  ghost predicate Undoes(log: seq<Entry>, orig: seq<Byte>, image: seq<Byte>) {
    && |image| == |orig|
    && forall p {:trigger image[p]} {:trigger orig[p]} :: 0 <= p < |orig| ==> Restored(log, p, image[p]) == orig[p]
  }

  /** Both the bytes on the disk and the bytes as read through the cache can be undone. After
      a logged write this still holds, whichever of the old and new bytes reached the disk. */
  lemma WriteKeepsUndo(log: seq<Entry>, orig: seq<Byte>, disk: seq<Byte>, logical: seq<Byte>,
                       e: Entry, disk': seq<Byte>, logical': seq<Byte>)
    requires Undoes(log, orig, disk) && Undoes(log, orig, logical)
    requires Fits(e, |orig|) && e.data == Slice(logical, e.loc, |e.data|)
    requires |disk'| == |orig| && |logical'| == |orig|
    requires forall p :: 0 <= p < |orig| && !Covers(e, p) ==> logical'[p] == logical[p]
    requires forall p :: 0 <= p < |orig| && !Covers(e, p) ==> disk'[p] == disk[p] || disk'[p] == logical[p]
    ensures Undoes(log + [e], orig, disk') && Undoes(log + [e], orig, logical')
  {
    forall p | 0 <= p < |orig|
      ensures Restored(log + [e], p, disk'[p]) == orig[p] && Restored(log + [e], p, logical'[p]) == orig[p]
    {
      RestoredSnoc(log, e, p, disk'[p]);
      RestoredSnoc(log, e, p, logical'[p]);
      assert Restored(log, p, disk[p]) == orig[p] && Restored(log, p, logical[p]) == orig[p];
    }
  }

  /** So replaying the reversed log over the disk restores the original. */
  lemma UndoRestores(log: seq<Entry>, orig: seq<Byte>, disk: seq<Byte>)
    requires AllFit(log, |orig|) && Undoes(log, orig, disk)
    ensures AllFit(Reverse(log), |disk|) && Replay(Reverse(log), disk) == orig
  {
    forall p: nat | p < |orig|
      ensures AllFit(Reverse(log), |disk|) && Replay(Reverse(log), disk)[p] == orig[p]
    {
      ReplayReversed(log, disk, p);
    }
    forall i | 0 <= i < |log|
      ensures Fits(Reverse(log)[i], |disk|)
    {
      assert Fits(log[|log| - 1 - i], |orig|);
    }
  }
}
