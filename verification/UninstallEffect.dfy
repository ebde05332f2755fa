/**
 What writing a log back through the one-block cache does to a byte image, as a
 value, and for which logs that is what the entries say.

 An entry that runs past the last whole block ends in a short read, which leaves the
 bytes behind that block in a cache that still claims to hold the block.
 */
module UninstallEffect {

  import opened UndoLog
  import opened Words

  /** `usable` bytes of `size` make whole blocks. */
  predicate Blocks(bs: nat, usable: nat, size: nat) {
    usable <= size <= usable + bs && (0 < usable ==> bs <= usable)
  }

  /** What a short read at byte `at` leaves of the cache. */
  function Clobbered(cache: seq<Byte>, disk: seq<Byte>, at: nat): seq<Byte>
    requires |disk| <= at + |cache|
  {
    if at < |disk| then Splice(cache, 0, disk[at..]) else cache
  }

  /** The image with the bytes behind its last whole block copied over the start of that block. */
  function Smudged(image: seq<Byte>, bs: nat, usable: nat): (r: seq<Byte>)
    requires bs <= usable <= |image| <= usable + bs
    ensures |r| == |image|
  {
    Splice(image, usable - bs, Clobbered(image[usable - bs..usable], image, usable))
  }

  /** The first n entries leave the cache stale: the last of them that is not empty ran past the last whole block. */
  predicate StaleAfter(log: seq<Entry>, n: nat, usable: nat)
    requires n <= |log|
  {
    n != 0 && (Straddles(log[n - 1], usable) || (log[n - 1].data == [] && StaleAfter(log, n - 1, usable)))
  }

  predicate BeginsInLastBlock(e: Entry, bs: nat, usable: nat) {
    e.data != [] && usable - bs <= e.loc < usable
  }

  /** Entry i is written into the stale cache. */
  predicate Smudges(log: seq<Entry>, i: nat, bs: nat, usable: nat)
    requires i < |log|
  {
    StaleAfter(log, i, usable) && BeginsInLastBlock(log[i], bs, usable)
  }

  /** What the first n entries leave of `image`. */
  function Outcome(log: seq<Entry>, n: nat, bs: nat, usable: nat, image: seq<Byte>): (r: seq<Byte>)
    requires n <= |log| && Blocks(bs, usable, |image|)
    ensures |r| == |image|
    decreases n
  {
    if n == 0 then image
    else
      var before := Outcome(log, n - 1, bs, usable, image);
      var onto := if Smudges(log, n - 1, bs, usable) then Smudged(before, bs, usable) else before;
      Splice(onto, log[n - 1].loc, Clip(log[n - 1], usable).data)
  }

  /** If every entry lies on whole blocks, what is left is what the entries say. */
  lemma {:induction false} OutcomeOfFitting(log: seq<Entry>, n: nat, bs: nat, usable: nat, image: seq<Byte>)
    requires n <= |log| && Blocks(bs, usable, |image|) && AllFit(log, usable)
    ensures !StaleAfter(log, n, usable)
    ensures Outcome(log, n, bs, usable, image) == ReplayBelow(log, n, usable, image)
    decreases n
  {
    if n == 0 {
    } else {
      OutcomeOfFitting(log, n - 1, bs, usable, image);
      assert Fits(log[n - 1], usable);
    }
  }

  lemma {:induction false} OutcomeIsReplay(log: seq<Entry>, bs: nat, usable: nat, image: seq<Byte>)
    requires Blocks(bs, usable, |image|) && AllFit(log, usable)
    ensures AllFit(log, |image|) && Outcome(log, |log|, bs, usable, image) == Replay(log, image)
  {
    OutcomeOfFitting(log, |log|, bs, usable, image);
    ReplayAllBelow(log, |log|, usable, image);
    assert log[..|log|] == log;
  }

  /** After n entries byte p still shows a smudge. */
  predicate Spoilt(log: seq<Entry>, n: nat, bs: nat, usable: nat, p: nat)
    requires n <= |log|
  {
    n != 0 && !Covers(log[n - 1], p) &&
    (Smudges(log, n - 1, bs, usable) || Spoilt(log, n - 1, bs, usable, p))
  }

  lemma SmudgedAt(image: seq<Byte>, bs: nat, usable: nat, p: nat)
    requires bs <= usable <= |image| <= usable + bs && p < |image|
    ensures Smudged(image, bs, usable)[p] == if usable - bs <= p < |image| - bs then image[p + bs] else image[p]
  {
  }

  lemma ClippedAt(image: seq<Byte>, e: Entry, usable: nat, p: nat)
    requires usable <= |image| && p < |image|
    ensures Splice(image, e.loc, Clip(e, usable).data)[p] == Over(e, usable, p, image[p])
  {
  }

  /** Byte p that held `x`, once the part of the entry below `usable` is written. */
  function Over(e: Entry, usable: nat, p: nat, x: Byte): Byte {
    if p < usable && Covers(e, p) then e.data[p - e.loc] else x
  }

  /** What the first n entries say of byte p that holds `x` before. */
  function Said(log: seq<Entry>, n: nat, usable: nat, p: nat, x: Byte): Byte
    requires n <= |log|
  {
    if n == 0 then x else Over(log[n - 1], usable, p, Said(log, n - 1, usable, p, x))
  }

  lemma {:induction false} ReplayAt(log: seq<Entry>, n: nat, usable: nat, image: seq<Byte>, p: nat)
    requires n <= |log| && usable <= |image| && p < |image|
    ensures ReplayBelow(log, n, usable, image)[p] == Said(log, n, usable, p, image[p])
    decreases n
  {
    if n == 0 {
    } else {
      ReplayAt(log, n - 1, usable, image, p);
      ReplayNext(log, n - 1, usable, image, p, Said(log, n - 1, usable, p, image[p]));
    }
  }

  lemma ReplayNext(log: seq<Entry>, n: nat, usable: nat, image: seq<Byte>, p: nat, x: Byte)
    requires n < |log| && usable <= |image| && p < |image| && ReplayBelow(log, n, usable, image)[p] == x
    ensures ReplayBelow(log, n + 1, usable, image)[p] == Over(log[n], usable, p, x)
  {
    ClippedAt(ReplayBelow(log, n, usable, image), log[n], usable, p);
  }

  predicate Exposes(log: seq<Entry>, i: nat, bs: nat, usable: nat, size: nat, p: nat)
    requires i < |log|
  {
    Smudges(log, i, bs, usable) && usable - bs <= p < size - bs
  }

  lemma OutcomeNext(log: seq<Entry>, n: nat, bs: nat, usable: nat, image: seq<Byte>, p: nat, x: Byte)
    requires n < |log| && Blocks(bs, usable, |image|) && p < |image|
    requires x == Outcome(log, n, bs, usable, image)[if Exposes(log, n, bs, usable, |image|, p) then p + bs else p]
    ensures Outcome(log, n + 1, bs, usable, image)[p] == Over(log[n], usable, p, x)
  {
    var before := Outcome(log, n, bs, usable, image);
    if Smudges(log, n, bs, usable) {
      SmudgedAt(before, bs, usable, p);
      ClippedAt(Smudged(before, bs, usable), log[n], usable, p);
    } else {
      ClippedAt(before, log[n], usable, p);
    }
  }

  lemma {:induction false} OutcomeTail(log: seq<Entry>, n: nat, bs: nat, usable: nat, image: seq<Byte>, p: nat)
    requires n <= |log| && Blocks(bs, usable, |image|) && usable <= p < |image|
    ensures Outcome(log, n, bs, usable, image)[p] == image[p]
    decreases n
  {
    if n == 0 {
    } else {
      OutcomeTail(log, n - 1, bs, usable, image, p);
      OutcomeNext(log, n - 1, bs, usable, image, p, image[p]);
    }
  }

  /** What the first n entries leave at byte p: the device's tail where a smudge stayed, and elsewhere what they say. */
  function Shown(log: seq<Entry>, n: nat, bs: nat, usable: nat, image: seq<Byte>, p: nat): Byte
    requires n <= |log| && p < |image|
  {
    if usable - bs <= p < |image| - bs && Spoilt(log, n, bs, usable, p) then image[p + bs]
    else Said(log, n, usable, p, image[p])
  }

  lemma ShownNext(log: seq<Entry>, n: nat, bs: nat, usable: nat, image: seq<Byte>, p: nat)
    requires n < |log| && Blocks(bs, usable, |image|) && p < |image|
    ensures Shown(log, n + 1, bs, usable, image, p) ==
            Over(log[n], usable, p, if Exposes(log, n, bs, usable, |image|, p) then image[p + bs]
                                    else Shown(log, n, bs, usable, image, p))
  {
  }

  lemma {:induction false} OutcomeAt(log: seq<Entry>, n: nat, bs: nat, usable: nat, image: seq<Byte>, p: nat)
    requires n <= |log| && Blocks(bs, usable, |image|) && p < |image|
    ensures Outcome(log, n, bs, usable, image)[p] == Shown(log, n, bs, usable, image, p)
    decreases n
  {
    if n == 0 {
    } else {
      ShownNext(log, n - 1, bs, usable, image, p);
      if Exposes(log, n - 1, bs, usable, |image|, p) {
        OutcomeTail(log, n - 1, bs, usable, image, p + bs);
        OutcomeNext(log, n - 1, bs, usable, image, p, image[p + bs]);
      } else {
        OutcomeAt(log, n - 1, bs, usable, image, p);
        OutcomeNext(log, n - 1, bs, usable, image, p, Shown(log, n - 1, bs, usable, image, p));
      }
    }
  }

  /** Byte p is written by entry i or a later one. */
  ghost predicate Mended(log: seq<Entry>, i: nat, p: nat) {
    exists k :: i <= k < |log| && Covers(log[k], p)
  }

  /** Every byte that an entry smudges is written by that entry or a later one. */
  ghost predicate Harmless(log: seq<Entry>, bs: nat, usable: nat, size: nat) {
    forall i: nat, p: nat {:trigger Mended(log, i, p)} ::
      i < |log| && Smudges(log, i, bs, usable) && 0 <= usable - bs <= p < size - bs ==> Mended(log, i, p)
  }

  lemma {:induction false} SpoiltBy(log: seq<Entry>, n: nat, bs: nat, usable: nat, p: nat, i: nat)
    requires i < n <= |log| && Smudges(log, i, bs, usable) && forall k :: i <= k < n ==> !Covers(log[k], p)
    ensures Spoilt(log, n, bs, usable, p)
    decreases n
  {
    if n == i + 1 {
    } else {
      SpoiltBy(log, n - 1, bs, usable, p, i);
    }
  }

  lemma {:induction false} SpoiltSince(log: seq<Entry>, n: nat, bs: nat, usable: nat, p: nat) returns (i: nat)
    requires n <= |log| && Spoilt(log, n, bs, usable, p)
    ensures i < n && Smudges(log, i, bs, usable) && forall k :: i <= k < n ==> !Covers(log[k], p)
    decreases n
  {
    if Smudges(log, n - 1, bs, usable) {
      i := n - 1;
    } else {
      i := SpoiltSince(log, n - 1, bs, usable, p);
    }
  }

  // An image whose tail differs from what is to be written at byte p, where its smudge stays.
  lemma SpoiltShows(log: seq<Entry>, bs: nat, usable: nat, size: nat, p: nat) returns (image: seq<Byte>)
    requires Blocks(bs, usable, size) && 0 <= usable - bs <= p < size - bs && Spoilt(log, |log|, bs, usable, p)
    ensures |image| == size
    ensures Outcome(log, |log|, bs, usable, image)[p] != ReplayBelow(log, |log|, usable, image)[p]
  {
    var zeros: seq<Byte> := seq(size, _ => 0);
    image := zeros[p + bs := if Said(log, |log|, usable, p, 0) == 0 then 1 else 0];
    ReplayAt(log, |log|, usable, image, p);
    OutcomeAt(log, |log|, bs, usable, image, p);
  }

  lemma Exposed(log: seq<Entry>, bs: nat, usable: nat, size: nat, i: nat, p: nat)
    requires i < |log| && Smudges(log, i, bs, usable) && 0 <= usable - bs <= p < size - bs
    requires forall k :: i <= k < |log| ==> !Covers(log[k], p)
    ensures !Harmless(log, bs, usable, size)
  {
    assert !Mended(log, i, p);
  }

  lemma HarmlessStays(log: seq<Entry>, bs: nat, usable: nat, size: nat, p: nat)
    requires Harmless(log, bs, usable, size) && 0 <= usable - bs <= p < size - bs
    ensures !Spoilt(log, |log|, bs, usable, p)
  {
    if Spoilt(log, |log|, bs, usable, p) {
      var i := SpoiltSince(log, |log|, bs, usable, p);
      Exposed(log, bs, usable, size, i, p);
    }
  }

  lemma {:induction false} HarmlessOutcome(log: seq<Entry>, bs: nat, usable: nat, image: seq<Byte>)
    requires Blocks(bs, usable, |image|) && Harmless(log, bs, usable, |image|)
    ensures Outcome(log, |log|, bs, usable, image) == ReplayBelow(log, |log|, usable, image)
  {
    forall p: nat | p < |image|
      ensures Outcome(log, |log|, bs, usable, image)[p] == ReplayBelow(log, |log|, usable, image)[p]
    {
      ReplayAt(log, |log|, usable, image, p);
      OutcomeAt(log, |log|, bs, usable, image, p);
      if usable - bs <= p < |image| - bs {
        HarmlessStays(log, bs, usable, |image|, p);
      }
    }
  }

  /** Every image of the size is left as the entries say, exactly if the log is harmless. */
  lemma {:induction false} OutcomeExact(log: seq<Entry>, bs: nat, usable: nat, size: nat)
    requires Blocks(bs, usable, size)
    ensures (forall image: seq<Byte> :: |image| == size ==>
               Outcome(log, |log|, bs, usable, image) == ReplayBelow(log, |log|, usable, image))
       <==> Harmless(log, bs, usable, size)
  {
    if Harmless(log, bs, usable, size) {
      forall image: seq<Byte> | |image| == size
        ensures Outcome(log, |log|, bs, usable, image) == ReplayBelow(log, |log|, usable, image)
      {
        HarmlessOutcome(log, bs, usable, image);
      }
    } else {
      var i: nat, p: nat :| i < |log| && Smudges(log, i, bs, usable) && 0 <= usable - bs <= p < size - bs &&
        !Mended(log, i, p);
      SpoiltBy(log, |log|, bs, usable, p, i);
      var image := SpoiltShows(log, bs, usable, size, p);
    }
  }
}
