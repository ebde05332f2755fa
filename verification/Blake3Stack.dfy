/**
 The lazily merged stack of chaining values, as values. The ghost exponents `es`
 say that entry i is the root of a complete subtree of 2^es[i] chunks.
 */
module Blake3Stack {
  import opened Bits
  import opened Blake3Spec
  import opened Words

  /** The number of chunks under the stack. */
  ghost function Chunks(es: seq<nat>): nat {
    if es == [] then 0 else Chunks(es[..|es| - 1]) + Pow2(es[|es| - 1])
  }

  /** The chaining value of a subtree, from its bytes and its first chunk number. */
  type NodeFn = (seq<Byte>, nat) -> seq<Byte>

  ghost predicate IsTree(p: Params, f: NodeFn) {
    forall bytes: seq<Byte>, counter: nat {:trigger TreeCv(p, bytes, counter)} ::
      f(bytes, counter) == TreeCv(p, bytes, counter)
  }

  lemma TreeNodes(p: Params) returns (f: NodeFn)
    ensures IsTree(p, f)
  {
    f := (bytes: seq<Byte>, counter: nat) => TreeCv(p, bytes, counter);
  }

  lemma NodesJoin(p: Params, f: NodeFn, left: seq<Byte>, right: seq<Byte>, counter: nat, e: nat)
    requires IsTree(p, f)
    requires |left| == Pow2(e) * CHUNK_LEN && 0 < |right| <= |left|
    ensures f(left + right, counter) ==
            ChainingValue(p.compress, ParentOutput(p, f(left, counter), f(right, counter + Pow2(e))))
  {
    TreeJoin(p, left, right, counter, e);
    assert f(left, counter) == TreeCv(p, left, counter);
    assert f(right, counter + Pow2(e)) == TreeCv(p, right, counter + Pow2(e));
    assert f(left + right, counter) == TreeCv(p, left + right, counter);
  }

  /** Entry by entry, from the top: the stack stands for `data`. */
  ghost predicate Stands(f: NodeFn, es: seq<nat>, cvs: seq<seq<Byte>>, data: seq<Byte>)
    decreases |es|
  {
    && |es| == |cvs|
    && if es == [] then data == []
       else
         var n := |es| - 1;
         var size := Pow2(es[n]) * CHUNK_LEN;
         && size <= |data|
         && cvs[n] == f(data[|data| - size..], Chunks(es[..n]))
         && Stands(f, es[..n], cvs[..n], data[..|data| - size])
  }

  /** Fully merged: subtree sizes strictly decrease. */
  ghost predicate Strict(es: seq<nat>) {
    forall i, j :: 0 <= i < j < |es| ==> es[i] > es[j]
  }

  /** Merged except that the last two subtrees may be of equal size. */
  ghost predicate Nearly(es: seq<nat>) {
    && (es != [] ==> Strict(es[..|es| - 1]))
    && (|es| >= 2 ==> es[|es| - 2] >= es[|es| - 1])
  }

  ghost predicate EndsInPair(es: seq<nat>) {
    |es| >= 2 && es[|es| - 2] == es[|es| - 1]
  }

  lemma {:induction false} StandsLength(f: NodeFn, es: seq<nat>, cvs: seq<seq<Byte>>, data: seq<Byte>)
    requires Stands(f, es, cvs, data)
    ensures |data| == Chunks(es) * CHUNK_LEN
    decreases |es|
  {
    if es == [] {
    } else {
      var n := |es| - 1;
      StandsLength(f, es[..n], cvs[..n], data[..|data| - Pow2(es[n]) * CHUNK_LEN]);
    }
  }

  lemma StandsPush(f: NodeFn, es: seq<nat>, cvs: seq<seq<Byte>>, data: seq<Byte>, e: nat, subtree: seq<Byte>,
                   cv: seq<Byte>)
    requires Stands(f, es, cvs, data)
    requires |subtree| == Pow2(e) * CHUNK_LEN && cv == f(subtree, Chunks(es))
    ensures Stands(f, es + [e], cvs + [cv], data + subtree)
    ensures Chunks(es + [e]) == Chunks(es) + Pow2(e)
  {
    assert (es + [e])[..|es|] == es && (cvs + [cv])[..|es|] == cvs;
    assert (data + subtree)[|data|..] == subtree && (data + subtree)[..|data|] == data;
  }

  /** Two equal subtrees at the top become one of twice the size. */
  ghost function Merged(es: seq<nat>): seq<nat>
    requires EndsInPair(es)
  {
    es[..|es| - 2] + [es[|es| - 1] + 1]
  }

  lemma MergedShape(es: seq<nat>)
    requires EndsInPair(es) && Nearly(es)
    ensures Nearly(Merged(es)) && Chunks(Merged(es)) == Chunks(es)
  {
    var m := |es| - 2;
    var es' := Merged(es);
    assert es'[..m] == es[..m];
    assert es[..m + 1][..m] == es[..m];
    if m >= 1 {
      assert es[..m + 1][m - 1] > es[..m + 1][m];
    }
    assert forall i :: 0 <= i < m ==> es[..m][i] == es[..m + 1][i];
  }

  lemma StandsPop(f: NodeFn, es: seq<nat>, cvs: seq<seq<Byte>>, data: seq<Byte>)
    returns (below: seq<Byte>, top: seq<Byte>)
    requires Stands(f, es, cvs, data) && es != []
    ensures data == below + top && |top| == Pow2(es[|es| - 1]) * CHUNK_LEN
    ensures cvs[|es| - 1] == f(top, Chunks(es[..|es| - 1]))
    ensures Stands(f, es[..|es| - 1], cvs[..|es| - 1], below)
  {
    var cut := |data| - Pow2(es[|es| - 1]) * CHUNK_LEN;
    below, top := data[..cut], data[cut..];
  }

  lemma StandsPopPair(f: NodeFn, es: seq<nat>, cvs: seq<seq<Byte>>, data: seq<Byte>)
    returns (base: seq<Byte>, left: seq<Byte>, right: seq<Byte>)
    requires Stands(f, es, cvs, data) && EndsInPair(es)
    ensures data == base + (left + right)
    ensures |left| == |right| == Pow2(es[|es| - 2]) * CHUNK_LEN
    ensures var m := |es| - 2;
            && Stands(f, es[..m], cvs[..m], base)
            && cvs[m] == f(left, Chunks(es[..m])) && cvs[m + 1] == f(right, Chunks(es[..m]) + Pow2(es[m]))
  {
    var m := |es| - 2;
    var front;
    front, right := StandsPop(f, es, cvs, data);
    base, left := StandsPop(f, es[..m + 1], cvs[..m + 1], front);
    assert es[..m + 1][..m] == es[..m] && cvs[..m + 1][..m] == cvs[..m];
    assert (base + left) + right == base + (left + right);
  }

  ghost predicate IsParent(p: Params, left: seq<Byte>, right: seq<Byte>, parent: seq<Byte>) {
    parent == ChainingValue(p.compress, ParentOutput(p, left, right))
  }

  // Twice the bytes of a subtree make one of the next size.
  lemma StandsTwice(f: NodeFn, es: seq<nat>, cvs: seq<seq<Byte>>, base: seq<Byte>, both: seq<Byte>, e: nat,
                    cv: seq<Byte>)
    requires Stands(f, es, cvs, base) && |both| == 2 * (Pow2(e) * CHUNK_LEN) && cv == f(both, Chunks(es))
    ensures Stands(f, es + [e + 1], cvs + [cv], base + both)
  {
    assert Pow2(e + 1) == 2 * Pow2(e);
    StandsPush(f, es, cvs, base, e + 1, both, cv);
  }

  lemma ParentStands(p: Params, f: NodeFn, es: seq<nat>, cvs: seq<seq<Byte>>, base: seq<Byte>, left: seq<Byte>,
                     right: seq<Byte>, e: nat, l: seq<Byte>, r: seq<Byte>, parent: seq<Byte>)
    requires IsTree(p, f) && Stands(f, es, cvs, base) && |left| == |right| == Pow2(e) * CHUNK_LEN
    requires l == f(left, Chunks(es)) && r == f(right, Chunks(es) + Pow2(e)) && IsParent(p, l, r, parent)
    ensures Stands(f, es + [e + 1], cvs + [parent], base + (left + right))
  {
    NodesJoin(p, f, left, right, Chunks(es), e);
    StandsTwice(f, es, cvs, base, left + right, e, parent);
  }

  /** hasher_merge_cv_stack's step: the parent of the two top entries replaces them. */
  lemma StandsParent(p: Params, f: NodeFn, es: seq<nat>, cvs: seq<seq<Byte>>, data: seq<Byte>, parent: seq<Byte>)
    requires IsTree(p, f) && Stands(f, es, cvs, data) && EndsInPair(es)
    requires IsParent(p, cvs[|es| - 2], cvs[|es| - 1], parent)
    ensures Stands(f, Merged(es), cvs[..|es| - 2] + [parent], data)
  {
    var m := |es| - 2;
    var base, left, right := StandsPopPair(f, es, cvs, data);
    ParentStands(p, f, es[..m], cvs[..m], base, left, right, es[m], cvs[m], cvs[m + 1], parent);
    assert Merged(es) == es[..m] + [es[m] + 1];
  }

  // ---- The population count decides when merging stops ----

  lemma {:induction false} ChunksMultiple(es: seq<nat>, l: nat) returns (a: nat)
    requires forall i :: 0 <= i < |es| ==> es[i] >= l
    ensures Chunks(es) == Shl(a, l)
  {
    if es == [] {
      a := 0;
      ShlZero(0, l);
    } else {
      var n := |es| - 1;
      var b := ChunksMultiple(es[..n], l);
      var c := Pow2(es[n] - l);
      a := b + c;
      ShlSum(b, c, l);
      ShlOne(es[n] - l);
      ShlShl(1, es[n] - l, l);
      ShlOne(es[n]);
    }
  }

  lemma {:induction false} StrictOnes(es: seq<nat>)
    requires Strict(es)
    ensures Ones(Chunks(es)) == |es|
  {
    if es == [] {
    } else {
      var n := |es| - 1;
      StrictOnes(es[..n]);
      var a := ChunksMultiple(es[..n], es[n] + 1);
      OnesAddLow(a, es[n]);
      OnesShl(a, es[n] + 1);
    }
  }

  lemma {:induction false} PairOnes(es: seq<nat>)
    requires Nearly(es) && EndsInPair(es)
    ensures Ones(Chunks(es)) < |es|
    decreases |es|
  {
    MergedShape(es);
    var es' := Merged(es);
    if EndsInPair(es') {
      PairOnes(es');
    } else {
      NearlyIsStrict(es');
      StrictOnes(es');
    }
  }

  lemma NearlyIsStrict(es: seq<nat>)
    requires Nearly(es) && !EndsInPair(es)
    ensures Strict(es)
  {
    forall i, j | 0 <= i < j < |es|
      ensures es[i] > es[j]
    {
      var m := |es| - 1;
      if j < m {
        assert es[..m][i] > es[..m][j];
      } else if i < m - 1 {
        assert es[..m][i] > es[..m][m - 1];
      }
    }
  }

  /** The loop guard of hasher_merge_cv_stack: the stack is longer than the
      population count exactly when its last two subtrees are of equal size. */
  lemma MergeGuard(es: seq<nat>)
    requires Nearly(es)
    ensures |es| > Ones(Chunks(es)) <==> EndsInPair(es)
    ensures !EndsInPair(es) ==> Strict(es)
  {
    if EndsInPair(es) {
      PairOnes(es);
    } else {
      NearlyIsStrict(es);
      StrictOnes(es);
    }
  }

  // ---- Bounds ----

  lemma {:induction false} ChunksAtLeast(es: seq<nat>, i: nat)
    requires i < |es|
    ensures Chunks(es) >= Pow2(es[i])
  {
    if |es| - 1 <= i {
    } else {
      ChunksAtLeast(es[..|es| - 1], i);
    }
  }

  lemma {:induction false} StrictStep(es: seq<nat>, i: nat)
    requires Strict(es) && i < |es|
    ensures es[i] >= |es| - 1 - i
    decreases |es| - i
  {
    if |es| <= i + 1 {
    } else {
      StrictStep(es, i + 1);
    }
  }

  /** A merged stack over fewer than 2^n chunks has at most n entries. */
  lemma StrictBound(es: seq<nat>, n: nat)
    requires Strict(es) && Chunks(es) < Pow2(n)
    ensures |es| <= n
  {
    if es != [] {
      StrictStep(es, 0);
      ChunksAtLeast(es, 0);
      if es[0] >= n {
        Pow2Monotone(n, es[0]);
      }
    }
  }

  lemma StrictOdd(es: seq<nat>) returns (odd: nat)
    requires Strict(es) && es != []
    ensures odd % 2 == 1 && Chunks(es) == Shl(odd, es[|es| - 1])
  {
    var n := |es| - 1;
    var a := ChunksMultiple(es[..n], es[n] + 1);
    odd := 2 * a + 1;
    ShlShl(a, 1, es[n]);
    assert Shl(a, 1) == 2 * a;
    ShlOne(es[n]);
    ShlSum(2 * a, 1, es[n]);
  }

  /** If 2^e divides the number of chunks, no subtree is smaller than 2^e. */
  lemma StrictAligned(es: seq<nat>, e: nat)
    requires Strict(es) && Aligned(Chunks(es), e)
    ensures es != [] ==> es[|es| - 1] >= e
  {
    if es != [] && es[|es| - 1] < e {
      var odd := StrictOdd(es);
      OddMultiple(odd, es[|es| - 1], e);
    }
  }

  /** Pushing a subtree of 2^e chunks at an aligned chunk number. */
  lemma PushShape(es: seq<nat>, e: nat)
    requires Strict(es) && Aligned(Chunks(es), e)
    ensures Nearly(es + [e])
    ensures Aligned(Chunks(es), e + 1) ==> Strict(es + [e])
  {
    StrictAligned(es, e);
    assert (es + [e])[..|es|] == es;
    if Aligned(Chunks(es), e + 1) {
      StrictAligned(es, e + 1);
      assert !EndsInPair(es + [e]);
      NearlyIsStrict(es + [e]);
    }
  }

  // ---- Finalization ----

  lemma FoldJoin(p: Params, f: NodeFn, top: seq<Byte>, tail: seq<Byte>, counter: nat, e: nat, o: Output)
    requires IsTree(p, f)
    requires |top| == Pow2(e) * CHUNK_LEN && 0 < |tail| <= |top|
    requires o == Tree(p, tail, counter + Pow2(e))
    ensures ParentOutput(p, f(top, counter), ChainingValue(p.compress, o)) == Tree(p, top + tail, counter)
  {
    assert f(top, counter) == TreeCv(p, top, counter);
    TreeJoin(p, top, tail, counter, e);
  }

  /** The final fold with subtrees `es` still to join: `o` is the node over all
      data after them, and that data fits beside the last of them. */
  ghost predicate Folding(p: Params, f: NodeFn, es: seq<nat>, cvs: seq<seq<Byte>>, base: seq<Byte>, tail: seq<Byte>,
                          o: Output)
  {
    && Stands(f, es, cvs, base) && Strict(es)
    && tail != [] && o == Tree(p, tail, Chunks(es))
    && (es != [] ==> |tail| <= Pow2(es[|es| - 1]) * CHUNK_LEN)
  }

  lemma StrictDoubles(es: seq<nat>, i: nat)
    requires i + 1 < |es| && Strict(es)
    ensures Pow2(es[i]) >= 2 * Pow2(es[i + 1])
  {
    Pow2Monotone(es[i + 1], es[i]);
  }

  lemma PairPrefix(es: seq<nat>)
    requires Nearly(es) && EndsInPair(es)
    ensures var m := |es| - 2; Strict(es[..m]) && (m > 0 ==> Pow2(es[m - 1]) >= 2 * Pow2(es[m]))
  {
    var m := |es| - 2;
    assert forall i :: 0 <= i < m ==> es[..m][i] == es[..m + 1][i];
    if m > 0 {
      StrictDoubles(es[..m + 1], m - 1);
    }
  }

  lemma StrictPrefix(es: seq<nat>)
    requires Strict(es) && es != []
    ensures var i := |es| - 1; Strict(es[..i]) && (i > 0 ==> Pow2(es[i - 1]) >= 2 * Pow2(es[i]))
  {
    var i := |es| - 1;
    if i > 0 {
      StrictDoubles(es, i - 1);
    }
  }

  /** One round of the final fold: joining the top subtree with everything after it. */
  lemma FoldStep(p: Params, f: NodeFn, es: seq<nat>, cvs: seq<seq<Byte>>, base: seq<Byte>, tail: seq<Byte>, o: Output)
    returns (base': seq<Byte>, tail': seq<Byte>)
    requires IsTree(p, f) && es != [] && Folding(p, f, es, cvs, base, tail, o)
    ensures var n := |es| - 1;
            Folding(p, f, es[..n], cvs[..n], base', tail', ParentOutput(p, cvs[n], ChainingValue(p.compress, o)))
    ensures base' + tail' == base + tail
  {
    var n := |es| - 1;
    var top;
    base', top := StandsPop(f, es, cvs, base);
    tail' := top + tail;
    assert base + tail == base' + tail';
    FoldJoin(p, f, top, tail, Chunks(es[..n]), es[n], o);
    StrictPrefix(es);
  }

  lemma PairNode(p: Params, f: NodeFn, left: seq<Byte>, right: seq<Byte>, counter: nat, e: nat)
    requires IsTree(p, f) && |left| == |right| == Pow2(e) * CHUNK_LEN
    ensures left + right != []
    ensures ParentOutput(p, f(left, counter), f(right, counter + Pow2(e))) == Tree(p, left + right, counter)
  {
    assert f(right, counter + Pow2(e)) == TreeCv(p, right, counter + Pow2(e));
    FoldJoin(p, f, left, right, counter, e, Tree(p, right, counter + Pow2(e)));
  }

  /** Where the final fold starts when no chunk has been begun. */
  lemma FoldStart(p: Params, f: NodeFn, es: seq<nat>, cvs: seq<seq<Byte>>, data: seq<Byte>)
    returns (base: seq<Byte>, tail: seq<Byte>)
    requires IsTree(p, f) && Stands(f, es, cvs, data) && Nearly(es) && EndsInPair(es)
    ensures var m := |es| - 2;
            Folding(p, f, es[..m], cvs[..m], base, tail, ParentOutput(p, cvs[m], cvs[m + 1]))
    ensures base + tail == data
  {
    var m := |es| - 2;
    var left, right;
    base, left, right := StandsPopPair(f, es, cvs, data);
    tail := left + right;
    PairNode(p, f, left, right, Chunks(es[..m]), es[m]);
    PairPrefix(es);
  }
}
