/**
 Compression of a whole subtree at SIMD degree 1: the recursion returns the
 chaining values of the two children of the subtree's root, not yet joined.
 */
module Blake3Subtree {

  import opened Bits
  import opened Blake3Chunk
  import opened Blake3Spec
  import opened Blake3Stack
  import opened Words

  const SIMD_DEGREE: nat := 1
  const MAX_PARENTS: nat := 2

  /** What blake3_compress_subtree_wide leaves in its output array. */
  ghost function Wide(f: NodeFn, input: seq<Byte>, counter: nat): seq<seq<Byte>> {
    if |input| <= CHUNK_LEN then [f(input, counter)]
    else
      var l := LeftLen(|input|);
      [f(input[..l], counter), f(input[l..], counter + l / CHUNK_LEN)]
  }

  function ParentCv(p: Params, left: seq<Byte>, right: seq<Byte>): (cv: seq<Byte>)
    ensures |cv| == OUT_LEN
  {
    ChainingValue(p.compress, ParentOutput(p, left, right))
  }

  predicate AreCvs(cvs: seq<seq<Byte>>) {
    forall i :: 0 <= i < |cvs| ==> |cvs[i]| == OUT_LEN
  }

  /** Up to MAX_SIMD_DEGREE whole chunks go through the block hash, the rest
      through a chunk state. */
  method CompressChunksParallel(p: Params, input: seq<Byte>, counter: nat) returns (cvs: seq<seq<Byte>>)
    requires 0 < |input| <= SIMD_DEGREE * CHUNK_LEN
    ensures cvs == [TreeCv(p, input, counter)]
  {
    var position := 0;
    cvs := [];
    while |input| - position >= CHUNK_LEN && |cvs| < SIMD_DEGREE
      invariant position == |cvs| * CHUNK_LEN <= |input|
      invariant cvs != [] ==> cvs == [TreeCv(p, input, counter)]
    {
      assert input[position..position + CHUNK_LEN] == input;
      var cv := HashWholeChunk(p, input[position..position + CHUNK_LEN], counter + |cvs|);
      cvs := cvs + [cv];
      position := position + CHUNK_LEN;
    }
    if |input| > position {
      var chunk := new ChunkState(p, counter + |cvs|);
      assert input[position..] == input;
      chunk.Update(input[position..]);
      var o := chunk.Final();
      assert [] + input == input;
      cvs := cvs + [ChainingValue(p.compress, o)];
    }
  }

  /** Adjacent pairs become parents; an odd one out is passed through. */
  function Paired(p: Params, cvs: seq<seq<Byte>>): seq<seq<Byte>> {
    if |cvs| < 2 then cvs else [ParentCv(p, cvs[0], cvs[1])] + Paired(p, cvs[2..])
  }

  lemma PairedStep(p: Params, cvs: seq<seq<Byte>>, n: nat, out: seq<seq<Byte>>)
    requires 2 * n + 2 <= |cvs|
    ensures out + Paired(p, cvs[2 * n..])
         == out + [ParentCv(p, cvs[2 * n], cvs[2 * n + 1])] + Paired(p, cvs[2 * (n + 1)..])
  {
    assert cvs[2 * n..][2..] == cvs[2 * (n + 1)..];
  }

  method CompressParentsParallel(p: Params, cvs: seq<seq<Byte>>) returns (out: seq<seq<Byte>>)
    requires AreCvs(cvs) && |cvs| <= 2 * MAX_PARENTS + 1
    ensures out == Paired(p, cvs) && AreCvs(out)
  {
    out := [];
    var n := 0;
    while |cvs| - 2 * n >= 2 && n < MAX_PARENTS
      invariant n == |out| <= MAX_PARENTS && 2 * n <= |cvs| && AreCvs(out)
      invariant out + Paired(p, cvs[2 * n..]) == Paired(p, cvs)
    {
      var block := cvs[2 * n] + cvs[2 * n + 1];
      var cv := HashParent(p, block);
      assert block[..OUT_LEN] == cvs[2 * n] && block[OUT_LEN..] == cvs[2 * n + 1];
      PairedStep(p, cvs, n, out);
      out := out + [cv];
      n := n + 1;
    }
    assert cvs[2 * n..] == if |cvs| > 2 * n then [cvs[2 * n]] else [];
    if |cvs| > 2 * n {
      out := out + [cvs[2 * n]];
    }
  }

  lemma WideJoins(p: Params, f: NodeFn, input: seq<Byte>, counter: nat)
    requires IsTree(p, f)
    requires |input| > CHUNK_LEN
    ensures var w := Wide(f, input, counter); |w| == 2 && ParentCv(p, w[0], w[1]) == f(input, counter)
  {
    var l := LeftLen(|input|);
    assert f(input, counter) == TreeCv(p, input, counter);
    assert f(input[..l], counter) == TreeCv(p, input[..l], counter);
    assert f(input[l..], counter + l / CHUNK_LEN) == TreeCv(p, input[l..], counter + l / CHUNK_LEN);
  }

  lemma PairedTwo(p: Params, pair: seq<seq<Byte>>, more: seq<seq<Byte>>)
    requires |pair| == 2
    ensures Paired(p, pair + more) == [ParentCv(p, pair[0], pair[1])] + Paired(p, more)
  {
    assert (pair + more)[2..] == more;
  }

  /** Joining the two children of each half gives the chaining values of the halves. */
  lemma PairedHalves(p: Params, f: NodeFn, left: seq<Byte>, right: seq<Byte>, counter: nat, counter': nat)
    requires IsTree(p, f)
    requires |left| > CHUNK_LEN
    ensures Paired(p, Wide(f, left, counter) + Wide(f, right, counter')) ==
            [f(left, counter), f(right, counter')]
  {
    var l, r := Wide(f, left, counter), Wide(f, right, counter');
    WideJoins(p, f, left, counter);
    PairedTwo(p, l, r);
    if |right| > CHUNK_LEN {
      WideJoins(p, f, right, counter');
      PairedTwo(p, r, []);
      assert r + [] == r;
    }
  }

  lemma WideHalves(p: Params, f: NodeFn, input: seq<Byte>, counter: nat)
    requires IsTree(p, f)
    requires |input| > CHUNK_LEN
    ensures var l := LeftLen(|input|);
            var left, right := Wide(f, input[..l], counter), Wide(f, input[l..], counter + l / CHUNK_LEN);
            && 2 <= |left + right| <= 4
            && Wide(f, input, counter) == if |left| == 1 then left + right else Paired(p, left + right)
  {
    var l := LeftLen(|input|);
    if l > CHUNK_LEN {
      PairedHalves(p, f, input[..l], input[l..], counter, counter + l / CHUNK_LEN);
    }
  }

  method LeftSubtreeLen(inputLen: nat) returns (l: nat)
    requires CHUNK_LEN < inputLen && inputLen < TWO64
    ensures l == LeftLen(inputLen)
  {
    var fullChunks := (inputLen - 1) / CHUNK_LEN;
    l := RoundDownToPowerOf2(fullChunks);
    LargestPow2Unique(fullChunks, BitLength(fullChunks) - 1);
    l := l * CHUNK_LEN;
  }

  method CompressSubtreeWide(p: Params, ghost f: NodeFn, input: seq<Byte>, counter: nat) returns (cvs: seq<seq<Byte>>)
    requires IsTree(p, f)
    requires 0 < |input| && |input| < TWO64
    ensures cvs == Wide(f, input, counter) && AreCvs(cvs)
    decreases |input|
  {
    if |input| <= SIMD_DEGREE * CHUNK_LEN {
      cvs := CompressChunksParallel(p, input, counter);
      assert f(input, counter) == TreeCv(p, input, counter);
      return;
    }
    var l := LeftSubtreeLen(|input|);
    var left := CompressSubtreeWide(p, f, input[..l], counter);
    var right := CompressSubtreeWide(p, f, input[l..], counter + l / CHUNK_LEN);
    WideHalves(p, f, input, counter);
    if |left| == 1 {
      // A one-chunk left half: both halves are single chunks and stay separate.
      cvs := left + right;
      return;
    }
    cvs := CompressParentsParallel(p, left + right);
  }

  /** compress_subtree_to_parent_node. At degree 1 the wide pass already yields
      exactly two chaining values, so its reduction loop never runs. */
  method CompressSubtreeToParentNode(p: Params, input: seq<Byte>, counter: nat, ghost f: NodeFn, ghost e: nat)
    returns (left: seq<Byte>, right: seq<Byte>)
    requires IsTree(p, f)
    requires |input| < TWO64
    requires |input| == Pow2(e + 1) * CHUNK_LEN
    ensures left == f(input[..Pow2(e) * CHUNK_LEN], counter) && |left| == OUT_LEN
    ensures right == f(input[Pow2(e) * CHUNK_LEN..], counter + Pow2(e)) && |right| == OUT_LEN
  {
    var cvs := CompressSubtreeWide(p, f, input, counter);
    LeftLenUnique(|input|, e);
    assert Pow2(e) * CHUNK_LEN / CHUNK_LEN == Pow2(e);
    left, right := cvs[0], cvs[1];
  }
}
