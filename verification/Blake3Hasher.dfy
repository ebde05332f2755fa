/**
 The streaming hasher: updates in any pieces, then any slice of the output.
 */
module Blake3Hasher {

  import opened Bits
  import opened Blake3Chunk
  import opened Blake3Spec
  import opened Blake3Stack
  import opened Blake3Subtree
  import opened Words

  const STACK_ENTRIES: nat := MAX_DEPTH + 1

  lemma RootBytesAppend(c: Compression, o: Output, seek: nat, m: nat, n: nat)
    ensures RootBytes(c, o, seek, m) + RootBytes(c, o, seek + m, n) == RootBytes(c, o, seek, m + n)
  {
  }

  lemma RootBytesSlice(c: Compression, o: Output, seek: nat, m: nat, n: nat, len: nat)
    requires m + n <= len
    ensures RootBytes(c, o, seek, len)[m..m + n] == RootBytes(c, o, seek + m, n)
  {
  }

  method XofBlock(c: Compression, o: Output, counter: nat) returns (block: seq<Byte>)
    ensures block == RootBytes(c, o, BLOCK_LEN * counter, BLOCK_LEN)
  {
    block := CompressXof(c, o.inputCv, o.block, o.blockLen, counter, o.flags | ROOT);
    forall i | 0 <= i < BLOCK_LEN
      ensures block[i] == RootByte(c, o, BLOCK_LEN * counter + i)
    {
      assert (BLOCK_LEN * counter + i) / BLOCK_LEN == counter;
    }
  }

  /** blake3_xof_many: consecutive whole output blocks. */
  method XofMany(c: Compression, o: Output, counter: nat, blocks: nat) returns (out: seq<Byte>)
    ensures out == RootBytes(c, o, BLOCK_LEN * counter, BLOCK_LEN * blocks)
  {
    out := [];
    for i := 0 to blocks
      invariant out == RootBytes(c, o, BLOCK_LEN * counter, BLOCK_LEN * i)
    {
      var block := XofBlock(c, o, counter + i);
      RootBytesAppend(c, o, BLOCK_LEN * counter, BLOCK_LEN * i, BLOCK_LEN);
      out := out + block;
    }
  }

  /** output_root_bytes: a partial first block, whole blocks, a partial last block. */
  method OutputRootBytes(c: Compression, o: Output, seek: nat, n: nat) returns (out: seq<Byte>)
    ensures out == RootBytes(c, o, seek, n)
  {
    if n == 0 {
      return [];
    }
    var counter := seek / BLOCK_LEN;
    var offset := seek % BLOCK_LEN;
    var left := n;
    out := [];
    if offset != 0 {
      var wide := XofBlock(c, o, counter);
      var available := BLOCK_LEN - offset;
      var bytes := if left > available then available else left;
      RootBytesSlice(c, o, BLOCK_LEN * counter, offset, bytes, BLOCK_LEN);
      out := wide[offset..offset + bytes];
      left := left - bytes;
      counter := counter + 1;
    }
    assert left > 0 ==> seek + (n - left) == BLOCK_LEN * counter;
    if left / BLOCK_LEN > 0 {
      var blocks := left / BLOCK_LEN;
      var many := XofMany(c, o, counter, blocks);
      RootBytesAppend(c, o, seek, n - left, BLOCK_LEN * blocks);
      out := out + many;
      counter := counter + blocks;
      left := left % BLOCK_LEN;
    }
    if left > 0 {
      var wide := XofBlock(c, o, counter);
      RootBytesSlice(c, o, BLOCK_LEN * counter, 0, left, BLOCK_LEN);
      RootBytesAppend(c, o, seek, n - left, left);
      out := out + wide[..left];
    }
  }

  // Whether 2^e chunks may start at this chunk number, tested on byte counts.
  lemma AlignedTest(counter: nat, e: nat)
    ensures Pow2(e) * CHUNK_LEN == Pow2(e + 10)
    ensures And(Pow2(e) * CHUNK_LEN - 1, counter * CHUNK_LEN) == 0 <==> Aligned(counter, e)
  {
    ShlOne(e);
    ShlShl(1, e, 10);
    ShlOne(e + 10);
    ShlTen(Pow2(e));
    ShlTen(counter);
    AndMask(e + 10, counter * CHUNK_LEN);
    LowShl(counter, 10, e);
    ShlZero(Low(counter, e), 10);
  }

  // A complete subtree of 2^e chunks fits the input and may start at chunk `counter`.
  ghost predicate Fitting(inputLen: nat, counter: nat, e: nat) {
    Pow2(e) * CHUNK_LEN <= inputLen && Aligned(counter, e)
  }

  lemma {:induction false} TooLong(inputLen: nat, e: nat, d: nat)
    requires inputLen < 2 * (Pow2(e) * CHUNK_LEN) && e < d
    ensures inputLen < Pow2(d) * CHUNK_LEN
  {
    Pow2Monotone(e + 1, d);
  }

  /** The largest aligned complete subtree that starts at chunk `counter` and fits. */
  method ChooseSubtree(inputLen: nat, counter: nat) returns (subtreeLen: nat, ghost e: nat)
    requires inputLen > CHUNK_LEN && inputLen < TWO64
    ensures subtreeLen == Pow2(e) * CHUNK_LEN && Fitting(inputLen, counter, e)
    ensures forall d: nat :: Fitting(inputLen, counter, d) ==> Pow2(d) * CHUNK_LEN <= subtreeLen
  {
    subtreeLen := RoundDownToPowerOf2(inputLen);
    var countSoFar := counter * CHUNK_LEN;
    e := AtLeastAChunk(inputLen);
    forall d: nat | e < d
      ensures !Fitting(inputLen, counter, d)
    {
      TooLong(inputLen, e, d);
    }
    while And(subtreeLen - 1, countSoFar) != 0
      invariant subtreeLen == Pow2(e) * CHUNK_LEN <= inputLen
      invariant forall d: nat :: e < d ==> !Fitting(inputLen, counter, d)
      decreases e
    {
      AlignedTest(counter, e);
      subtreeLen := subtreeLen / 2;
      e := e - 1;
    }
    AlignedTest(counter, e);
    forall d: nat | Fitting(inputLen, counter, d)
      ensures Pow2(d) * CHUNK_LEN <= subtreeLen
    {
      Pow2Monotone(d, e);
    }
  }

  lemma AtLeastAChunk(n: nat) returns (e: nat)
    requires n > CHUNK_LEN
    ensures Pow2(BitLength(n) - 1) == Pow2(e) * CHUNK_LEN
  {
    var bits := BitLength(n);
    AlignedTest(0, 0);
    if bits <= 10 {
      Pow2Monotone(bits, 10);
    }
    e := bits - 11;
    AlignedTest(0, e);
  }

  // What the main loop needs of the choice.
  method PickSubtree(inputLen: nat, counter: nat) returns (subtreeLen: nat, ghost e: nat)
    requires inputLen > CHUNK_LEN && inputLen < TWO64
    ensures subtreeLen == Pow2(e) * CHUNK_LEN && subtreeLen / CHUNK_LEN == Pow2(e) && 0 < subtreeLen <= inputLen
    ensures Aligned(counter, e) && (subtreeLen == inputLen ==> 0 < e)
  {
    subtreeLen, e := ChooseSubtree(inputLen, counter);
  }

  lemma Regroup(a: seq<Byte>, b: seq<Byte>, c: seq<Byte>, d: seq<Byte>)
    ensures (a + b) + (c + d) == (a + (b + c)) + d
  {
  }

  lemma Assoc(a: seq<Byte>, b: seq<Byte>, c: seq<Byte>)
    ensures (a + b) + c == a + (b + c)
  {
  }

  class Hasher {
    const params: Params
    const chunk: ChunkState
    const cvStack: array<seq<Byte>>
    var cvStackLen: nat

    // All input so far, the part of it under the stack, the exponents of the
    // stack's subtrees, and the tree's chaining values as a function.
    ghost var absorbed: seq<Byte>
    ghost var stacked: seq<Byte>
    ghost var es: seq<nat>
    ghost const node: NodeFn

    ghost predicate StackValid()
      reads this, cvStack
    {
      && IsTree(params, node)
      && cvStack.Length == STACK_ENTRIES
      && cvStackLen == |es| <= STACK_ENTRIES
      && Stands(node, es, cvStack[..cvStackLen], stacked)
      && Nearly(es)
    }

    ghost predicate Valid()
      reads this, cvStack, chunk, chunk.buf
    {
      && StackValid()
      && chunk.Valid() && chunk.params == params
      && chunk.chunkCounter == Chunks(es)
      && absorbed == stacked + chunk.absorbed && |absorbed| < TWO64
      && (chunk.absorbed == [] ==> es == [] || EndsInPair(es))
      && (chunk.absorbed != [] ==> Strict(es))
    }

    constructor (p: Params)
      ensures Valid() && params == p && absorbed == []
      ensures fresh(chunk) && fresh(chunk.buf) && fresh(cvStack)
    {
      params := p;
      cvStack := new seq<Byte>[STACK_ENTRIES];
      cvStackLen := 0;
      absorbed := [];
      stacked := [];
      es := [];
      ghost var f := TreeNodes(p);
      node := f;
      chunk := new ChunkState(p, 0);
    }

    method MergeTop()
      requires StackValid() && EndsInPair(es)
      modifies this`cvStackLen, this`es, cvStack
      ensures StackValid() && Chunks(es) == old(Chunks(es)) && cvStackLen < old(cvStackLen)
    {
      var m := cvStackLen - 2;
      ghost var cvs := cvStack[..cvStackLen];
      var parent := ChainingValue(params.compress, ParentOutput(params, cvStack[m], cvStack[m + 1]));
      StandsParent(params, node, es, cvs, stacked, parent);
      MergedShape(es);
      cvStack[m] := parent;
      cvStackLen := cvStackLen - 1;
      es := Merged(es);
      assert cvStack[..cvStackLen] == cvs[..m] + [parent];
    }

    /** hasher_merge_cv_stack: merge until the stack is as long as the population
        count of the number of chunks under it. */
    method MergeCvStack(total: nat)
      requires StackValid() && total == Chunks(es)
      modifies this`cvStackLen, this`es, cvStack
      ensures StackValid() && Strict(es) && Chunks(es) == total
      ensures old(Strict(es)) ==> es == old(es)
    {
      var postMerge := PopCount(total);
      if Strict(es) {
        StrictOnes(es);
      }
      while cvStackLen > postMerge
        invariant StackValid() && Chunks(es) == total
        invariant old(Strict(es)) ==> es == old(es)
        decreases cvStackLen
      {
        MergeGuard(es);
        MergeTop();
      }
      MergeGuard(es);
    }

    method AppendCv(cv: seq<Byte>, ghost subtree: seq<Byte>, ghost e: nat)
      requires StackValid() && |es| < STACK_ENTRIES && Nearly(es + [e])
      requires |subtree| == Pow2(e) * CHUNK_LEN && cv == node(subtree, Chunks(es))
      modifies this`cvStackLen, this`es, this`stacked, cvStack
      ensures StackValid() && es == old(es) + [e] && stacked == old(stacked) + subtree
      ensures Chunks(es) == old(Chunks(es)) + Pow2(e)
    {
      ghost var cvs := cvStack[..cvStackLen];
      StandsPush(node, es, cvs, stacked, e, subtree, cv);
      cvStack[cvStackLen] := cv;
      cvStackLen := cvStackLen + 1;
      es := es + [e];
      stacked := stacked + subtree;
      assert cvStack[..cvStackLen] == cvs + [cv];
    }

    /** hasher_push_cv, with the subtree the new value is the root of. */
    method PushCv(cv: seq<Byte>, counter: nat, ghost subtree: seq<Byte>, ghost e: nat)
      requires StackValid() && counter == Chunks(es)
      requires |subtree| == Pow2(e) * CHUNK_LEN && cv == node(subtree, counter)
      requires Aligned(counter, e) && |stacked| + |subtree| < TWO64
      modifies this`cvStackLen, this`es, this`stacked, cvStack
      ensures StackValid() && stacked == old(stacked) + subtree
      ensures Chunks(es) == counter + Pow2(e)
      ensures old(Strict(es)) ==> es == old(es) + [e]
      ensures Aligned(counter, e + 1) ==> Strict(es) && es != [] && es[|es| - 1] == e
    {
      MergeCvStack(counter);
      StackRoom(node, es, cvStack[..cvStackLen], stacked);
      PushShape(es, e);
      AppendCv(cv, subtree, e);
    }

    // Between pieces of one update: the chunk state is empty and `rest` follows.
    ghost predicate AtChunkBoundary(rest: seq<Byte>)
      reads this, cvStack, chunk, chunk.buf
    {
      && StackValid()
      && chunk.Valid() && chunk.params == params && chunk.absorbed == []
      && chunk.chunkCounter == Chunks(es)
      && absorbed == stacked + rest && |absorbed| < TWO64
    }

    // A single chunk, hashed through a chunk state of its own.
    method HashChunk(input: seq<Byte>) returns (cv: seq<Byte>)
      requires |input| == CHUNK_LEN
      ensures cv == TreeCv(params, input, chunk.chunkCounter)
    {
      var state := new ChunkState(params, chunk.chunkCounter);
      state.Update(input);
      assert [] + input == input;
      var o := state.Final();
      cv := ChainingValue(params.compress, o);
    }

    method PushPair(subtree: seq<Byte>, counter: nat, subtreeChunks: nat, ghost e: nat)
      requires StackValid() && counter == Chunks(es)
      requires e > 0 && subtreeChunks == Pow2(e) && |subtree| == Pow2(e) * CHUNK_LEN
      requires Aligned(counter, e) && |stacked| + |subtree| < TWO64
      modifies this`cvStackLen, this`es, this`stacked, cvStack
      ensures StackValid() && EndsInPair(es)
      ensures stacked == old(stacked) + subtree && Chunks(es) == counter + Pow2(e)
    {
      var left, right := CompressSubtreeToParentNode(params, subtree, counter, node, e - 1);
      ghost var first, second := SubtreeHalves(subtree, e);
      AlignedHalves(counter, e);
      PushTwo(left, right, counter, counter + subtreeChunks / 2, first, second, e - 1);
    }

    method PushTwo(left: seq<Byte>, right: seq<Byte>, counter: nat, middle: nat, ghost first: seq<Byte>,
                   ghost second: seq<Byte>, ghost d: nat)
      requires StackValid() && counter == Chunks(es) && middle == counter + Pow2(d)
      requires |first| == |second| == Pow2(d) * CHUNK_LEN && left == node(first, counter) &&
        right == node(second, middle)
      requires Aligned(counter, d + 1) && Aligned(counter, d) && Aligned(middle, d) &&
        |stacked| + |first| + |second| < TWO64
      modifies this`cvStackLen, this`es, this`stacked, cvStack
      ensures StackValid() && EndsInPair(es)
      ensures stacked == old(stacked) + (first + second) && Chunks(es) == middle + Pow2(d)
    {
      Assoc(stacked, first, second);
      PushCv(left, counter, first, d);
      assert Strict(es) && es[|es| - 1] == d;
      PushCv(right, middle, second, d);
    }

    /** One round of the main loop: take the largest aligned subtree that fits. */
    method AbsorbSubtree(rest: seq<Byte>) returns (rest': seq<Byte>)
      requires AtChunkBoundary(rest) && |rest| > CHUNK_LEN
      modifies this`cvStackLen, this`es, this`stacked, cvStack, chunk`chunkCounter
      ensures AtChunkBoundary(rest') && |rest'| < |rest|
      ensures rest' == [] ==> EndsInPair(es)
      ensures absorbed == old(absorbed)
    {
      var counter := chunk.chunkCounter;
      ghost var e: nat;
      var subtreeLen;
      subtreeLen, e := PickSubtree(|rest|, counter);
      var subtree := rest[..subtreeLen];
      rest' := rest[subtreeLen..];
      assert absorbed == (stacked + subtree) + rest';
      PushSubtree(subtree, counter, e);
      chunk.SetCounter(counter + subtreeLen / CHUNK_LEN);
    }

    // A subtree of 2^e chunks: one value for a single chunk, otherwise those of its two halves.
    method PushSubtree(subtree: seq<Byte>, counter: nat, ghost e: nat)
      requires StackValid() && counter == Chunks(es) == chunk.chunkCounter
      requires |subtree| == Pow2(e) * CHUNK_LEN && Aligned(counter, e) && |stacked| + |subtree| < TWO64
      modifies this`cvStackLen, this`es, this`stacked, cvStack
      ensures StackValid() && stacked == old(stacked) + subtree && Chunks(es) == counter + Pow2(e)
      ensures 0 < e ==> EndsInPair(es)
    {
      if |subtree| <= CHUNK_LEN {
        var cv := HashChunk(subtree);
        PushCv(cv, counter, subtree, e);
      } else {
        PushPair(subtree, counter, |subtree| / CHUNK_LEN, e);
      }
    }

    // The chunk state is full and more input follows: its value goes on the stack.
    method FlushChunk(ghost rest: seq<Byte>)
      requires StackValid() && chunk.Valid() && chunk.params == params
      requires chunk.chunkCounter == Chunks(es) && |chunk.absorbed| == CHUNK_LEN
      requires absorbed == stacked + chunk.absorbed + rest && |absorbed| < TWO64
      modifies this`cvStackLen, this`es, this`stacked, cvStack, chunk, chunk.buf
      ensures AtChunkBoundary(rest) && absorbed == old(absorbed)
    {
      var o := chunk.Final();
      var cv := ChainingValue(params.compress, o);
      assert cv == TreeCv(params, chunk.absorbed, chunk.chunkCounter);
      var counter := chunk.chunkCounter;
      ghost var bytes := chunk.absorbed;
      chunk.Reset(counter + 1);
      PushCv(cv, counter, bytes, 0);
    }

    // Fill the chunk that was already started.
    method TopUp(input: seq<Byte>, len: nat) returns (rest: seq<Byte>)
      requires Valid() && input != [] && |absorbed| + |input| < TWO64
      requires 0 < len == |chunk.absorbed|
      modifies this, cvStack, chunk, chunk.buf
      ensures absorbed == old(absorbed) + input
      ensures if rest == [] then Valid() else AtChunkBoundary(rest)
    {
      var take := CHUNK_LEN - len;
      if take > |input| {
        take := |input|;
      }
      rest := input[take..];
      absorbed := absorbed + input;
      assert input == input[..take] + rest;
      Regroup(stacked, chunk.absorbed, input[..take], rest);
      chunk.Update(input[..take]);
      if |rest| > 0 {
        FlushChunk(rest);
      }
    }

    ghost method StartAtBoundary(input: seq<Byte>)
      requires Valid() && chunk.absorbed == [] && |absorbed| + |input| < TWO64
      modifies this`absorbed
      ensures AtChunkBoundary(input) && absorbed == old(absorbed) + input
    {
      assert absorbed == stacked;
      absorbed := absorbed + input;
      ChunkFrame(chunk);
    }

    method AbsorbSubtrees(input: seq<Byte>) returns (rest: seq<Byte>)
      requires AtChunkBoundary(input) && input != []
      modifies this`cvStackLen, this`es, this`stacked, cvStack, chunk`chunkCounter
      ensures AtChunkBoundary(rest) && absorbed == old(absorbed)
      ensures |rest| <= CHUNK_LEN && (rest == [] ==> EndsInPair(es))
    {
      rest := input;
      while |rest| > CHUNK_LEN
        invariant AtChunkBoundary(rest) && absorbed == old(absorbed)
        invariant rest == [] ==> EndsInPair(es)
        decreases |rest|
      {
        rest := AbsorbSubtree(rest);
      }
    }

    // A chunk has been started behind the subtrees, which may still have to merge.
    ghost predicate Begun()
      reads this, cvStack, chunk, chunk.buf
    {
      && StackValid()
      && chunk.Valid() && chunk.params == params && chunk.absorbed != []
      && chunk.chunkCounter == Chunks(es)
      && absorbed == stacked + chunk.absorbed && |absorbed| < TWO64
    }

    // The last bytes start a chunk.
    method Begin(rest: seq<Byte>)
      requires AtChunkBoundary(rest) && 0 < |rest| <= CHUNK_LEN
      modifies chunk, chunk.buf
      ensures Begun()
    {
      assert [] + rest == rest;
      chunk.Update(rest);
    }

    // Only now are the subtrees before it final.
    method Finish()
      requires Begun()
      modifies this`cvStackLen, this`es, cvStack
      ensures Valid() && absorbed == old(absorbed)
    {
      MergeCvStack(chunk.chunkCounter);
      ChunkFrame(chunk);
    }

    method AbsorbTail(rest: seq<Byte>)
      requires AtChunkBoundary(rest) && |rest| <= CHUNK_LEN
      requires rest == [] ==> EndsInPair(es)
      modifies this`cvStackLen, this`es, cvStack, chunk, chunk.buf
      ensures Valid() && absorbed == old(absorbed)
    {
      if |rest| > 0 {
        Begin(rest);
        Finish();
      }
    }

    // Complete the started chunk, if any, so that the rest begins a chunk.
    method ReachBoundary(input: seq<Byte>) returns (rest: seq<Byte>)
      requires Valid() && input != [] && |absorbed| + |input| < TWO64
      modifies this, cvStack, chunk, chunk.buf
      ensures absorbed == old(absorbed) + input
      ensures if rest == [] then Valid() else AtChunkBoundary(rest)
    {
      var len := chunk.Length();
      if len > 0 {
        rest := TopUp(input, len);
      } else {
        rest := input;
        StartAtBoundary(input);
      }
    }

    /** blake3_hasher_update. */
    method Update(input: seq<Byte>)
      requires Valid() && |absorbed| + |input| < TWO64
      modifies this, cvStack, chunk, chunk.buf
      ensures Valid() && absorbed == old(absorbed) + input
    {
      if |input| > 0 {
        var rest := ReachBoundary(input);
        if |rest| > 0 {
          rest := AbsorbSubtrees(rest);
          AbsorbTail(rest);
        }
      }
    }

    method Reset()
      requires Valid()
      modifies this, chunk, chunk.buf
      ensures Valid() && absorbed == []
    {
      chunk.Reset(0);
      EmptyStack();
    }

    method EmptyStack()
      requires IsTree(params, node) && cvStack.Length == STACK_ENTRIES
      requires chunk.Valid() && chunk.params == params && chunk.chunkCounter == 0 && chunk.absorbed == []
      modifies this`cvStackLen, this`absorbed, this`stacked, this`es
      ensures Valid() && absorbed == []
    {
      cvStackLen := 0;
      absorbed, stacked, es := [], [], [];
      assert Stands(node, [], [], []);
      ChunkFrame(chunk);
    }

    // The fold starts from the chunk begun last ...
    method SeedFromChunk() returns (o: Output)
      requires Valid() && cvStackLen > 0 && chunk.absorbed != []
      ensures Folding(params, node, es, cvStack[..cvStackLen], stacked, chunk.absorbed, o)
    {
      o := chunk.Final();
      assert Pow2(es[cvStackLen - 1]) >= 1;
    }

    // ... or, if there is none, from the last two subtrees.
    method SeedFromPair() returns (o: Output, ghost base: seq<Byte>, ghost tail: seq<Byte>)
      requires Valid() && cvStackLen > 0 && chunk.absorbed == []
      ensures cvStackLen >= 2 && base + tail == absorbed
      ensures Folding(params, node, es[..cvStackLen - 2], cvStack[..cvStackLen - 2], base, tail, o)
    {
      var m := cvStackLen - 2;
      o := ParentOutput(params, cvStack[m], cvStack[m + 1]);
      base, tail := FoldStart(params, node, es, cvStack[..cvStackLen], stacked);
      assert cvStack[..cvStackLen][..m] == cvStack[..m];
      assert stacked + [] == stacked;
    }

    method FoldRound(i: nat, o: Output, ghost base: seq<Byte>, ghost tail: seq<Byte>)
      returns (o': Output, ghost base': seq<Byte>, ghost tail': seq<Byte>)
      requires StackValid() && 0 < i <= cvStackLen
      requires Folding(params, node, es[..i], cvStack[..i], base, tail, o)
      ensures Folding(params, node, es[..i - 1], cvStack[..i - 1], base', tail', o')
      ensures base' + tail' == base + tail
    {
      o' := ParentOutput(params, cvStack[i - 1], ChainingValue(params.compress, o));
      base', tail' := FoldStep(params, node, es[..i], cvStack[..i], base, tail, o);
      assert es[..i][..i - 1] == es[..i - 1] && cvStack[..i][..i - 1] == cvStack[..i - 1];
    }

    method FoldAll(start: nat, seed: Output, ghost base0: seq<Byte>, ghost tail0: seq<Byte>) returns (o: Output)
      requires StackValid() && start <= cvStackLen
      requires Folding(params, node, es[..start], cvStack[..start], base0, tail0, seed)
      ensures o == Tree(params, base0 + tail0, 0)
    {
      var remaining: nat := start;
      ghost var base, tail := base0, tail0;
      o := seed;
      while remaining > 0
        invariant remaining <= cvStackLen && base + tail == base0 + tail0
        invariant Folding(params, node, es[..remaining], cvStack[..remaining], base, tail, o)
      {
        o, base, tail := FoldRound(remaining, o, base, tail);
        remaining := remaining - 1;
      }
      assert es[..0] == [] && base == [];
      assert base + tail == tail;
    }

    method RootOfChunk() returns (o: Output)
      requires Valid() && cvStackLen == 0
      ensures o == Tree(params, absorbed, 0)
    {
      assert stacked + chunk.absorbed == chunk.absorbed;
      o := chunk.Final();
    }

    /** The root node of everything absorbed so far. */
    method Root() returns (o: Output)
      requires Valid()
      ensures o == Tree(params, absorbed, 0)
    {
      if cvStackLen == 0 {
        o := RootOfChunk();
        return;
      }
      var len := chunk.Length();
      if len > 0 {
        o := SeedFromChunk();
        assert es[..cvStackLen] == es;
        o := FoldAll(cvStackLen, o, stacked, chunk.absorbed);
      } else {
        ghost var base, tail;
        o, base, tail := SeedFromPair();
        o := FoldAll(cvStackLen - 2, o, base, tail);
      }
    }

    /** blake3_hasher_finalize_seek. */
    method FinalizeSeek(seek: nat, n: nat) returns (out: seq<Byte>)
      requires Valid()
      ensures out == RootBytes(params.compress, Tree(params, absorbed, 0), seek, n)
    {
      if n == 0 {
        return [];
      }
      var o := Root();
      out := OutputRootBytes(params.compress, o, seek, n);
    }
  }

  function Concat(pieces: seq<seq<Byte>>): seq<Byte> {
    if pieces == [] then [] else Concat(pieces[..|pieces| - 1]) + pieces[|pieces| - 1]
  }

  method UpdateAll(h: Hasher, pieces: seq<seq<Byte>>)
    requires h.Valid() && |h.absorbed| + |Concat(pieces)| < TWO64
    modifies h, h.cvStack, h.chunk, h.chunk.buf
    ensures h.Valid() && h.absorbed == old(h.absorbed) + Concat(pieces)
  {
    if pieces != [] {
      var n := |pieces| - 1;
      Assoc(h.absorbed, Concat(pieces[..n]), pieces[n]);
      UpdateAll(h, pieces[..n]);
      h.Update(pieces[n]);
    } else {
      assert h.absorbed + [] == h.absorbed;
    }
  }

  /** However a message under 2^64 bytes is cut into updates, the output at any
      position is that slice of the recursive tree's root output. */
  method HashInPieces(p: Params, pieces: seq<seq<Byte>>, seek: nat, n: nat) returns (out: seq<Byte>)
    requires |Concat(pieces)| < TWO64
    ensures out == RootBytes(p.compress, Tree(p, Concat(pieces), 0), seek, n)
  {
    var h := new Hasher(p);
    UpdateAll(h, pieces);
    assert [] + Concat(pieces) == Concat(pieces);
    out := h.FinalizeSeek(seek, n);
  }

  method HashOnce(p: Params, message: seq<Byte>, seek: nat, n: nat) returns (out: seq<Byte>)
    requires |message| < TWO64
    ensures out == RootBytes(p.compress, Tree(p, message, 0), seek, n)
  {
    var h := new Hasher(p);
    h.Update(message);
    assert [] + message == message;
    out := h.FinalizeSeek(seek, n);
  }

  const IV: seq<Word> := [0x6A09E667, 0xBB67AE85, 0x3C6EF372, 0xA54FF53A,
                          0x510E527F, 0x9B05688C, 0x1F83D9AB, 0x5BE0CD19]
  const DERIVE_KEY_CONTEXT: bv8 := 32
  const DERIVE_KEY_MATERIAL: bv8 := 64

  /** blake3_hasher_init_derive_key_raw: the key is the hash of the context. */
  method InitDeriveKeyRaw(c: Compression, context: seq<Byte>) returns (h: Hasher)
    requires |context| < TWO64
    ensures h.Valid() && fresh(h) && h.absorbed == []
    ensures h.params.compress == c && h.params.flags == DERIVE_KEY_MATERIAL
    ensures h.params.key == LoadWords(RootBytes(c, Tree(Params(c, IV, DERIVE_KEY_CONTEXT), context, 0), 0, 32))
  {
    var key := HashOnce(Params(c, IV, DERIVE_KEY_CONTEXT), context, 0, 32);
    h := new Hasher(Params(c, LoadWords(key), DERIVE_KEY_MATERIAL));
  }

  lemma SubtreeHalves(subtree: seq<Byte>, e: nat) returns (first: seq<Byte>, second: seq<Byte>)
    requires e > 0 && |subtree| == Pow2(e) * CHUNK_LEN
    ensures Pow2(e) == Pow2(e - 1) + Pow2(e - 1)
    ensures |first| == |second| == Pow2(e - 1) * CHUNK_LEN && subtree == first + second
    ensures first == subtree[..Pow2(e - 1) * CHUNK_LEN] && second == subtree[Pow2(e - 1) * CHUNK_LEN..]
  {
    var half := Pow2(e - 1) * CHUNK_LEN;
    first, second := subtree[..half], subtree[half..];
  }

  lemma {:induction false} AlignedHalves(c: nat, e: nat)
    requires e > 0 && Aligned(c, e)
    ensures Aligned(c, e - 1) && Aligned(c + Pow2(e - 1), e - 1)
  {
    if e <= 1 {
    } else {
      AlignedHalves(c / 2, e - 1);
      assert (c + Pow2(e - 1)) / 2 == c / 2 + Pow2(e - 2);
    }
  }

  // Fewer than 2^54 chunks fit under the stack, so a merged stack has a free entry.
  lemma StackRoom(f: NodeFn, es: seq<nat>, cvs: seq<seq<Byte>>, data: seq<Byte>)
    requires Stands(f, es, cvs, data) && Strict(es) && |data| < TWO64
    ensures |es| <= MAX_DEPTH
  {
    StandsLength(f, es, cvs, data);
    var n: nat :| n == 54;
    Pow2Is64(n + 10);
    AlignedTest(0, n);
    StrictBound(es, n);
  }
}
