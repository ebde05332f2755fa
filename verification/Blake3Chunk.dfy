/**
 The incremental chunk state and the one-shot chunk hash of the portable back end.
 Both are proved to compute the chunk node of the specification.
 */
module Blake3Chunk {
  import opened Blake3Spec
  import opened Words

  class ChunkState {
    const params: Params
    const buf: array<Byte>
    var cv: seq<Word>
    var chunkCounter: nat
    var bufLen: nat
    var blocksCompressed: nat

    // Everything absorbed since the last reset.
    ghost var absorbed: seq<Byte>

    // `absorbed` ends with `rest`, which is still to be consumed.
    ghost predicate Pending(rest: seq<Byte>)
      reads this, buf
    {
      var done := BLOCK_LEN * blocksCompressed;
      && buf.Length == BLOCK_LEN
      && bufLen <= BLOCK_LEN
      && |absorbed| == done + bufLen + |rest| <= CHUNK_LEN
      && rest == absorbed[done + bufLen..]
      && buf[..] == Pad(absorbed[done..done + bufLen])
      && cv == CvAfter(params, chunkCounter, absorbed, blocksCompressed)
      && (blocksCompressed > 0 && bufLen == 0 ==> rest != [])
    }

    ghost predicate Valid()
      reads this, buf
    {
      Pending([])
    }

    constructor (p: Params, counter: nat)
      ensures Valid() && fresh(buf)
      ensures params == p && chunkCounter == counter && absorbed == []
    {
      params := p;
      cv := p.key;
      chunkCounter := counter;
      buf := new Byte[BLOCK_LEN](_ => 0);
      bufLen := 0;
      blocksCompressed := 0;
      absorbed := [];
    }

    method ClearBuf()
      requires buf.Length == BLOCK_LEN
      modifies buf, this`bufLen
      ensures bufLen == 0 && buf[..] == Pad([])
    {
      forall i | 0 <= i < buf.Length {
        buf[i] := 0;
      }
      bufLen := 0;
    }

    method Reset(counter: nat)
      requires Valid()
      modifies this, buf
      ensures Valid() && chunkCounter == counter && absorbed == []
    {
      cv := params.key;
      chunkCounter := counter;
      blocksCompressed := 0;
      absorbed := [];
      ClearBuf();
      assert absorbed[0..0] == [];
    }

    // An empty chunk state moves on to another chunk.
    method SetCounter(counter: nat)
      requires Valid() && absorbed == []
      modifies this`chunkCounter
      ensures Valid() && chunkCounter == counter
    {
      chunkCounter := counter;
    }

    // Copies as much of the input as fits; the rest of the buffer stays zero.
    method FillBuf(input: seq<Byte>) returns (take: nat)
      requires buf.Length == BLOCK_LEN && bufLen <= BLOCK_LEN
      requires buf[..] == Pad(buf[..bufLen])
      modifies buf, this`bufLen
      ensures take == if BLOCK_LEN - old(bufLen) > |input| then |input| else BLOCK_LEN - old(bufLen)
      ensures bufLen == old(bufLen) + take <= BLOCK_LEN
      ensures buf[..] == Pad(old(buf[..bufLen]) + input[..take])
    {
      take := BLOCK_LEN - bufLen;
      if take > |input| {
        take := |input|;
      }
      ghost var before := buf[..];
      forall i | 0 <= i < take {
        buf[bufLen + i] := input[i];
      }
      bufLen := bufLen + take;
      forall k | 0 <= k < BLOCK_LEN
        ensures buf[..][k] == Pad(old(buf[..bufLen]) + input[..take])[k]
      {
        if k >= old(bufLen) + take {
          assert before[k] == Pad(before[..old(bufLen)])[k] == 0;
        }
      }
    }

    method Buffer(rest: seq<Byte>) returns (rest': seq<Byte>)
      requires Pending(rest)
      modifies this`bufLen, buf
      ensures Pending(rest') && (rest' == [] || bufLen == BLOCK_LEN)
      ensures bufLen >= old(bufLen) && |rest'| + bufLen == |rest| + old(bufLen)
    {
      ghost var done := BLOCK_LEN * blocksCompressed;
      ghost var kept := buf[..bufLen];
      assert kept == absorbed[done..done + bufLen];
      var take := FillBuf(rest);
      rest' := rest[take..];
      assert kept + rest[..take] == absorbed[done..done + bufLen];
    }

    method CompressBlock(block: seq<Byte>)
      requires BLOCK_LEN * (blocksCompressed + 1) <= |absorbed|
      requires block == Block(absorbed, blocksCompressed)
      requires cv == CvAfter(params, chunkCounter, absorbed, blocksCompressed)
      modifies this`cv, this`blocksCompressed
      ensures blocksCompressed == old(blocksCompressed) + 1
      ensures cv == CvAfter(params, chunkCounter, absorbed, blocksCompressed)
    {
      cv := CompressInPlace(params.compress, cv, block, BLOCK_LEN, chunkCounter,
                            params.flags | StartFlag(blocksCompressed));
      blocksCompressed := blocksCompressed + 1;
    }

    // The buffer is full and more input follows.
    method CompressBuffer(ghost rest: seq<Byte>)
      requires Pending(rest) && bufLen == BLOCK_LEN && rest != []
      modifies this`cv, this`blocksCompressed, this`bufLen, buf
      ensures Pending(rest) && bufLen == 0
    {
      assert buf[..] == Block(absorbed, blocksCompressed);
      CompressBlock(buf[..]);
      ClearBuf();
    }

    // The buffer is empty and more than a block of input follows.
    method CompressInput(rest: seq<Byte>) returns (rest': seq<Byte>)
      requires Pending(rest) && bufLen == 0 && |rest| > BLOCK_LEN
      modifies this`cv, this`blocksCompressed
      ensures Pending(rest') && rest' == rest[BLOCK_LEN..]
    {
      assert rest[..BLOCK_LEN] == Block(absorbed, blocksCompressed);
      CompressBlock(rest[..BLOCK_LEN]);
      rest' := rest[BLOCK_LEN..];
    }

    // Whole blocks of the input, as long as more follows.
    method CompressInputs(input: seq<Byte>) returns (rest: seq<Byte>)
      requires Pending(input) && (bufLen == 0 || input == [])
      modifies this`cv, this`blocksCompressed
      ensures Pending(rest) && (bufLen == 0 || rest == []) && |rest| <= BLOCK_LEN
    {
      rest := input;
      while |rest| > BLOCK_LEN
        invariant Pending(rest) && (bufLen == 0 || rest == [])
        decreases |rest|
      {
        rest := CompressInput(rest);
      }
    }

    /** chunk_state_update: a full block is compressed only once more input follows it. */
    method Update(input: seq<Byte>)
      requires Valid()
      requires |absorbed| + |input| <= CHUNK_LEN
      modifies this, buf
      ensures Valid()
      ensures chunkCounter == old(chunkCounter) && absorbed == old(absorbed) + input
    {
      CvAfterPrefix(params, chunkCounter, absorbed, input, blocksCompressed);
      ghost var was := absorbed;
      absorbed := was + input;
      assert Pending(input) by {
        assert absorbed[|was|..] == input;
        assert absorbed[BLOCK_LEN * blocksCompressed..|was|] == was[BLOCK_LEN * blocksCompressed..];
      }
      var rest := input;
      if bufLen > 0 {
        rest := Buffer(rest);
        if |rest| > 0 {
          CompressBuffer(rest);
        }
      }
      rest := CompressInputs(rest);
      rest := Buffer(rest);
    }

    method Length() returns (n: nat)
      requires Valid()
      ensures n == |absorbed|
    {
      n := BLOCK_LEN * blocksCompressed + bufLen;
    }

    method Final() returns (o: Output)
      requires Valid()
      ensures o == ChunkOutput(params, chunkCounter, absorbed)
    {
      assert blocksCompressed == FullBlocks(|absorbed|);
      o := Output(cv, buf[..], bufLen, chunkCounter,
                  params.flags | StartFlag(blocksCompressed) | CHUNK_END);
    }
  }

  function FirstFlags(flags: bv8, start: bv8, k: nat): bv8 {
    if k == 0 then flags | start else flags
  }

  twostate lemma ChunkFrame(state: ChunkState)
    requires old(state.Valid()) && unchanged(state) && unchanged(state.buf)
    ensures state.Valid()
  {
  }

  /** The chaining value after `k` blocks when only the first carries a start flag. */
  function BlockChain(p: Params, counter: nat, start: bv8, bytes: seq<Byte>, k: nat): seq<Word>
    requires BLOCK_LEN * k <= |bytes|
  {
    if k == 0 then p.key
    else
      CompressInPlace(p.compress, BlockChain(p, counter, start, bytes, k - 1),
                      Block(bytes, k - 1), BLOCK_LEN, counter, FirstFlags(p.flags, start, k - 1))
  }

  lemma {:induction false} BlockChainOfChunk(p: Params, counter: nat, bytes: seq<Byte>, k: nat)
    requires BLOCK_LEN * k <= |bytes|
    ensures BlockChain(p, counter, CHUNK_START, bytes, k) == CvAfter(p, counter, bytes, k)
  {
    if k == 0 {
    } else {
      BlockChainOfChunk(p, counter, bytes, k - 1);
    }
  }

  /** The last node of a run of whole blocks. */
  function BlocksOutput(p: Params, counter: nat, start: bv8, end: bv8, bytes: seq<Byte>, blocks: nat): Output
    requires blocks > 0 && |bytes| == BLOCK_LEN * blocks
  {
    Output(BlockChain(p, counter, start, bytes, blocks - 1), Block(bytes, blocks - 1), BLOCK_LEN, counter,
           FirstFlags(p.flags, start, blocks - 1) | end)
  }

  // What the loop of hash_one_portable holds after k rounds.
  ghost function CvAfterRounds(p: Params, counter: nat, start: bv8, end: bv8, bytes: seq<Byte>, blocks: nat, k: nat)
    : seq<Word>
    requires k <= blocks && |bytes| == BLOCK_LEN * blocks
  {
    if k < blocks || k == 0 then BlockChain(p, counter, start, bytes, k)
    else
      var o := BlocksOutput(p, counter, start, end, bytes, blocks);
      CompressInPlace(p.compress, o.inputCv, o.block, o.blockLen, o.counter, o.flags)
  }

  function RoundFlags(flags: bv8, end: bv8, last: bool): bv8 {
    if last then flags | end else flags
  }

  lemma NextRound(p: Params, counter: nat, start: bv8, end: bv8, bytes: seq<Byte>, blocks: nat, k: nat)
    requires k < blocks && |bytes| == BLOCK_LEN * blocks
    ensures CvAfterRounds(p, counter, start, end, bytes, blocks, k + 1) ==
            CompressInPlace(p.compress, CvAfterRounds(p, counter, start, end, bytes, blocks, k), Block(bytes, k),
                            BLOCK_LEN, counter, RoundFlags(FirstFlags(p.flags, start, k), end, k + 1 == blocks))
  {
  }

  // One round of hash_one_portable.
  method HashRound(p: Params, cv: seq<Word>, input: seq<Byte>, blocks: nat, left: nat, counter: nat, flags: bv8,
                   ghost flagsStart: bv8, flagsEnd: bv8)
    returns (cv': seq<Word>)
    requires 0 < left <= blocks && |input| == BLOCK_LEN * blocks
    requires flags == FirstFlags(p.flags, flagsStart, blocks - left)
    requires cv == CvAfterRounds(p, counter, flagsStart, flagsEnd, input, blocks, blocks - left)
    ensures cv' == CvAfterRounds(p, counter, flagsStart, flagsEnd, input, blocks, blocks - left + 1)
  {
    NextRound(p, counter, flagsStart, flagsEnd, input, blocks, blocks - left);
    var blockFlags := RoundFlags(flags, flagsEnd, left == 1);
    cv' := CompressInPlace(p.compress, cv, Block(input, blocks - left), BLOCK_LEN, counter, blockFlags);
  }

  /** hash_one_portable: whole blocks, a start flag on the first and an end flag on the last. */
  method HashOne(p: Params, input: seq<Byte>, blocks: nat, counter: nat, flagsStart: bv8, flagsEnd: bv8)
    returns (out: seq<Byte>)
    requires blocks > 0 && |input| == BLOCK_LEN * blocks
    ensures out == ChainingValue(p.compress, BlocksOutput(p, counter, flagsStart, flagsEnd, input, blocks))
  {
    var cv := p.key;
    var blockFlags := p.flags | flagsStart;
    var left := blocks;
    while left > 0
      invariant left <= blocks
      invariant blockFlags == FirstFlags(p.flags, flagsStart, blocks - left)
      invariant cv == CvAfterRounds(p, counter, flagsStart, flagsEnd, input, blocks, blocks - left)
    {
      cv := HashRound(p, cv, input, blocks, left, counter, blockFlags, flagsStart, flagsEnd);
      left := left - 1;
      blockFlags := p.flags;
    }
    out := StoreWords(cv);
  }

  /** blake3_hash_many on one whole chunk agrees with the incremental chunk state. */
  method HashWholeChunk(p: Params, input: seq<Byte>, counter: nat) returns (out: seq<Byte>)
    requires |input| == CHUNK_LEN
    ensures out == TreeCv(p, input, counter)
  {
    BlockChainOfChunk(p, counter, input, 15);
    out := HashOne(p, input, CHUNK_LEN / BLOCK_LEN, counter, CHUNK_START, CHUNK_END);
    assert Pad(input[BLOCK_LEN * 15..]) == Block(input, 15);
  }

  /** blake3_hash_many on one parent node: no start or end flag, counter 0. */
  method HashParent(p: Params, block: seq<Byte>) returns (out: seq<Byte>)
    requires |block| == 2 * OUT_LEN
    ensures out == ChainingValue(p.compress, ParentOutput(p, block[..OUT_LEN], block[OUT_LEN..]))
  {
    var flags := p.flags | PARENT;
    out := HashOne(p.(flags := flags), block, 1, 0, 0, 0);
    assert block[..OUT_LEN] + block[OUT_LEN..] == Block(block, 0);
    assert flags | 0 | 0 == flags;
  }
}
