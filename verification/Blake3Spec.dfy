/**
 The BLAKE3 hash as a recursive tree (sections 2.1, 2.4, 2.5 and 2.6 of the
 BLAKE3 specification), for every compression function.
 This is what the streaming hasher is proved against.
 */
module Blake3Spec {
  import opened Bits
  import opened Words

  type Word = x: nat | x < 0x1_0000_0000

  const BLOCK_LEN: nat := 64
  const CHUNK_LEN: nat := 1024
  const OUT_LEN: nat := 32
  const MAX_DEPTH: nat := 54

  const CHUNK_START: bv8 := 1
  const CHUNK_END: bv8 := 2
  const PARENT: bv8 := 4
  const ROOT: bv8 := 8

  /** The compression function: chaining value, block, block length, counter and
      flags to the sixteen output words, here one word per lane. */
  type Compression = (seq<Word>, seq<Byte>, nat, nat, bv8, nat) -> Word

  /** What every node of one hash shares. */
  datatype Params = Params(compress: Compression, key: seq<Word>, flags: bv8)

  function Store32(w: Word): (b: seq<Byte>)
    ensures |b| == 4
  {
    [w % 256, w / 256 % 256, w / 65536 % 256, w / 16777216]
  }

  function Load32(b: seq<Byte>): Word
    requires |b| == 4
  {
    b[0] as int + 256 * b[1] as int + 65536 * b[2] as int + 16777216 * b[3] as int
  }

  function StoreWords(words: seq<Word>): (b: seq<Byte>)
    ensures |b| == 4 * |words|
  {
    seq(4 * |words|, i requires 0 <= i < 4 * |words| => Store32(words[i / 4])[i % 4])
  }

  function LoadWords(b: seq<Byte>): (words: seq<Word>)
    requires |b| % 4 == 0
    ensures |words| == |b| / 4
  {
    seq(|b| / 4, i requires 0 <= i < |b| / 4 => Load32(b[4 * i..4 * i + 4]))
  }

  /** The chaining value: the first eight lanes. */
  function CompressInPlace(c: Compression, cv: seq<Word>, block: seq<Byte>, blockLen: nat, counter: nat,
                           flags: bv8): (r: seq<Word>)
    ensures |r| == 8
  {
    seq(8, (i: nat) => c(cv, block, blockLen, counter, flags, i))
  }

  /** One block of extended output: all sixteen lanes, stored little-endian. */
  function CompressXof(c: Compression, cv: seq<Word>, block: seq<Byte>, blockLen: nat, counter: nat,
                       flags: bv8): (r: seq<Byte>)
    ensures |r| == BLOCK_LEN
  {
    StoreWords(seq(16, (i: nat) => c(cv, block, blockLen, counter, flags, i)))
  }

  /** A node whose compression is still pending. */
  datatype Output = Output(inputCv: seq<Word>, block: seq<Byte>, blockLen: nat, counter: nat, flags: bv8)

  function ChainingValue(c: Compression, o: Output): (cv: seq<Byte>)
    ensures |cv| == OUT_LEN
  {
    StoreWords(CompressInPlace(c, o.inputCv, o.block, o.blockLen, o.counter, o.flags))
  }

  /** Byte number `i` of the unbounded root output. */
  function RootByte(c: Compression, o: Output, i: nat): Byte {
    CompressXof(c, o.inputCv, o.block, o.blockLen, i / BLOCK_LEN, o.flags | ROOT)[i % BLOCK_LEN]
  }

  function RootBytes(c: Compression, o: Output, seek: nat, n: nat): (r: seq<Byte>)
    ensures |r| == n
  {
    seq<Byte>(n, (i: nat) => RootByte(c, o, seek + i))
  }

  // ---- Chunks ----

  function Pad(b: seq<Byte>): (r: seq<Byte>)
    requires |b| <= BLOCK_LEN
    ensures |r| == BLOCK_LEN
  {
    b + seq(BLOCK_LEN - |b|, i => 0)
  }

  function StartFlag(blocks: nat): bv8 {
    if blocks == 0 then CHUNK_START else 0
  }

  /** Block number `k` of a chunk. */
  function Block(bytes: seq<Byte>, k: nat): (b: seq<Byte>)
    requires BLOCK_LEN * (k + 1) <= |bytes|
    ensures |b| == BLOCK_LEN
  {
    bytes[BLOCK_LEN * k..BLOCK_LEN * (k + 1)]
  }

  /** The chaining value after the first `k` whole blocks of a chunk. */
  function CvAfter(p: Params, counter: nat, bytes: seq<Byte>, k: nat): seq<Word>
    requires BLOCK_LEN * k <= |bytes|
  {
    if k == 0 then p.key
    else
      CompressInPlace(p.compress, CvAfter(p, counter, bytes, k - 1),
                      Block(bytes, k - 1), BLOCK_LEN, counter, p.flags | StartFlag(k - 1))
  }

  /** The number of blocks before the last one; the last block is never empty
      unless the chunk is. */
  function FullBlocks(n: nat): nat {
    if n == 0 then 0 else (n - 1) / BLOCK_LEN
  }

  function ChunkOutput(p: Params, counter: nat, bytes: seq<Byte>): Output
    requires |bytes| <= CHUNK_LEN
  {
    var k := FullBlocks(|bytes|);
    Output(CvAfter(p, counter, bytes, k), Pad(bytes[BLOCK_LEN * k..]), |bytes| - BLOCK_LEN * k,
           counter, p.flags | StartFlag(k) | CHUNK_END)
  }

  lemma {:induction false} CvAfterPrefix(p: Params, counter: nat, bytes: seq<Byte>, more: seq<Byte>, k: nat)
    requires BLOCK_LEN * k <= |bytes|
    ensures CvAfter(p, counter, bytes + more, k) == CvAfter(p, counter, bytes, k)
  {
    if k == 0 {
    } else {
      CvAfterPrefix(p, counter, bytes, more, k - 1);
      assert Block(bytes + more, k - 1) == Block(bytes, k - 1);
    }
  }

  // ---- The tree ----

  function ParentOutput(p: Params, left: seq<Byte>, right: seq<Byte>): Output {
    Output(p.key, left + right, BLOCK_LEN, 0, p.flags | PARENT)
  }

  function LargestPow2(x: nat): (r: nat)
    requires x > 0
    ensures r <= x < 2 * r
  {
    if x == 1 then 1 else 2 * LargestPow2(x / 2)
  }

  /** The left subtree holds the largest power-of-two number of chunks that leaves
      at least one byte for the right subtree. */
  function LeftLen(n: nat): (l: nat)
    requires n > CHUNK_LEN
    ensures 0 < l < n <= 2 * l
  {
    LargestPow2((n - 1) / CHUNK_LEN) * CHUNK_LEN
  }

  function Tree(p: Params, input: seq<Byte>, counter: nat): Output
    decreases |input|, 0
  {
    if |input| <= CHUNK_LEN then ChunkOutput(p, counter, input)
    else
      var l := LeftLen(|input|);
      ParentOutput(p, TreeCv(p, input[..l], counter), TreeCv(p, input[l..], counter + l / CHUNK_LEN))
  }

  function TreeCv(p: Params, input: seq<Byte>, counter: nat): (cv: seq<Byte>)
    ensures |cv| == OUT_LEN
    decreases |input|, 1
  {
    ChainingValue(p.compress, Tree(p, input, counter))
  }

  lemma {:induction false} LargestPow2Unique(x: nat, e: nat)
    requires Pow2(e) <= x < 2 * Pow2(e)
    ensures LargestPow2(x) == Pow2(e)
  {
    if e == 0 {
    } else {
      LargestPow2Unique(x / 2, e - 1);
    }
  }

  lemma LeftLenUnique(n: nat, e: nat)
    requires Pow2(e) * CHUNK_LEN < n <= 2 * Pow2(e) * CHUNK_LEN
    ensures n > CHUNK_LEN && LeftLen(n) == Pow2(e) * CHUNK_LEN
  {
    var c := (n - 1) / CHUNK_LEN;
    assert Pow2(e) <= c < 2 * Pow2(e);
    LargestPow2Unique(c, e);
  }

  /** A complete left subtree joined with a right part that fits beside it. */
  lemma TreeJoin(p: Params, left: seq<Byte>, right: seq<Byte>, counter: nat, e: nat)
    requires |left| == Pow2(e) * CHUNK_LEN
    requires 0 < |right| <= |left|
    ensures Tree(p, left + right, counter) ==
            ParentOutput(p, TreeCv(p, left, counter), TreeCv(p, right, counter + Pow2(e)))
  {
    var all := left + right;
    LeftLenUnique(|all|, e);
    assert all[..|left|] == left && all[|left|..] == right;
    assert |left| / CHUNK_LEN == Pow2(e);
  }
}
