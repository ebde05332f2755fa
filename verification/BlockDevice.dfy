/**
 The install tool's device: a byte image read and written through a one-block
 write-back cache, with every write logged so that it can be undone.
 */
module BlockDevice {

  import opened UndoLog
  import opened UninstallEffect
  import opened Words

  // ---- Blocks ----

  /** Byte at which block `b` starts. */
  function Start(bs: nat, b: nat): nat {
    if b == 0 then 0 else Start(bs, b - 1) + bs
  }

  lemma {:induction false} StartIsProduct(bs: nat, b: nat)
    ensures Start(bs, b) == b * bs
  {
    if b == 0 {
    } else {
      StartIsProduct(bs, b - 1);
    }
  }

  lemma {:induction false} StartMonotone(bs: nat, b: nat, c: nat)
    requires b < c
    ensures Start(bs, b) + bs <= Start(bs, c)
  {
    if c <= b + 1 {
    } else {
      StartMonotone(bs, b, c - 1);
    }
  }

  lemma Position(bs: nat, pos: nat)
    requires 0 < bs
    ensures Start(bs, pos / bs) + pos % bs == pos
  {
    StartIsProduct(bs, pos / bs);
  }

  /** The bytes that can be read: the device down to a whole number of blocks. */
  function Usable(bs: nat, size: nat): (r: nat)
    ensures r <= size
  {
    if size < bs || bs == 0 then 0 else bs + Usable(bs, size - bs)
  }

  lemma {:induction false} UsableIsBlocks(bs: nat, size: nat, b: nat)
    requires 0 < bs && Start(bs, b) <= size < Start(bs, b) + bs
    ensures Usable(bs, size) == Start(bs, b)
  {
    if b == 0 {
    } else {
      UsableIsBlocks(bs, size - bs, b - 1);
    }
  }

  lemma UsableBlocks(bs: nat, size: nat, pos: nat)
    requires 0 < bs
    ensures Start(bs, pos / bs) + bs <= size <==> pos < Usable(bs, size)
    ensures pos < Usable(bs, size) ==> Start(bs, pos / bs) + bs <= Usable(bs, size)
  {
    Position(bs, size);
    Position(bs, pos);
    UsableIsBlocks(bs, size, size / bs);
    var b, n := pos / bs, size / bs;
    if b < n {
      StartMonotone(bs, b, n);
    } else if n < b {
      StartMonotone(bs, n, b);
    }
  }

  lemma SameBlock(bs: nat, b: nat, c: nat, pos: nat)
    requires Start(bs, b) <= pos < Start(bs, b) + bs && Start(bs, c) <= pos < Start(bs, c) + bs
    ensures b == c
  {
    if b < c {
      StartMonotone(bs, b, c);
    }
    if c < b {
      StartMonotone(bs, c, b);
    }
  }

  lemma UsableIsWhole(bs: nat, size: nat)
    requires 0 < bs
    ensures Blocks(bs, Usable(bs, size), size) && size < Usable(bs, size) + bs
  {
    Position(bs, size);
    UsableIsBlocks(bs, size, size / bs);
    if size / bs != 0 {
      StartMonotone(bs, 0, size / bs);
    }
  }

  // The block holding the last usable byte ends with it.
  lemma LastBlock(bs: nat, size: nat, b: nat)
    requires 0 < bs && 0 < Usable(bs, size) && Start(bs, b) < Usable(bs, size) <= Start(bs, b) + bs
    ensures Start(bs, b) + bs == Usable(bs, size)
  {
    Position(bs, size);
    UsableIsBlocks(bs, size, size / bs);
    if b < size / bs {
      StartMonotone(bs, b, size / bs);
    } else if size / bs < b {
      StartMonotone(bs, size / bs, b);
    }
  }

  // Past the usable bytes the block of `pos` starts at or behind their end.
  lemma PastUsable(bs: nat, size: nat, pos: nat)
    requires 0 < bs && Usable(bs, size) <= pos
    ensures Usable(bs, size) <= Start(bs, pos / bs) <= pos
  {
    Position(bs, size);
    Position(bs, pos);
    UsableIsBlocks(bs, size, size / bs);
    if pos / bs < size / bs {
      StartMonotone(bs, pos / bs, size / bs);
    } else if size / bs < pos / bs {
      StartMonotone(bs, size / bs, pos / bs);
    }
  }

  /** `done` has been written at `loc` over the logical image `logical`, and meanwhile each other
      byte of the disk stayed or took its logical value. */
  ghost predicate Written(disk: seq<Byte>, logical: seq<Byte>, disk': seq<Byte>, logical': seq<Byte>,
                          loc: nat, done: seq<Byte>)
  {
    && |disk| == |logical| == |disk'| && Fits(Entry(loc, done), |disk|)
    && logical' == Splice(logical, loc, done)
    && forall p {:trigger disk'[p]} :: 0 <= p < |disk| && !Covers(Entry(loc, done), p) ==>
         disk'[p] == disk[p] || disk'[p] == logical[p]
  }

  lemma WrittenOn(disk: seq<Byte>, logical: seq<Byte>, disk1: seq<Byte>, logical1: seq<Byte>, disk2: seq<Byte>,
                  loc: nat, done: seq<Byte>, part: seq<Byte>)
    requires Written(disk, logical, disk1, logical1, loc, done)
    requires disk2 == disk1 || disk2 == logical1
    requires part != [] && loc + |done| + |part| <= |disk|
    ensures Written(disk, logical, disk2, Splice(logical1, loc + |done|, part), loc, done + part)
  {
    SpliceOn(logical, loc, done, part);
    forall p | 0 <= p < |disk| && !Covers(Entry(loc, done + part), p)
      ensures disk2[p] == disk[p] || disk2[p] == logical[p]
    {
      assert !Covers(Entry(loc, done), p);
    }
  }

  lemma WrittenNothing(disk: seq<Byte>, logical: seq<Byte>, loc: nat)
    requires |disk| == |logical|
    ensures Written(disk, logical, disk, logical, loc, [])
  {
  }

  lemma WrittenNext(disk: seq<Byte>, logical: seq<Byte>, disk1: seq<Byte>, logical1: seq<Byte>, disk2: seq<Byte>,
                    loc: nat, data: seq<Byte>, progress: nat, chunk: nat)
    requires 0 < chunk && progress + chunk <= |data| && loc + progress + chunk <= |disk|
    requires Written(disk, logical, disk1, logical1, loc, data[..progress])
    requires disk2 == disk1 || disk2 == logical1
    ensures |logical1| == |disk|
    ensures Written(disk, logical, disk2, Splice(logical1, loc + progress, data[progress..][..chunk]),
                    loc, data[..progress + chunk])
  {
    assert data[..progress + chunk] == data[..progress] + data[progress..][..chunk];
    WrittenOn(disk, logical, disk1, logical1, disk2, loc, data[..progress], data[progress..][..chunk]);
  }

  // A logged write, seen as values: `disk1` is the disk after the pre-image was read.
  lemma LoggedWrite(log: seq<Entry>, orig: seq<Byte>, disk: seq<Byte>, logical: seq<Byte>,
                    disk1: seq<Byte>, disk2: seq<Byte>, logical2: seq<Byte>, loc: nat, data: seq<Byte>)
    requires Undoes(log, orig, disk) && Undoes(log, orig, logical)
    requires (disk1 == disk || disk1 == logical) && Written(disk1, logical, disk2, logical2, loc, data)
    ensures var log' := log + [Entry(loc, Slice(logical, loc, |data|))];
            Undoes(log', orig, disk2) && Undoes(log', orig, logical2)
  {
    var e := Entry(loc, Slice(logical, loc, |data|));
    forall p | 0 <= p < |orig| && !Covers(e, p)
      ensures logical2[p] == logical[p] && (disk2[p] == disk1[p] || disk2[p] == logical[p])
    {
      assert !Covers(Entry(loc, data), p);
    }
    WriteKeepsUndo(log, orig, disk1, logical, e, disk2, logical2);
  }

  lemma FitsMore(log: seq<Entry>, e: Entry, size: nat)
    ensures AllFit(log + [e], size) <==> AllFit(log, size) && Fits(e, size)
  {
    assert (log + [e])[|log|] == e;
    assert forall i :: 0 <= i < |log| ==> (log + [e])[i] == log[i];
  }

  lemma ReverseFits(log: seq<Entry>, size: nat)
    requires AllFit(log, size)
    ensures AllFit(Reverse(log), size)
  {
  }

  lemma NothingWritten(log: seq<Entry>, i: nat, bs: nat, usable: nat, image: seq<Byte>)
    requires i < |log| && Blocks(bs, usable, |image|) && log[i].data == []
    ensures StaleAfter(log, i + 1, usable) == StaleAfter(log, i, usable)
    ensures Outcome(log, i + 1, bs, usable, image) == Outcome(log, i, bs, usable, image)
  {
  }

  class Device {
    const bs: nat
    const size: nat
    const cache: array<Byte>
    var disk: seq<Byte>
    var cachedBlock: int
    var dirty: bool
    var log: seq<Entry>

    // The bytes found when the device was opened, and how many of them make whole blocks.
    ghost var orig: seq<Byte>
    ghost const usable: nat := Usable(bs, size)

    // The cached block, when there is one, lies on the device.
    ghost predicate Placed()
      reads this
    {
      && 0 < bs && cache.Length == bs && |disk| == size && -1 <= cachedBlock
      && (0 <= cachedBlock ==> Start(bs, cachedBlock) + bs <= size)
      && (dirty ==> 0 <= cachedBlock)
    }

    // A clean cache also shows what is on the disk.
    ghost predicate Mirrors()
      reads this, cache
    {
      && Placed()
      && (!dirty && 0 <= cachedBlock ==> cache[..] == disk[Start(bs, cachedBlock)..Start(bs, cachedBlock) + bs])
    }

    /** The device as its users see it: the disk with the cached block laid over it. */
    ghost function Logical(): (r: seq<Byte>)
      requires Placed()
      reads this, cache
      ensures |r| == |disk|
    {
      if cachedBlock < 0 then disk else Splice(disk, Start(bs, cachedBlock), cache[..])
    }

    /** The disk once the cache is written out. */
    ghost function Flushed(): (r: seq<Byte>)
      requires Placed()
      reads this, cache
      ensures |r| == |disk|
    {
      if dirty then Logical() else disk
    }

    lemma MirrorsFlushed()
      requires Mirrors()
      ensures Logical() == Flushed()
    {
    }

    constructor (image: seq<Byte>, blockSize: nat)
      requires 0 < blockSize <= |image|
      ensures Mirrors() && Logical() == disk == orig == image && !dirty && log == []
      ensures bs == blockSize && fresh(cache)
    {
      bs, size := blockSize, |image|;
      cache := new Byte[blockSize](i requires 0 <= i < |image| => image[i]);
      disk, orig := image, image;
      cachedBlock, dirty, log := 0, false, [];
    }

    // memcpy into the cache.
    method CopyIn(offset: nat, part: seq<Byte>)
      requires offset + |part| <= cache.Length
      modifies cache
      ensures cache[..] == Splice(old(cache[..]), offset, part)
    {
      forall i | 0 <= i < |part| {
        cache[offset + i] := part[i];
      }
    }

    method WriteOut()
      requires Placed()
      modifies `disk, `dirty
      ensures Placed() && !dirty && disk == old(Flushed())
    {
      if dirty {
        disk := Splice(disk, Start(bs, cachedBlock), cache[..]);
        dirty := false;
      }
    }

    /** Afterwards the disk itself holds what the device shows. */
    method FlushCache()
      requires Valid()
      modifies `disk, `dirty
      ensures Valid() && !dirty && disk == Logical() == old(Logical())
    {
      WriteOut();
    }

    // fread of one block; a short read leaves what it got in the cache.
    method LoadBlock(block: nat) returns (ok: bool)
      requires Placed() && !dirty
      modifies `cachedBlock, cache
      ensures Placed()
      ensures ok <==> Start(bs, block) + bs <= size
      ensures ok ==> cachedBlock == block && Mirrors()
      ensures !ok ==> cachedBlock == old(cachedBlock) && cache[..] == Clobbered(old(cache[..]), disk, Start(bs, block))
    {
      var at := Start(bs, block);
      ok := at + bs <= |disk|;
      if ok {
        CopyIn(0, disk[at..at + bs]);
        cachedBlock := block;
        assert cache[..] == disk[at..at + bs];
      } else if at < |disk| {
        CopyIn(0, disk[at..]);
      }
    }

    /** A block already cached is left alone; otherwise the cache is written out first, and a block that does not
        lie wholly on the device clobbers it. */
    method CacheBlock(block: nat) returns (ok: bool)
      requires Placed()
      modifies `disk, `dirty, `cachedBlock, cache
      ensures Placed()
      ensures ok <==> Start(bs, block) + bs <= size
      ensures ok ==> cachedBlock == block
      ensures old(cachedBlock) == block ==> disk == old(disk) && dirty == old(dirty) && cache[..] == old(cache[..])
      ensures old(cachedBlock) != block ==> disk == old(Flushed()) && !dirty
      ensures old(cachedBlock) != block && ok ==> Mirrors()
      ensures old(Mirrors()) && ok ==> Mirrors() && Logical() == old(Logical())
      ensures !ok ==> cachedBlock == old(cachedBlock) && cache[..] == Clobbered(old(cache[..]), disk, Start(bs, block))
    {
      if cachedBlock == block {
        return true;
      }
      if Mirrors() {
        MirrorsFlushed();
      }
      if dirty {
        WriteOut();
      }
      ok := LoadBlock(block);
      if ok {
        MirrorsFlushed();
      }
    }

    // ---- Reading and writing byte ranges ----

    ghost predicate Reaches(loc: nat, count: nat) {
      count == 0 || loc + count <= usable
    }

    lemma CachedSlice(offset: nat, chunk: nat)
      requires Placed() && 0 <= cachedBlock && offset + chunk <= bs
      ensures Slice(Logical(), Start(bs, cachedBlock) + offset, chunk) == cache[offset..offset + chunk]
    {
    }

    // Byte `pos` lies in the cached block.
    ghost predicate Caches(pos: nat)
      reads this
    {
      0 <= cachedBlock && Start(bs, cachedBlock) <= pos < Start(bs, cachedBlock) + bs
    }

    /** What a write at `pos` goes over: the cache counts if it is dirty or holds that byte. */
    ghost function Base(pos: nat): (r: seq<Byte>)
      requires Placed()
      reads this, cache
      ensures |r| == |disk|
    {
      if Caches(pos) then Logical() else Flushed()
    }

    // The cache claims to hold the last usable block, but a short read put the device's tail in it.
    ghost predicate Stale()
      reads this, cache
    {
      && Placed() && !dirty && 0 <= cachedBlock && Start(bs, cachedBlock) + bs == usable
      && size <= usable + bs
      && cache[..] == Clobbered(disk[Start(bs, cachedBlock)..usable], disk, usable)
    }

    // The cached block, its own last byte just before `pos`, after the failed read at `pos`.
    lemma TurnsStale(disk1: seq<Byte>, cache1: seq<Byte>, pos: nat)
      requires Placed() && !dirty && |cache1| == bs && |disk1| == size && pos == usable && size <= pos + bs
      requires 0 < pos && Caches(pos - 1) && disk == Splice(disk1, Start(bs, cachedBlock), cache1)
      requires cache[..] == Clobbered(cache1, disk, pos)
      ensures Stale()
    {
      LastBlock(bs, size, cachedBlock);
      assert cache1 == disk[Start(bs, cachedBlock)..usable];
    }

    // Bring in the block of byte `pos`.
    method Fetch(pos: nat, block: nat) returns (ok: bool)
      requires Placed() && HoldsByte(block, pos)
      modifies `disk, `dirty, `cachedBlock, cache
      ensures Placed()
      ensures ok <==> pos < usable
      ensures ok ==> cachedBlock == block && Logical() == old(Base(pos))
      ensures old(Mirrors()) && ok ==> Mirrors()
      ensures disk == old(disk) || disk == old(Base(pos))
      ensures !ok ==> disk == old(Base(pos)) && !dirty && cachedBlock == old(cachedBlock)
      ensures old(dirty) && !ok && 0 < pos == usable && Caches(pos - 1) ==> Stale()
    {
      if Caches(pos) {
        SameBlock(bs, cachedBlock, block, pos);
      }
      ghost var disk1, cache1 := disk, cache[..];
      ok := CacheBlock(block);
      if ok {
        if old(cachedBlock) != block {
          MirrorsFlushed();
        }
      } else if old(dirty) && 0 < pos == usable && Caches(pos - 1) {
        TurnsStale(disk1, cache1, pos);
      }
    }

    // Block `block` is that of byte `pos`, and what that means for reading it.
    ghost predicate HoldsByte(block: nat, pos: nat) {
      && Start(bs, block) <= pos < Start(bs, block) + bs
      && (Start(bs, block) + bs <= size <==> pos < usable)
      && (usable <= pos ==> usable <= Start(bs, block))
    }

    // One turn of the read and write loops: bring in the block of byte `pos` and measure
    // how much of the request lies in it.
    method Aim(pos: nat, remaining: nat) returns (ok: bool, offset: nat, chunk: nat)
      requires Placed() && 0 < remaining
      modifies `disk, `dirty, `cachedBlock, cache
      ensures Placed()
      ensures ok <==> pos < usable
      ensures ok ==> Logical() == old(Base(pos))
      ensures old(Mirrors()) && ok ==> Mirrors()
      ensures disk == old(disk) || disk == old(Base(pos))
      ensures !ok ==> disk == old(Base(pos)) && !dirty && cachedBlock == old(cachedBlock)
      ensures old(dirty) && !ok && 0 < pos == usable && Caches(pos - 1) ==> Stale()
      ensures ok ==> 0 <= cachedBlock && Start(bs, cachedBlock) + offset == pos
      ensures ok ==> 0 < chunk <= remaining && offset + chunk <= bs && pos + chunk <= usable <= size
    {
      Position(bs, pos);
      UsableBlocks(bs, size, pos);
      if usable <= pos {
        PastUsable(bs, size, pos);
      }
      offset := pos % bs;
      chunk := remaining;
      if chunk > bs - offset {
        chunk := bs - offset;
      }
      ok := Fetch(pos, pos / bs);
    }

    method ReadChunk(pos: nat, remaining: nat) returns (ok: bool, part: seq<Byte>)
      requires Mirrors() && 0 < remaining
      modifies `disk, `dirty, `cachedBlock, cache
      ensures Placed() && (disk == old(disk) || disk == old(Logical()))
      ensures ok <==> pos < usable
      ensures ok ==> Mirrors() && Logical() == old(Logical())
      ensures ok ==> 0 < |part| <= remaining && pos + |part| <= usable
      ensures ok ==> part == Slice(Logical(), pos, |part|)
      ensures !ok ==> disk == old(Logical()) && !dirty
    {
      MirrorsFlushed();
      var offset, chunk;
      ok, offset, chunk := Aim(pos, remaining);
      if ok {
        CachedSlice(offset, chunk);
        part := cache[offset..offset + chunk];
      } else {
        part := [];
      }
    }

    method ReadBytes(loc: nat, count: nat) returns (ok: bool, data: seq<Byte>)
      requires Mirrors()
      modifies `disk, `dirty, `cachedBlock, cache
      ensures Placed() && (disk == old(disk) || disk == old(Logical()))
      ensures ok <==> Reaches(loc, count)
      ensures ok ==> Mirrors() && Logical() == old(Logical())
      ensures ok ==> data == Slice(Logical(), loc, count)
      ensures !ok ==> disk == old(Logical()) && !dirty
    {
      ghost var disk0, logical := disk, Logical();
      data := [];
      var progress := 0;
      ok := true;
      while ok && progress < count
        invariant Placed() && progress <= count
        invariant disk == disk0 || disk == logical
        invariant ok ==> Reaches(loc, progress) && Mirrors() && Logical() == logical
        invariant ok ==> data == Slice(logical, loc, progress)
        invariant !ok ==> !Reaches(loc, count) && disk == logical && !dirty
        decreases ok, count - progress
      {
        var part;
        ok, part := ReadChunk(loc + progress, count - progress);
        if ok {
          SliceOn(logical, loc, progress, |part|);
          assert data + part == Slice(logical, loc, progress + |part|);
          data := data + part;
          progress := progress + |part|;
        }
      }
    }

    /** Reads see the logical byte array; a read succeeds exactly when it reaches no byte
        past the last whole block. A failed read has flushed the cache. */
    method Read(loc: nat, count: nat) returns (ok: bool, data: seq<Byte>)
      requires Valid()
      modifies `disk, `dirty, `cachedBlock, cache
      ensures Placed() && (disk == old(disk) || disk == old(Logical()))
      ensures ok <==> Reaches(loc, count)
      ensures ok ==> Mirrors() && Logical() == old(Logical())
      ensures ok ==> data == Slice(Logical(), loc, count)
      ensures !ok ==> disk == old(Logical()) && !dirty
      ensures Undoable() && (ok ==> Valid())
    {
      ok, data := ReadBytes(loc, count);
    }

    // memcpy of one chunk into the cached block.
    method Overwrite(offset: nat, part: seq<Byte>, ghost pos: nat)
      requires Placed() && 0 <= cachedBlock && 0 < |part| <= bs - offset && pos == Start(bs, cachedBlock) + offset
      modifies `dirty, cache
      ensures Mirrors() && dirty && Logical() == Splice(old(Logical()), pos, part)
    {
      SpliceWithin(disk, Start(bs, cachedBlock), cache[..], offset, part);
      CopyIn(offset, part);
      dirty := true;
    }

    // The part of `rest` that lies in the block of `pos` goes into the cache.
    method WriteChunk(pos: nat, rest: seq<Byte>) returns (ok: bool, chunk: nat)
      requires Placed() && rest != []
      modifies `disk, `dirty, `cachedBlock, cache
      ensures Placed()
      ensures ok <==> pos < usable
      ensures ok ==> 0 < chunk <= |rest| && pos + chunk <= usable && Caches(pos + chunk - 1)
      ensures ok ==> dirty && Logical() == Splice(old(Base(pos)), pos, rest[..chunk])
      ensures disk == old(disk) || disk == old(Base(pos))
      ensures !ok ==> disk == old(Base(pos)) && !dirty && cachedBlock == old(cachedBlock)
      ensures old(dirty) && !ok && 0 < pos == usable && Caches(pos - 1) ==> Stale()
    {
      var offset;
      ok, offset, chunk := Aim(pos, |rest|);
      if ok {
        Overwrite(offset, rest[..chunk], pos);
      }
    }

    // The device once `done` was copied over `base`, from a device with this disk and this block cached.
    ghost predicate Copied(disk0: seq<Byte>, base: seq<Byte>, block0: int, loc: nat, done: seq<Byte>)
      reads this, cache
    {
      && Placed() && Reaches(loc, |done|) && Written(disk0, base, disk, Base(loc + |done|), loc, done)
      && (if done == [] then cachedBlock == block0 else dirty && Caches(loc + |done| - 1))
    }

    // One turn of the loop of a device write: as much of the rest as lies in one block.
    method CopyOn(loc: nat, data: seq<Byte>, progress: nat,
                  ghost disk0: seq<Byte>, ghost base: seq<Byte>, ghost block0: int)
      returns (ok: bool, chunk: nat)
      requires progress < |data| && Copied(disk0, base, block0, loc, data[..progress])
      modifies `disk, `dirty, `cachedBlock, cache
      ensures Placed()
      ensures ok <==> loc + progress < usable
      ensures ok ==> 0 < chunk && progress + chunk <= |data|
      ensures ok ==> Copied(disk0, base, block0, loc, data[..progress + chunk])
      ensures !ok ==> !dirty && |base| == size && Fits(Entry(loc, data[..progress]), size)
      ensures !ok ==> disk == Splice(base, loc, data[..progress])
      ensures !ok && progress == 0 ==> cachedBlock == block0
      ensures !ok && 0 < progress ==> Stale()
    {
      ghost var disk1, logical1 := disk, Base(loc + progress);
      ok, chunk := WriteChunk(loc + progress, data[progress..]);
      if ok {
        WrittenNext(disk0, base, disk1, logical1, disk, loc, data, progress, chunk);
      }
    }

    // The loop of a device write: how far it got, and what it then left.
    method CopyBytes(loc: nat, data: seq<Byte>) returns (ok: bool, progress: nat)
      requires Placed()
      modifies `disk, `dirty, `cachedBlock, cache
      ensures Placed() && progress <= |data|
      ensures ok <==> Reaches(loc, |data|)
      ensures ok ==> progress == |data|
      ensures !ok ==> usable <= loc + progress && (progress == 0 || loc + progress == usable)
      ensures data == [] ==> unchanged(`disk) && unchanged(`dirty) && unchanged(`cachedBlock) && unchanged(cache)
      ensures ok && data != [] ==> dirty && Written(old(disk), old(Base(loc)), disk, Logical(), loc, data)
      ensures !ok ==> !dirty && Fits(Entry(loc, data[..progress]), size)
      ensures !ok ==> disk == Splice(old(Base(loc)), loc, data[..progress])
      ensures !ok && progress == 0 ==> cachedBlock == old(cachedBlock)
      ensures !ok && 0 < progress ==> Stale()
    {
      ghost var disk0, base, block0 := disk, Base(loc), cachedBlock;
      WrittenNothing(disk, base, loc);
      progress := 0;
      while progress < |data|
        invariant progress <= |data| && Copied(disk0, base, block0, loc, data[..progress])
        invariant data == [] ==> unchanged(`disk) && unchanged(`dirty) && unchanged(`cachedBlock) && unchanged(cache)
      {
        var chunk;
        ok, chunk := CopyOn(loc, data, progress, disk0, base, block0);
        if !ok {
          return;
        }
        progress := progress + chunk;
      }
      assert data[..|data|] == data;
      ok := true;
    }

    /** The copying half of a device write, with no logging. A write of nothing does nothing. What lies past the last
        whole block is not written, and finding that out leaves the cache stale if something was. */
    method WriteBytes(loc: nat, data: seq<Byte>) returns (ok: bool)
      requires Placed()
      modifies `disk, `dirty, `cachedBlock, cache
      ensures Placed()
      ensures ok <==> Reaches(loc, |data|)
      ensures data == [] ==> unchanged(`disk) && unchanged(`dirty) && unchanged(`cachedBlock) && unchanged(cache)
      ensures ok && data != [] ==> dirty && Written(old(disk), old(Base(loc)), disk, Logical(), loc, data)
      ensures !ok ==> !dirty && disk == Splice(old(Base(loc)), loc, Clip(Entry(loc, data), usable).data)
      ensures !ok ==> if loc < usable then Stale() else cachedBlock == old(cachedBlock)
    {
      var progress;
      ok, progress := CopyBytes(loc, data);
      assert !ok ==> Clip(Entry(loc, data), usable).data == data[..progress];
    }

    // ---- Logged writes ----

    /** What is on the disk, whatever the cache holds, can be undone by the log. */
    ghost predicate Undoable()
      reads this
    {
      Placed() && |log| <= LOG_MAX && AllFit(log, usable) && Undoes(log, orig, disk)
    }

    ghost predicate Valid()
      reads this, cache
    {
      Mirrors() && Undoable() && Undoes(log, orig, Logical())
    }

    /** A write is all or nothing, fails exactly on a full log or a byte past the last whole
        block, and keeps the device undoable even if the cache is then lost. */
    method Write(loc: nat, data: seq<Byte>) returns (ok: bool)
      requires Valid()
      modifies this, cache
      ensures Undoable() && orig == old(orig)
      ensures ok <==> |old(log)| < LOG_MAX && Reaches(loc, |data|)
      ensures ok ==> Valid() && Fits(Entry(loc, data), size) && Logical() == Splice(old(Logical()), loc, data)
      ensures ok ==> log == old(log) + [Entry(loc, Slice(old(Logical()), loc, |data|))]
      ensures !ok ==> log == old(log) && (disk == old(disk) || disk == old(Logical()))
    {
      if |log| >= LOG_MAX {
        return false;
      }
      var saved;
      ok, saved := Read(loc, |data|);
      if !ok {
        return;
      }
      ghost var disk1 := disk;
      MirrorsFlushed();
      ok := WriteBytes(loc, data);
      LoggedWrite(log, orig, old(disk), old(Logical()), disk1, disk, Logical(), loc, data);
      FitsMore(log, Entry(loc, saved), usable);
      log := log + [Entry(loc, saved)];
    }

    // The disk holds `target` and the cache is as a failed write of `e`, once it was retried, leaves it.
    ghost predicate WrittenInPart(e: Entry, target: seq<Byte>)
      reads this, cache
    {
      Placed() && !dirty && disk == target && if e.loc < usable then Stale() else cachedBlock < 0
    }

    // A failed write is tried once more with a dropped cache, in vain.
    method TryAgain(e: Entry, ghost before: seq<Byte>) returns (ok: bool)
      requires Placed() && !dirty && !Fits(e, usable) && |before| == size
      requires disk == Splice(before, e.loc, Clip(e, usable).data)
      modifies `disk, `dirty, `cachedBlock, cache
      ensures !ok && WrittenInPart(e, Splice(before, e.loc, Clip(e, usable).data))
    {
      SpliceTwice(before, e.loc, Clip(e, usable).data);
      WriteOut();
      dirty := false;
      cachedBlock := -1;
      ok := WriteBytes(e.loc, e.data);
    }

    /** One entry of the uninstall loop, whatever the cache holds. Of an entry that reaches past the last whole block
        what lies below its end is on the disk, and the cache is then stale; one that begins past it empties the
        cache. */
    method PutBack(e: Entry) returns (ok: bool)
      requires Placed()
      modifies `disk, `dirty, `cachedBlock, cache
      ensures Placed()
      ensures ok <==> Fits(e, usable)
      ensures e.data == [] ==> unchanged(`disk) && unchanged(`dirty) && unchanged(`cachedBlock) && unchanged(cache)
      ensures ok && e.data != [] ==> dirty && Logical() == Splice(old(Base(e.loc)), e.loc, e.data)
      ensures !ok ==> WrittenInPart(e, Splice(old(Base(e.loc)), e.loc, Clip(e, usable).data))
    {
      ghost var base, kept := Base(e.loc), Clip(e, usable).data;
      ok := WriteBytes(e.loc, e.data);
      var retry := false;
      while !ok
        invariant Placed()
        invariant ok <==> Fits(e, usable)
        invariant e.data == [] ==> unchanged(`disk) && unchanged(`dirty) && unchanged(`cachedBlock) && unchanged(cache)
        invariant ok && e.data != [] ==> dirty && Logical() == Splice(base, e.loc, e.data)
        invariant !ok && !retry ==> !dirty && disk == Splice(base, e.loc, kept)
        invariant !ok && retry ==> WrittenInPart(e, Splice(base, e.loc, kept))
        decreases !retry
      {
        if retry {
          break;
        }
        retry := true;
        ok := TryAgain(e, base);
      }
    }

    // The device is to hold `target`: either it shows that, or it is on the disk under a stale cache.
    ghost predicate Restoring(stale: bool, target: seq<Byte>)
      reads this, cache
    {
      Placed() && |target| == size && if stale then Stale() && disk == target else Mirrors() && Logical() == target
    }

    lemma StaleShows()
      requires Stale()
      ensures bs <= usable && Logical() == Smudged(disk, bs, usable)
    {
    }

    // What a write at `loc` goes over while the device is being restored.
    lemma RestoringBase(stale: bool, target: seq<Byte>, loc: nat)
      requires Restoring(stale, target)
      ensures stale ==> bs <= usable <= size <= usable + bs
      ensures Base(loc) == if stale && usable - bs <= loc < usable then Smudged(target, bs, usable) else target
    {
      if stale {
        StaleShows();
      } else {
        MirrorsFlushed();
      }
    }

    // The first i entries have been written back to `image`.
    ghost predicate PutBackSoFar(i: nat, image: seq<Byte>)
      requires i <= |log|
      reads this, cache
    {
      && Blocks(bs, usable, |image|)
      && Restoring(StaleAfter(log, i, usable), Outcome(log, i, bs, usable, image))
    }

    method PutBackNext(i: nat, ghost image: seq<Byte>) returns (wrote: bool)
      requires i < |log| && PutBackSoFar(i, image)
      modifies `disk, `dirty, `cachedBlock, cache
      ensures wrote <==> Fits(log[i], usable)
      ensures PutBackSoFar(i + 1, image)
    {
      RestoringBase(StaleAfter(log, i, usable), Outcome(log, i, bs, usable, image), log[i].loc);
      wrote := PutBack(log[i]);
      if log[i].data == [] {
        NothingWritten(log, i, bs, usable, image);
      }
    }

    /** Writing back the log as it stands, in order, after dropping whatever is cached. It reports success exactly
        when every entry lies on the device, and whatever the log, the disk then is its outcome. */
    method Uninstall() returns (ok: bool)
      requires Placed()
      modifies `disk, `dirty, `cachedBlock, cache
      ensures Placed() && !dirty
      ensures ok <==> AllFit(log, usable)
      ensures Blocks(bs, usable, size) && disk == Outcome(log, |log|, bs, usable, old(disk))
      ensures ok ==> AllFit(log, size) && disk == Replay(log, old(disk))
    {
      UsableIsWhole(bs, size);
      dirty := false;
      cachedBlock := -1;
      ok := PutBackAll(disk);
      Settle(StaleAfter(log, |log|, usable), Outcome(log, |log|, bs, usable, old(disk)));
      if ok {
        OutcomeIsReplay(log, bs, usable, old(disk));
      }
    }

    method PutBackAll(ghost image: seq<Byte>) returns (ok: bool)
      requires PutBackSoFar(0, image)
      modifies `disk, `dirty, `cachedBlock, cache
      ensures ok <==> AllFit(log, usable)
      ensures PutBackSoFar(|log|, image)
    {
      ok := true;
      var i := 0;
      while i < |log|
        invariant 0 <= i <= |log| && PutBackSoFar(i, image)
        invariant ok <==> forall j :: 0 <= j < i ==> Fits(log[j], usable)
      {
        var wrote := PutBackNext(i, image);
        if !wrote {
          ok := false;
        }
        i := i + 1;
      }
    }

    // The flush at the end.
    method Settle(ghost stale: bool, ghost target: seq<Byte>)
      requires Restoring(stale, target)
      modifies `disk, `dirty
      ensures Placed() && !dirty && disk == target
    {
      if !stale {
        MirrorsFlushed();
      }
      WriteOut();
    }

    method ReverseLog()
      modifies `log
      ensures log == Reverse(old(log))
    {
      var rev := log;
      var i, j := 0, |log| - 1;
      while i < |log|
        invariant 0 <= i <= |log| && j == |log| - 1 - i && |rev| == |log| && log == old(log)
        invariant forall k :: j < k < |log| ==> rev[k] == log[|log| - 1 - k]
      {
        rev := rev[j := log[i]];
        i, j := i + 1, j - 1;
      }
      log := rev;
    }

    /** The failure path of an install: whatever writes were made, wherever their bytes are
        and however the last operation failed, every byte of the device is restored. */
    method UndoInstall() returns (ok: bool)
      requires Undoable()
      modifies this, cache
      ensures ok && disk == old(orig)
    {
      UndoRestores(log, orig, disk);
      ReverseFits(log, usable);
      ReverseLog();
      ok := Uninstall();
    }
  }
}
