/**
 The file the uninstall log is kept in: a 64-bit entry count, then for each entry
 its position and length as 64-bit words and its bytes.
 */
module UndoFile {

  import opened BlockDevice
  import opened UndoLog
  import opened UninstallEffect
  import opened Words

  const WORD: nat := 8

  // ---- Little-endian words ----

  function Power256(k: nat): nat {
    if k == 0 then 1 else 256 * Power256(k - 1)
  }

  function Digit(n: nat, i: nat): Byte {
    if i == 0 then n % 256 else Digit(n / 256, i - 1)
  }

  function Bytes(n: nat, k: nat): (r: seq<Byte>)
    ensures |r| == k
  {
    seq(k, i requires 0 <= i => Digit(n, i))
  }

  function Value(s: seq<Byte>): nat {
    if s == [] then 0 else s[0] + 256 * Value(s[1..])
  }

  lemma {:induction false} ValueOfBytes(n: nat, k: nat)
    requires n < Power256(k)
    ensures Value(Bytes(n, k)) == n
    decreases k
  {
    if k == 0 {
    } else {
      ValueOfBytes(n / 256, k - 1);
      assert Bytes(n, k)[1..] == Bytes(n / 256, k - 1);
    }
  }

  lemma {:induction false} BytesOfValue(s: seq<Byte>)
    ensures Bytes(Value(s), |s|) == s && Value(s) < Power256(|s|)
  {
    if s == [] {
    } else {
      BytesOfValue(s[1..]);
      var n, t := Value(s), s[1..];
      assert n / 256 == Value(t) && n % 256 == s[0];
      forall i | 0 <= i < |s|
        ensures Digit(n, i) == s[i]
      {
        if i != 0 {
          assert Bytes(Value(t), |t|)[i - 1] == t[i - 1];
        }
      }
    }
  }

  lemma WordLimit()
    ensures Power256(8) == TWO64
  {
    assert Power256(4) == 0x1_0000_0000;
  }

  function Word(n: nat): (r: seq<Byte>)
    ensures |r| == WORD
  {
    Bytes(n, WORD)
  }

  // ---- The format ----

  function EntryBytes(e: Entry): seq<Byte> {
    Word(e.loc) + Word(|e.data|) + e.data
  }

  function EntriesBytes(log: seq<Entry>): seq<Byte> {
    if log == [] then [] else EntryBytes(log[0]) + EntriesBytes(log[1..])
  }

  function FileBytes(log: seq<Entry>): seq<Byte> {
    Word(|log|) + EntriesBytes(log)
  }

  // The fields are 64-bit words, and an entry of no bytes can be neither written nor read.
  predicate Storable(log: seq<Entry>) {
    forall i :: 0 <= i < |log| ==> log[i].data != []
  }

  predicate Wide(log: seq<Entry>) {
    |log| < TWO64 && forall i :: 0 <= i < |log| ==> log[i].loc < TWO64 && |log[i].data| < TWO64
  }

  lemma {:induction false} EntriesSnoc(log: seq<Entry>, e: Entry)
    ensures EntriesBytes(log + [e]) == EntriesBytes(log) + EntryBytes(e)
  {
    if log != [] {
      assert (log + [e])[1..] == log[1..] + [e];
      EntriesSnoc(log[1..], e);
    } else {
      assert (log + [e])[1..] == [];
    }
  }

  /** Storing succeeds exactly when no entry is empty, and then writes the format. */
  method Store(log: seq<Entry>) returns (ok: bool, file: seq<Byte>)
    requires Wide(log)
    ensures ok <==> Storable(log)
    ensures ok ==> file == FileBytes(log)
  {
    file := Word(|log|);
    ok := true;
    var i := 0;
    while ok && i < |log|
      invariant 0 <= i <= |log|
      invariant ok ==> Storable(log[..i]) && file == Word(|log|) + EntriesBytes(log[..i])
      invariant !ok ==> !Storable(log)
      decreases |log| - i, ok
    {
      file := file + Word(log[i].loc);
      file := file + Word(|log[i].data|);
      if |log[i].data| == 0 {
        ok := false;
      } else {
        file := file + log[i].data;
        EntriesSnoc(log[..i], log[i]);
        assert log[..i + 1] == log[..i] + [log[i]];
        i := i + 1;
      }
    }
    assert log[..|log|] == log;
  }

  /** A write of no bytes, which every device accepts, leaves a log that cannot be stored. */
  method EmptyWriteCannotBeStored(image: seq<Byte>, blockSize: nat, loc: nat) returns (wrote: bool, stored: bool)
    requires 0 < blockSize <= |image| && loc < TWO64
    ensures wrote && !stored
  {
    var device := new Device(image, blockSize);
    wrote := device.Write(loc, []);
    var file;
    stored, file := Store(device.log);
  }

  // ---- Loading ----

  datatype Loading = Loaded(log: seq<Entry>) | ReadError | NoRoom

  /** `file` begins with the stored form of `log`. */
  ghost predicate Holds(file: seq<Byte>, log: seq<Entry>) {
    |log| <= LOG_MAX && Wide(log) && Storable(log) && FileBytes(log) <= file
  }

  lemma WordValue(n: nat)
    requires n < TWO64
    ensures Value(Word(n)) == n
  {
    WordLimit();
    ValueOfBytes(n, WORD);
  }

  lemma ReadWord(n: nat, s: seq<Byte>)
    requires n < TWO64 && Word(n) <= s
    ensures Value(s[..WORD]) == n
  {
    WordValue(n);
    assert s[..WORD] == Word(n);
  }

  lemma Pieces(a: seq<Byte>, b: seq<Byte>, c: seq<Byte>, s: seq<Byte>)
    requires a + b + c <= s
    ensures |a| + |b| + |c| <= |s| && s[..|a|] == a && s[|a|..|a| + |b|] == b
    ensures s[|a| + |b|..|a| + |b| + |c|] == c
  {
    var t := a + b + c;
    assert s[..|t|] == t;
    assert t[..|a|] == a && t[|a|..|a| + |b|] == b && t[|a| + |b|..] == c;
    assert s[..|a|] == t[..|a|] && s[|a|..|a| + |b|] == t[|a|..|a| + |b|];
    assert s[|a| + |b|..|t|] == t[|a| + |b|..];
  }

  lemma ReadEntry(e: Entry, s: seq<Byte>)
    requires e.loc < TWO64 && |e.data| < TWO64 && EntryBytes(e) <= s
    ensures 2 * WORD + |e.data| <= |s|
    ensures Value(s[..WORD]) == e.loc && Value(s[WORD..2 * WORD]) == |e.data|
    ensures s[2 * WORD..2 * WORD + |e.data|] == e.data
  {
    Pieces(Word(e.loc), Word(|e.data|), e.data, s);
    WordValue(e.loc);
    WordValue(|e.data|);
  }

  lemma FormEntry(s: seq<Byte>)
    requires 2 * WORD <= |s| && 2 * WORD + Value(s[WORD..2 * WORD]) <= |s|
    ensures var n := Value(s[WORD..2 * WORD]);
            var e := Entry(Value(s[..WORD]), s[2 * WORD..2 * WORD + n]);
            e.loc < TWO64 && n < TWO64 && s == EntryBytes(e) + s[2 * WORD + n..]
  {
    WordLimit();
    BytesOfValue(s[..WORD]);
    BytesOfValue(s[WORD..2 * WORD]);
  }

  lemma Strip(a: seq<Byte>, b: seq<Byte>, c: seq<Byte>)
    requires a + b <= a + c
    ensures b <= c
  {
    assert b == (a + b)[|a|..] && c == (a + c)[|a|..];
    assert b == (a + c)[..|a + b|][|a|..];
  }

  lemma SameHead(e: Entry, x: seq<Byte>, o: Entry, y: seq<Byte>)
    requires e.loc < TWO64 && |e.data| < TWO64 && o.loc < TWO64 && |o.data| < TWO64
    requires EntryBytes(o) + y <= EntryBytes(e) + x
    ensures e == o && y <= x
  {
    var s := EntryBytes(e) + x;
    Prefix(EntryBytes(o), y, s);
    Prefix(EntryBytes(e), x, s);
    ReadEntry(e, s);
    ReadEntry(o, s);
    Strip(EntryBytes(e), y, x);
  }

  lemma Prefix(a: seq<Byte>, b: seq<Byte>, s: seq<Byte>)
    requires a + b <= s
    ensures a <= s
  {
    assert a == (a + b)[..|a|] == s[..|a|];
  }

  lemma Rejoin(read: seq<Entry>, other: seq<Entry>)
    requires 0 < |read| <= |other| && read[0] == other[0] && read[1..] == other[1..][..|read| - 1]
    ensures read == other[..|read|] && other[|read|..] == other[1..][|read| - 1..]
  {
    assert read == [read[0]] + read[1..];
    assert other[..|read|] == [other[0]] + other[1..][..|read| - 1];
  }

  // Entries that start the same bytes are the same entries.
  lemma {:induction false} SameEntries(read: seq<Entry>, rest: seq<Byte>, other: seq<Entry>)
    requires Wide(read) && Wide(other) && |read| <= |other|
    requires EntriesBytes(other) <= EntriesBytes(read) + rest
    ensures read == other[..|read|] && EntriesBytes(other[|read|..]) <= rest
    decreases |read|
  {
    if read == [] {
      assert other[|read|..] == other && EntriesBytes(read) + rest == rest;
    } else {
      var more := EntriesBytes(read[1..]) + rest;
      assert EntriesBytes(read) + rest == EntryBytes(read[0]) + more;
      SameHead(read[0], more, other[0], EntriesBytes(other[1..]));
      SameEntries(read[1..], rest, other[1..]);
      Rejoin(read, other);
    }
  }

  lemma {:induction false} SameHeader(n: nat, more: seq<Byte>, other: seq<Entry>)
    requires n < TWO64 && Holds(Word(n) + more, other)
    ensures |other| == n && EntriesBytes(other) <= more
  {
    var file := Word(n) + more;
    ReadWord(n, file);
    Prefix(Word(|other|), EntriesBytes(other), file);
    ReadWord(|other|, file);
    Strip(Word(n), EntriesBytes(other), more);
  }

  lemma HeadIsThere(other: seq<Entry>, rest: seq<Byte>)
    requires Wide(other) && Storable(other) && other != [] && EntriesBytes(other) <= rest
    ensures 2 * WORD <= |rest| && 0 < Value(rest[WORD..2 * WORD]) <= |rest| - 2 * WORD
  {
    Prefix(EntryBytes(other[0]), EntriesBytes(other[1..]), rest);
    ReadEntry(other[0], rest);
  }

  // If the file holds a log longer than what has been read, the next entry is there to read.
  lemma {:induction false} NextEntry(n: nat, read: seq<Entry>, rest: seq<Byte>, other: seq<Entry>)
    requires n < TWO64 && Wide(read) && |read| <= n
    requires Holds(Word(n) + (EntriesBytes(read) + rest), other)
    ensures |other| == n && read == other[..|read|]
    ensures |read| < n ==> 2 * WORD <= |rest| && 0 < Value(rest[WORD..2 * WORD]) <= |rest| - 2 * WORD
  {
    SameHeader(n, EntriesBytes(read) + rest, other);
    SameEntries(read, rest, other);
    if |read| < n {
      HeadIsThere(other[|read|..], rest);
    }
  }

  lemma Appended(n: nat, read: seq<Entry>, rest: seq<Byte>, e: Entry, rest': seq<Byte>)
    requires rest == EntryBytes(e) + rest'
    ensures Word(n) + (EntriesBytes(read + [e]) + rest') == Word(n) + (EntriesBytes(read) + rest)
  {
    EntriesSnoc(read, e);
    assert EntriesBytes(read) + EntryBytes(e) + rest' == EntriesBytes(read) + rest;
  }

  // fread of one entry.
  method LoadEntry(rest: seq<Byte>) returns (ok: bool, e: Entry, rest': seq<Byte>)
    ensures ok <==> 2 * WORD <= |rest| && 0 < Value(rest[WORD..2 * WORD]) <= |rest| - 2 * WORD
    ensures ok ==> e.loc < TWO64 && 0 < |e.data| < TWO64 && rest == EntryBytes(e) + rest'
  {
    ok, e, rest' := false, Entry(0, []), [];
    if WORD <= |rest| {
      var loc := Value(rest[..WORD]);
      if 2 * WORD <= |rest| {
        var count := Value(rest[WORD..2 * WORD]);
        if count != 0 && 2 * WORD + count <= |rest| {
          FormEntry(rest);
          ok, e, rest' := true, Entry(loc, rest[2 * WORD..2 * WORD + count]), rest[2 * WORD + count..];
        }
      }
    }
  }

  /** Loading finds a log exactly when the file holds one of at most 256 entries, and then that
      one: so a stored log comes back, and nothing else is ever loaded. */
  method Load(file: seq<Byte>) returns (r: Loading)
    ensures r.Loaded? ==> Holds(file, r.log)
    ensures forall log :: Holds(file, log) ==> r == Loaded(log)
  {
    if |file| < WORD {
      return ReadError;
    }
    var n := Value(file[..WORD]);
    WordLimit();
    BytesOfValue(file[..WORD]);
    var read, rest := [], file[WORD..];
    assert file == Word(n) + (EntriesBytes(read) + rest);
    forall log | Holds(file, log)
      ensures n <= LOG_MAX
    {
      SameHeader(n, EntriesBytes(read) + rest, log);
    }
    var ok := n <= LOG_MAX;
    r := if ok then ReadError else NoRoom;
    while ok && |read| < n
      invariant |read| <= n && Wide(read) && Storable(read)
      invariant file == Word(n) + (EntriesBytes(read) + rest)
      invariant ok ==> n <= LOG_MAX
      invariant !ok ==> !r.Loaded? && forall log :: !Holds(file, log)
      decreases ok, n - |read|
    {
      var e, rest';
      forall log | Holds(file, log)
        ensures 2 * WORD <= |rest| && 0 < Value(rest[WORD..2 * WORD]) <= |rest| - 2 * WORD
      {
        NextEntry(n, read, rest, log);
      }
      ok, e, rest' := LoadEntry(rest);
      if ok {
        Appended(n, read, rest, e, rest');
        read, rest := read + [e], rest';
      }
    }
    if ok {
      forall log | Holds(file, log)
        ensures log == read
      {
        NextEntry(n, read, rest, log);
      }
      r := Loaded(read);
    }
  }

  /** The uninstall mode: open the device, load the log and write it back. A file that holds no log changes nothing;
      one that does leaves the outcome of that log, and success means that every entry lies on the device. */
  method UninstallFrom(image: seq<Byte>, blockSize: nat, file: seq<Byte>) returns (ok: bool, device: Device)
    requires 0 < blockSize <= |image|
    ensures Blocks(blockSize, Usable(blockSize, |image|), |image|)
    ensures forall log :: Holds(file, log) ==>
      && (ok <==> AllFit(log, Usable(blockSize, |image|)))
      && device.disk == Outcome(log, |log|, blockSize, Usable(blockSize, |image|), image)
    ensures (forall log :: !Holds(file, log)) ==> !ok && device.disk == image
  {
    UsableIsWhole(blockSize, |image|);
    device := new Device(image, blockSize);
    var r := Load(file);
    ok := r.Loaded?;
    if ok {
      device.log := r.log;
      ok := device.Uninstall();
    }
  }

  /** The uninstall log of one session, stored reversed, restores the device in another: a device
      opened on what the first left on disk, with its cache lost, gets back every original byte. */
  method RestoreFromFile(first: Device) returns (stored: bool, second: Device)
    requires first.Undoable() && Wide(first.log) && first.bs <= |first.disk|
    modifies first`log
    ensures stored <==> Storable(old(first.log))
    ensures stored ==> second.disk == first.orig
  {
    StorableReversed(first.log);
    first.ReverseLog();
    var file;
    stored, file := Store(first.log);
    second := first;
    if stored {
      UndoneOutcome(old(first.log), first.orig, first.disk, first.bs);
      var ok;
      ok, second := UninstallFrom(first.disk, first.bs, file);
      assert Holds(file, Reverse(old(first.log)));
    }
  }

  lemma {:induction false} UndoneOutcome(log: seq<Entry>, orig: seq<Byte>, disk: seq<Byte>, bs: nat)
    requires 0 < bs && Undoes(log, orig, disk) && AllFit(log, Usable(bs, |disk|))
    ensures Blocks(bs, Usable(bs, |disk|), |disk|)
    ensures Outcome(Reverse(log), |log|, bs, Usable(bs, |disk|), disk) == orig
  {
    var usable := Usable(bs, |disk|);
    UsableIsWhole(bs, |disk|);
    UndoRestores(log, orig, disk);
    ReverseFits(log, usable);
    OutcomeIsReplay(Reverse(log), bs, usable, disk);
  }

  /** On a device that is not a whole number of blocks it can go wrong. A file with two entries, the first reaching
      past the last whole block and the second inside it, loads; the second entry then takes the device's tail into
      that block. */
  method UninstallCanSmudge(blockSize: nat, size: nat)
    returns (image: seq<Byte>, log: seq<Entry>, file: seq<Byte>, device: Device)
    requires 0 < blockSize <= size < TWO64 && Usable(blockSize, size) != size
    ensures |image| == size && Holds(file, log)
    ensures device.disk != ReplayBelow(log, |log|, Usable(blockSize, size), image)
  {
    var u := Usable(blockSize, size);
    UsableIsWhole(blockSize, size);
    image := seq(size, i requires 0 <= i => if i == u - blockSize then 1 else 0);
    log := [Entry(u - 1, [0, 0]), Entry(u - 1, [0])];
    file := FileBytes(log);
    var ok;
    ok, device := UninstallFrom(image, blockSize, file);
    TwoEntriesSpoil(log, blockSize, u, image);
  }

  // The first byte of the last whole block takes what was right behind the block.
  lemma TwoEntriesSpoil(log: seq<Entry>, bs: nat, u: nat, image: seq<Byte>)
    requires Blocks(bs, u, |image|) && 1 < bs <= u < |image|
    requires log == [Entry(u - 1, [0, 0]), Entry(u - 1, [0])]
    ensures Outcome(log, 2, bs, u, image)[u - bs] == image[u]
    ensures ReplayBelow(log, 2, u, image)[u - bs] == image[u - bs]
  {
    assert StaleAfter(log, 1, u) && Smudges(log, 1, bs, u) && Spoilt(log, 2, bs, u, u - bs);
    OutcomeAt(log, 2, bs, u, image, u - bs);
    ReplayAt(log, 2, u, image, u - bs);
    assert Said(log, 1, u, u - bs, image[u - bs]) == image[u - bs];
  }

  lemma StorableReversed(log: seq<Entry>)
    ensures Storable(Reverse(log)) <==> Storable(log)
  {
    var r := Reverse(log);
    if Storable(r) {
      forall i | 0 <= i < |log|
        ensures log[i].data != []
      {
        assert r[|log| - 1 - i] == log[i];
      }
    }
  }
}
