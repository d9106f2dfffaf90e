/** `parse_index`: git's binary index (`.git/index`), versions 2 and 3, read through a cursor
    over the memory-mapped file. All numbers are big-endian. The file is a 12-byte header
    ("DIRC", version, entry count) followed by the entries; each entry is ten 32-bit stat
    words, a 20-byte object hash, a 16-bit flags word, a 16-bit extended-flags word (version 3,
    extended entries only), the name, and 1 to 8 NUL bytes of padding. */
module IndexFormat {
  import opened Wrappers
  import opened Bytes

  /** "DIRC" */
  const SIGNATURE: Bytes := [0x44, 0x49, 0x52, 0x43]
  /** Bytes of an entry before its optional extended-flags word and its name. */
  const FIXED_SIZE: nat := 62
  /** Name length written in the flags when the real name is longer. */
  const LONG_NAME: nat := 0xFFF

  /** Why reading the index stopped. `Truncated` is the `struct.error` of a short read,
      `NameScanDiverges` the long-name branch whose loop never exits, `BadPadding` the
      assertion on the padding. */
  datatype IndexError =
    | Unreadable
    | EmptyFile
    | SignatureNotAscii
    | BadSignature
    | BadVersion(version: nat)
    | Truncated
    | NameScanDiverges
    | BadPadding

  datatype Header = Header(version: nat, count: nat)

  datatype Stat = Stat(ctimeSeconds: nat, ctimeNanoseconds: nat, mtimeSeconds: nat,
                       mtimeNanoseconds: nat, dev: nat, ino: nat, mode: nat, uid: nat,
                       gid: nat, size: nat)

  datatype ExtraFlags = ExtraFlags(word: nat, reserved: bool, skipWorktree: bool, intentToAdd: bool)

  /** One decoded entry; `number` counts entries from 1. */
  datatype Entry = Entry(number: nat, stat: Stat, sha1: string, flags: nat, assumeValid: bool,
                         extended: bool, stage: (bool, bool), extra: Option<ExtraFlags>,
                         name: string)

  /** What the generator produces: the header, then the entries it yielded, then the error
      that ended it early, if any. */
  datatype IndexStream = IndexStream(header: Header, entries: seq<Entry>, failure: Option<IndexError>)

  // ---------------------------------------------------------------------------
  // Field decoding

  /** `word & (0b10000000 << 8) != 0`, and likewise for the next three bits down. */
  predicate Bit15(word: nat) {
    word / 0x8000 % 2 == 1
  }

  predicate Bit14(word: nat) {
    word / 0x4000 % 2 == 1
  }

  predicate Bit13(word: nat) {
    word / 0x2000 % 2 == 1
  }

  predicate Bit12(word: nat) {
    word / 0x1000 % 2 == 1
  }

  /** `flags & 0xFFF` */
  function NameLength(flags: nat): nat {
    flags % 0x1000
  }

  /** The extended-flags word is read only for an extended entry of a version 3 index. */
  predicate HasExtra(version: nat, flags: nat) {
    Bit14(flags) && version == 3
  }

  function DecodeExtra(word: nat): ExtraFlags {
    ExtraFlags(word, Bit15(word), Bit14(word), Bit13(word))
  }

  /** The flags word with the given bits and name length. */
  function FlagsWord(assumeValid: bool, extended: bool, stageOne: bool, stageTwo: bool,
                     nameLength: nat): nat
  {
    (if assumeValid then 0x8000 else 0) + (if extended then 0x4000 else 0)
    + (if stageOne then 0x2000 else 0) + (if stageTwo then 0x1000 else 0) + nameLength
  }

  /** The flag bits and the name length read back as they were written. */
  lemma FlagsRoundTrip(assumeValid: bool, extended: bool, stageOne: bool, stageTwo: bool,
                       nameLength: nat)
    requires nameLength < 0x1000
    ensures var w := FlagsWord(assumeValid, extended, stageOne, stageTwo, nameLength);
      && w < 0x1_0000
      && Bit15(w) == assumeValid && Bit14(w) == extended
      && Bit13(w) == stageOne && Bit12(w) == stageTwo
      && NameLength(w) == nameLength
  {
    var high := FlagsWord(assumeValid, extended, stageOne, stageTwo, 0);
    assert high % 0x1000 == 0 && high < 0x1_0000;
    var w := high + nameLength;
    assert w / 0x8000 == high / 0x8000;
    assert w / 0x4000 == high / 0x4000;
    assert w / 0x2000 == high / 0x2000;
    assert w / 0x1000 == high / 0x1000;
  }

  /** Conversely, every 16-bit flags word is the word of its own bits and name length. */
  lemma FlagsPartition(flags: nat)
    requires flags < 0x1_0000
    ensures flags == FlagsWord(Bit15(flags), Bit14(flags),
                               Bit13(flags), Bit12(flags), NameLength(flags))
  {
    var q := flags / 0x1000;
    assert flags == q * 0x1000 + flags % 0x1000;
    assert flags / 0x8000 == q / 8;
    assert flags / 0x4000 == q / 4;
    assert flags / 0x2000 == q / 2;
    assert q == q / 8 % 2 * 8 + q / 4 % 2 * 4 + q / 2 % 2 * 2 + q % 2;
  }

  /** `(8 - (entrylen % 8)) or 8`: the NUL bytes that follow an entry of `entryLen` bytes. */
  function PadLength(entryLen: nat): (n: int)
    ensures 1 <= n <= 8
    ensures (entryLen + n) % 8 == 0
  {
    var p := 8 - entryLen % 8;
    if p == 0 then 8 else p
  }

  /** `set(nuls) == {0}`: at least one byte, and all of them NUL. */
  predicate NulPadding(pad: Bytes) {
    pad != [] && forall k :: 0 <= k < |pad| ==> pad[k] == NUL
  }

  function Min(a: nat, b: nat): nat {
    if a <= b then a else b
  }

  /** The ten stat words at `pos`. */
  function StatAt(data: Bytes, pos: nat): Stat
    requires pos + 40 <= |data|
  {
    Stat(U32At(data, pos), U32At(data, pos + 4), U32At(data, pos + 8), U32At(data, pos + 12),
         U32At(data, pos + 16), U32At(data, pos + 20), U32At(data, pos + 24), U32At(data, pos + 28),
         U32At(data, pos + 32), U32At(data, pos + 36))
  }

  /** The entry's fields from what was read: the hash as hex, the flag bits split out, the
      name decoded as UTF-8 with replacement. */
  function MakeEntry(number: nat, stat: Stat, hash: Bytes, flags: nat, extra: Option<ExtraFlags>,
                     name: Bytes): (e: Entry)
    ensures e.number == number && e.stat == stat && e.flags == flags && e.extra == extra
    ensures |e.sha1| == 2 * |hash| && IsHex(e.sha1) && Unhex(e.sha1) == hash
  {
    UnhexHex(hash);
    Entry(number, stat, Hex(hash), flags, Bit15(flags), Bit14(flags),
          (Bit13(flags), Bit12(flags)), extra, Utf8Decode(name))
  }

  // ---------------------------------------------------------------------------
  // The layout, as functions of the file's bytes

  /** The header fields, or the error `send(None)` raises. A short file yields a short
      signature, which is not "DIRC". */
  function DecodeHeader(data: Bytes): (r: Result<Header, IndexError>)
    ensures r.Ok? <==> (|data| >= 12 && data[..4] == SIGNATURE && U32At(data, 4) in {2, 3})
    ensures r.Ok? ==> r.value == Header(U32At(data, 4), U32At(data, 8))
  {
    var sig := data[..Min(4, |data|)];
    if !IsAscii(sig) then Err(SignatureNotAscii)
    else if sig != SIGNATURE then Err(BadSignature)
    else if |data| < 8 then Err(Truncated)
    else if U32At(data, 4) !in {2, 3} then Err(BadVersion(U32At(data, 4)))
    else if |data| < 12 then Err(Truncated)
    else Ok(Header(U32At(data, 4), U32At(data, 8)))
  }

  /** The name of `nameLen` bytes at `nameAt` and the padding after it, for an entry of
      `entryLen` bytes so far: the name (short at the end of the file) and the position after
      the padding. */
  function NameAndPadding(data: Bytes, nameAt: nat, nameLen: nat, entryLen: nat): (r: Result<(Bytes, nat), IndexError>)
    requires nameAt <= |data|
    ensures r.Ok? ==> nameAt < r.value.1 <= |data| && |r.value.0| <= nameLen
    ensures r.Err? ==> r.error == BadPadding
    ensures var nameEnd := Min(nameAt + nameLen, |data|);
      var padEnd := Min(nameEnd + PadLength(entryLen), |data|);
      && (r.Ok? <==> nameEnd < padEnd && forall k :: nameEnd <= k < padEnd ==> data[k] == NUL)
      && (r.Ok? ==> r.value == (data[nameAt..nameEnd], padEnd))
  {
    var nameEnd := Min(nameAt + nameLen, |data|);
    var padEnd := Min(nameEnd + PadLength(entryLen), |data|);
    if !NulPadding(data[nameEnd..padEnd]) then Err(BadPadding)
    else Ok((data[nameAt..nameEnd], padEnd))
  }

  /** The layout of the entry at `pos` up to its padding: the length of its head (62 bytes, or
      64 with the extended flags) and where its name ends. */
  function PaddingStart(data: Bytes, pos: nat, version: nat): (r: (nat, nat))
    requires pos + FIXED_SIZE <= |data|
    ensures r.0 == FIXED_SIZE || r.0 == FIXED_SIZE + 2
    ensures r.1 == pos + r.0 + NameLength(U16At(data, pos + 60))
  {
    var flags := U16At(data, pos + 60);
    var headLen := if HasExtra(version, flags) then FIXED_SIZE + 2 else FIXED_SIZE;
    (headLen, pos + headLen + NameLength(flags))
  }

  /** A padding byte that is not NUL makes the read of the name and padding raise. */
  lemma NulPaddingRequired(data: Bytes, nameAt: nat, nameLen: nat, entryLen: nat, k: nat)
    requires nameAt + nameLen <= k < |data| && k < nameAt + nameLen + PadLength(entryLen)
    requires data[k] != NUL
    ensures NameAndPadding(data, nameAt, nameLen, entryLen) == Err(BadPadding)
  {
    var nameEnd := Min(nameAt + nameLen, |data|);
    var padEnd := Min(nameEnd + PadLength(entryLen), |data|);
    assert nameEnd <= k < padEnd;
  }

  /** A byte of an entry's padding that is not NUL makes the entry raise `BadPadding`, whatever
      the other padding bytes hold. */
  lemma NonNulPaddingFails(data: Bytes, pos: nat, version: nat, number: nat, k: nat)
    requires pos + FIXED_SIZE <= |data|
    requires NameLength(U16At(data, pos + 60)) != LONG_NAME
    requires var p := PaddingStart(data, pos, version);
      p.1 <= k < p.1 + PadLength(p.0 + NameLength(U16At(data, pos + 60))) && k < |data|
    requires data[k] != NUL
    ensures DecodeEntry(data, pos, version, number) == Err(BadPadding)
  {
    var flags := U16At(data, pos + 60);
    var p := PaddingStart(data, pos, version);
    NulPaddingRequired(data, pos + p.0, NameLength(flags), p.0 + NameLength(flags), k);
    assert EntryTail(data, pos, version, flags) == Err(BadPadding);
  }

  /** Everything after the flags word of the entry at `pos`: the extended flags, when read,
      the name bytes and the position after the padding. */
  function EntryTail(data: Bytes, pos: nat, version: nat, flags: nat): (r: Result<(Option<ExtraFlags>, Bytes, nat), IndexError>)
    requires pos + FIXED_SIZE <= |data|
    ensures r.Ok? ==> pos + FIXED_SIZE < r.value.2 <= |data|
    ensures r.Ok? ==> (r.value.0.Some? <==> HasExtra(version, flags))
  {
    var hasExtra := HasExtra(version, flags);
    if hasExtra && pos + FIXED_SIZE + 2 > |data| then Err(Truncated)
    else if NameLength(flags) == LONG_NAME then Err(NameScanDiverges)
    else
      var extra := if hasExtra then Some(DecodeExtra(U16At(data, pos + FIXED_SIZE))) else None;
      var entryLen := if hasExtra then FIXED_SIZE + 2 else FIXED_SIZE;
      var rest := NameAndPadding(data, pos + entryLen, NameLength(flags), entryLen + NameLength(flags));
      if rest.Err? then Err(rest.error) else Ok((extra, rest.value.0, rest.value.1))
  }

  /** The entry numbered `number` starting at `pos`, and the position after its padding. */
  function DecodeEntry(data: Bytes, pos: nat, version: nat, number: nat): (r: Result<(Entry, nat), IndexError>)
    ensures pos + FIXED_SIZE > |data| ==> r == Err(Truncated)
    ensures r.Ok? ==> pos + FIXED_SIZE < r.value.1 <= |data|
    ensures r.Ok? ==> r.value.0.number == number && NameLength(r.value.0.flags) < LONG_NAME
    ensures r.Ok? ==> (r.value.0.extra.Some? <==> HasExtra(version, r.value.0.flags))
  {
    if pos + FIXED_SIZE > |data| then Err(Truncated)
    else
      var flags := U16At(data, pos + 60);
      var tail := EntryTail(data, pos, version, flags);
      if tail.Err? then Err(tail.error)
      else
        Ok((MakeEntry(number, StatAt(data, pos), data[pos + 40..pos + 60], flags, tail.value.0,
                      tail.value.1), tail.value.2))
  }

  /** Where the entry loop stands: the entries yielded so far, the read position, and the
      error that ended the generator, if any. */
  datatype Progress = Progress(entries: seq<Entry>, pos: nat, failure: Option<IndexError>)

  /** A reader of one entry: from a position and an entry number to the entry and the
      position after it, or the error that ends the generator. */
  type EntryReader = (nat, nat) -> Result<(Entry, nat), IndexError>

  /** The entries of the index `data` of the given version, read as `DecodeEntry` reads them. */
  function EntryAt(data: Bytes, version: nat): EntryReader {
    (pos: nat, number: nat) => DecodeEntry(data, pos, version, number)
  }

  /** One iteration of `for n in range(entries)`: the entry numbered `number` is yielded or
      ends the generator; once the generator has ended, nothing changes. */
  function Step(read: EntryReader, p: Progress, number: nat): (q: Progress)
    ensures p.failure.Some? ==> q == p
    ensures q.failure.None? ==> p.failure.None? && |q.entries| == |p.entries| + 1
    ensures q.failure.Some? ==> |q.entries| == |p.entries|
  {
    if p.failure.Some? then p
    else
      var e := read(p.pos, number);
      if e.Ok? then Progress(p.entries + [e.value.0], e.value.1, None)
      else Progress(p.entries, p.pos, Some(e.error))
  }

  /** The first `i` iterations of the entry loop, starting after the 12-byte header. */
  function Walk(read: EntryReader, i: nat): (w: Progress)
    ensures |w.entries| <= i
    ensures w.failure.None? ==> |w.entries| == i
  {
    if i == 0 then Progress([], 12, None) else Step(read, Walk(read, i - 1), i)
  }

  /** One more iteration while the generator is still running. */
  lemma WalkStep(read: EntryReader, i: nat, r: Result<(Entry, nat), IndexError>)
    requires Walk(read, i).failure.None? && read(Walk(read, i).pos, i + 1) == r
    ensures var w := Walk(read, i);
      Walk(read, i + 1) == if r.Ok? then Progress(w.entries + [r.value.0], r.value.1, None)
                           else Progress(w.entries, w.pos, Some(r.error))
  {
  }

  /** Once an entry has failed, the remaining iterations change nothing. */
  lemma {:induction false} WalkHalts(read: EntryReader, i: nat, j: nat)
    requires i <= j
    requires Walk(read, i).failure.Some?
    ensures Walk(read, j) == Walk(read, i)
    decreases j
  {
    if i < j {
      WalkHalts(read, i, j - 1);
    }
  }

  /** `parse_index` on the file's contents (None when it cannot be opened): an error raised
      before the header is yielded, or the stream of what it yields. */
  function DecodeIndex(file: Option<Bytes>): (r: Result<IndexStream, IndexError>)
    ensures file.None? ==> r == Err(Unreadable)
    ensures file == Some([]) ==> r == Err(EmptyFile)
    ensures r.Ok? <==> file.Some? && file.value != [] && DecodeHeader(file.value).Ok?
    ensures r.Ok? ==> r.value.header == DecodeHeader(file.value).value
    ensures r.Ok? ==> |r.value.entries| <= r.value.header.count
    ensures r.Ok? && r.value.failure.None? ==> |r.value.entries| == r.value.header.count
  {
    if file.None? then Err(Unreadable)
    else if file.value == [] then Err(EmptyFile)
    else
      var h := DecodeHeader(file.value);
      if h.Err? then Err(h.error)
      else
        var w := Walk(EntryAt(file.value, h.value.version), h.value.count);
        Ok(IndexStream(h.value, w.entries, w.failure))
  }

  /** An entry whose padding is bad ends the generator: the entries before it are all that is
      yielded, and the stream reports `BadPadding`. */
  lemma BadPaddingEndsIndex(file: Option<Bytes>, i: nat)
    requires DecodeIndex(file).Ok?
    requires var h := DecodeIndex(file).value.header;
      var read := EntryAt(file.value, h.version);
      && i < h.count && Walk(read, i).failure.None?
      && read(Walk(read, i).pos, i + 1) == Err(BadPadding)
    ensures DecodeIndex(file).value.failure == Some(BadPadding)
    ensures |DecodeIndex(file).value.entries| == i
  {
    var h := DecodeIndex(file).value.header;
    var read := EntryAt(file.value, h.version);
    WalkStep(read, i, Err(BadPadding));
    WalkHalts(read, i + 1, h.count);
  }

  /** A reader that numbers each entry it reads as asked. */
  ghost predicate Numbers(read: EntryReader) {
    forall pos, number :: read(pos, number).Ok? ==> read(pos, number).value.0.number == number
  }

  /** The entries yielded by the first `i` iterations are numbered 1, 2, ... */
  lemma {:induction false} WalkNumbered(read: EntryReader, i: nat)
    requires Numbers(read)
    ensures forall k :: 0 <= k < |Walk(read, i).entries| ==> Walk(read, i).entries[k].number == k + 1
  {
    if i > 0 {
      WalkNumbered(read, i - 1);
      var p := Walk(read, i - 1);
      var es := Walk(read, i).entries;
      assert Walk(read, i) == Step(read, p, i);
      if p.failure.None? && read(p.pos, i).Ok? {
        var e := read(p.pos, i).value.0;
        assert es == p.entries + [e];
        forall k | 0 <= k < |es| ensures es[k].number == k + 1 {
          if k < |p.entries| {
            assert es[k] == p.entries[k];
          }
        }
      } else {
        assert es == p.entries;
      }
    }
  }

  /** The header is yielded first; the entries after it are numbered 1, 2, ... */
  lemma IndexEntriesNumbered(file: Option<Bytes>)
    requires DecodeIndex(file).Ok?
    ensures forall k :: 0 <= k < |DecodeIndex(file).value.entries| ==>
      DecodeIndex(file).value.entries[k].number == k + 1
  {
    var h := DecodeHeader(file.value).value;
    var read := EntryAt(file.value, h.version);
    forall pos: nat, number: nat | read(pos, number).Ok? ensures read(pos, number).value.0.number == number {
      assert read(pos, number) == DecodeEntry(file.value, pos, h.version, number);
    }
    WalkNumbered(read, h.count);
  }

  // ---------------------------------------------------------------------------
  // The cursor and the parser

  /** The memory-mapped file and its read position. */
  class Cursor {
    const data: Bytes
    var pos: nat

    ghost predicate Valid()
      reads this
    {
      pos <= |data|
    }

    constructor (data: Bytes)
      ensures this.data == data && pos == 0 && Valid()
    {
      this.data := data;
      pos := 0;
    }

    /** `f.read(n)`: up to `n` bytes, fewer at the end of the file. */
    method Read(n: nat) returns (chunk: Bytes)
      requires Valid()
      modifies this
      ensures Valid()
      ensures chunk == data[old(pos)..Min(old(pos) + n, |data|)]
      ensures pos == old(pos) + |chunk|
    {
      var end := Min(pos + n, |data|);
      chunk := data[pos..end];
      pos := end;
    }

    /** `read('I')`: `struct.unpack('! I', f.read(4))`, which raises on a short read. */
    method ReadU32() returns (r: Result<nat, IndexError>)
      requires Valid()
      modifies this
      ensures Valid()
      ensures old(pos) + 4 <= |data| ==> r == Ok(U32At(data, old(pos))) && pos == old(pos) + 4
      ensures old(pos) + 4 > |data| ==> r == Err(Truncated) && pos == |data|
    {
      var chunk := Read(4);
      if |chunk| < 4 {
        return Err(Truncated);
      }
      return Ok(U32At(chunk, 0));
    }

    /** `read('H')` */
    method ReadU16() returns (r: Result<nat, IndexError>)
      requires Valid()
      modifies this
      ensures Valid()
      ensures old(pos) + 2 <= |data| ==> r == Ok(U16At(data, old(pos))) && pos == old(pos) + 2
      ensures old(pos) + 2 > |data| ==> r == Err(Truncated) && pos == |data|
    {
      var chunk := Read(2);
      if |chunk| < 2 {
        return Err(Truncated);
      }
      return Ok(U16At(chunk, 0));
    }
  }

  /** The ten `read('I')` calls at the start of an entry. */
  method ReadStat(c: Cursor) returns (r: Result<Stat, IndexError>)
    requires c.Valid()
    modifies c
    ensures c.Valid()
    ensures old(c.pos) + 40 <= |c.data| ==> r == Ok(StatAt(c.data, old(c.pos))) && c.pos == old(c.pos) + 40
    ensures old(c.pos) + 40 > |c.data| ==> r == Err(Truncated)
  {
    var ctimeSeconds := c.ReadU32();
    if ctimeSeconds.Err? { return Err(Truncated); }
    var ctimeNanoseconds := c.ReadU32();
    if ctimeNanoseconds.Err? { return Err(Truncated); }
    var mtimeSeconds := c.ReadU32();
    if mtimeSeconds.Err? { return Err(Truncated); }
    var mtimeNanoseconds := c.ReadU32();
    if mtimeNanoseconds.Err? { return Err(Truncated); }
    var dev := c.ReadU32();
    if dev.Err? { return Err(Truncated); }
    var ino := c.ReadU32();
    if ino.Err? { return Err(Truncated); }
    var mode := c.ReadU32();
    if mode.Err? { return Err(Truncated); }
    var uid := c.ReadU32();
    if uid.Err? { return Err(Truncated); }
    var gid := c.ReadU32();
    if gid.Err? { return Err(Truncated); }
    var size := c.ReadU32();
    if size.Err? { return Err(Truncated); }
    return Ok(Stat(ctimeSeconds.value, ctimeNanoseconds.value, mtimeSeconds.value,
                   mtimeNanoseconds.value, dev.value, ino.value, mode.value, uid.value,
                   gid.value, size.value));
  }

  /** The name and the padding: `f.read(namelen)`, then `f.read(padlen)` checked for NULs. */
  method ReadNameAndPadding(c: Cursor, nameLen: nat, entryLen: nat) returns (r: Result<(Bytes, nat), IndexError>)
    requires c.Valid()
    modifies c
    ensures c.Valid()
    ensures r == NameAndPadding(c.data, old(c.pos), nameLen, entryLen)
    ensures r.Ok? ==> c.pos == r.value.1
  {
    var name := c.Read(nameLen);
    var nuls := c.Read(PadLength(entryLen));
    if !NulPadding(nuls) {
      return Err(BadPadding);
    }
    return Ok((name, c.pos));
  }

  /** The part of an entry after its flags word. */
  method ReadEntryTail(c: Cursor, version: nat, flags: nat, ghost start: nat)
    returns (r: Result<(Option<ExtraFlags>, Bytes, nat), IndexError>)
    requires c.Valid() && c.pos == start + FIXED_SIZE
    modifies c
    ensures c.Valid()
    ensures r == EntryTail(c.data, start, version, flags)
    ensures r.Ok? ==> c.pos == r.value.2
  {
    var entryLen := FIXED_SIZE;
    var extra: Option<ExtraFlags> := None;
    if Bit14(flags) && version == 3 {
      var word := c.ReadU16();
      if word.Err? {
        return Err(Truncated);
      }
      extra := Some(DecodeExtra(word.value));
      entryLen := entryLen + 2;
    }
    var nameLen := NameLength(flags);
    if nameLen == LONG_NAME {
      return Err(NameScanDiverges);
    }
    var rest := ReadNameAndPadding(c, nameLen, entryLen + nameLen);
    if rest.Err? {
      return Err(rest.error);
    }
    return Ok((extra, rest.value.0, rest.value.1));
  }

  /** One iteration of the entry loop: the entry numbered `number`, read field by field. */
  method ReadEntry(c: Cursor, version: nat, number: nat) returns (r: Result<Entry, IndexError>)
    requires c.Valid()
    modifies c
    ensures c.Valid()
    ensures var spec := DecodeEntry(c.data, old(c.pos), version, number);
      && (r.Ok? <==> spec.Ok?)
      && (r.Ok? ==> r.value == spec.value.0 && c.pos == spec.value.1)
      && (r.Err? ==> r.error == spec.error)
  {
    ghost var start := c.pos;
    var stat := ReadStat(c);
    if stat.Err? {
      return Err(Truncated);
    }
    var hash := c.Read(20);
    var flags := c.ReadU16();
    if flags.Err? {
      return Err(Truncated);
    }
    assert hash == c.data[start + 40..start + 60];
    var tail := ReadEntryTail(c, version, flags.value, start);
    if tail.Err? {
      return Err(tail.error);
    }
    return Ok(MakeEntry(number, stat.value, hash, flags.value, tail.value.0, tail.value.1));
  }

  /** `for n in range(entries)`: read entries until `count` have been yielded or one fails,
      which ends the generator. */
  method ReadEntries(c: Cursor, version: nat, count: nat) returns (entries: seq<Entry>, failure: Option<IndexError>)
    requires c.Valid() && c.pos == 12
    modifies c
    ensures entries == Walk(EntryAt(c.data, version), count).entries
    ensures failure == Walk(EntryAt(c.data, version), count).failure
  {
    ghost var read := EntryAt(c.data, version);
    entries := [];
    failure := None;
    var n := 0;
    while n < count && failure.None?
      invariant n <= count && c.Valid()
      invariant Walk(read, n).entries == entries
      invariant Walk(read, n).failure == failure
      invariant failure.None? ==> Walk(read, n).pos == c.pos
      decreases count - n
    {
      ghost var spec := read(c.pos, n + 1);
      assert spec == DecodeEntry(c.data, c.pos, version, n + 1);
      WalkStep(read, n, spec);
      var entry := ReadEntry(c, version, n + 1);
      if entry.Ok? {
        entries := entries + [entry.value];
      } else {
        failure := Some(entry.error);
      }
      n := n + 1;
    }
    if n < count {
      WalkHalts(read, n, count);
    }
  }

  /** `parse_index`, run to the end of the generator: the header checks, then the counted
      entry loop, which stops at the first entry that fails. */
  method ParseIndex(file: Option<Bytes>) returns (r: Result<IndexStream, IndexError>)
    ensures r == DecodeIndex(file)
  {
    if file.None? {
      return Err(Unreadable);
    }
    var data := file.value;
    if data == [] {
      return Err(EmptyFile);
    }
    var c := new Cursor(data);
    var sig := c.Read(4);
    if !IsAscii(sig) {
      return Err(SignatureNotAscii);
    }
    if sig != SIGNATURE {
      return Err(BadSignature);
    }
    var version := c.ReadU32();
    if version.Err? {
      return Err(Truncated);
    }
    if version.value !in {2, 3} {
      return Err(BadVersion(version.value));
    }
    var count := c.ReadU32();
    if count.Err? {
      return Err(Truncated);
    }
    var header := Header(version.value, count.value);
    assert DecodeHeader(data) == Ok(header);
    var entries, failure := ReadEntries(c, header.version, header.count);
    return Ok(IndexStream(header, entries, failure));
  }
}
