/** The index file as git writes it, and the proof that `parse_index` reads back every field
    that was written: the inverse of the layout in module IndexFormat. */
module IndexEncoding {
  import opened Wrappers
  import opened Bytes
  import opened IndexFormat

  /** What git stores for one entry, before the reader splits the flag bits out. `extraWord`
      is written only when the entry is extended and the index is version 3. */
  datatype IndexRecord = IndexRecord(stat: Stat, hash: Bytes, flags: nat, extraWord: nat, name: Bytes)

  /** The ten stat words in file order. */
  function StatWords(s: Stat): (ws: seq<nat>)
    ensures |ws| == 10
  {
    [s.ctimeSeconds, s.ctimeNanoseconds, s.mtimeSeconds, s.mtimeNanoseconds, s.dev, s.ino,
     s.mode, s.uid, s.gid, s.size]
  }

  predicate Words32(ws: seq<nat>) {
    forall j :: 0 <= j < |ws| ==> ws[j] < 0x1_0000_0000
  }

  /** A record git can write: 32-bit stat words, a 20-byte hash, 16-bit flags whose name
      length is the name's own, and a name short enough to need no long-name marker. */
  predicate ValidRecord(r: IndexRecord) {
    && Words32(StatWords(r.stat))
    && |r.hash| == 20
    && r.flags < 0x1_0000
    && r.extraWord < 0x1_0000
    && NameLength(r.flags) == |r.name|
    && |r.name| != LONG_NAME
  }

  /** The records git can write. */
  type Record = r: IndexRecord | ValidRecord(r)
    witness IndexRecord(Stat(0, 0, 0, 0, 0, 0, 0, 0, 0, 0), seq(20, k => NUL), 0, 0, [])

  /** Consecutive big-endian 32-bit words. */
  function Words(ws: seq<nat>): (bs: Bytes)
    requires Words32(ws)
    ensures |bs| == 4 * |ws|
  {
    if ws == [] then [] else U32Bytes(ws[0]) + Words(ws[1..])
  }

  function Zeros(n: nat): (bs: Bytes)
    ensures |bs| == n && forall k :: 0 <= k < n ==> bs[k] == NUL
  {
    seq(n, k => NUL)
  }

  function ExtraBytes(version: nat, r: IndexRecord): Bytes
    requires r.extraWord < 0x1_0000
  {
    if HasExtra(version, r.flags) then U16Bytes(r.extraWord) else []
  }

  /** Everything of an entry before its name: 62 bytes, or 64 with the extended flags. */
  function EntryHead(version: nat, r: Record): (bs: Bytes)
    ensures |bs| == if HasExtra(version, r.flags) then FIXED_SIZE + 2 else FIXED_SIZE
  {
    Words(StatWords(r.stat)) + r.hash + U16Bytes(r.flags) + ExtraBytes(version, r)
  }

  /** One entry: the head, the name and the NUL padding that ends it on a multiple of 8. */
  function EncodeRecord(version: nat, r: Record): (bs: Bytes)
    ensures |bs| % 8 == 0 && |bs| > FIXED_SIZE
  {
    var head := EntryHead(version, r);
    head + r.name + Zeros(PadLength(|head| + |r.name|))
  }

  /** The pieces `encode` makes of `rs`, one after another. */
  function Concat<R>(encode: R -> Bytes, rs: seq<R>): Bytes
    decreases |rs|
  {
    if rs == [] then [] else encode(rs[0]) + Concat(encode, rs[1..])
  }

  /** The entries `make` makes of `rs`, numbered from `first`. */
  function Numbered<R>(make: (nat, R) -> Entry, first: nat, rs: seq<R>): (es: seq<Entry>)
    ensures |es| == |rs|
    decreases |rs|
  {
    if rs == [] then [] else [make(first, rs[0])] + Numbered(make, first + 1, rs[1..])
  }

  function EncodeRecords(version: nat, rs: seq<Record>): Bytes {
    Concat((r: Record) => EncodeRecord(version, r), rs)
  }

  /** The whole file: "DIRC", the version, the number of entries and the entries. */
  function EncodeIndex(version: nat, rs: seq<Record>): Bytes
    requires version < 0x1_0000_0000 && |rs| < 0x1_0000_0000
  {
    SIGNATURE + U32Bytes(version) + U32Bytes(|rs|) + EncodeRecords(version, rs)
  }

  /** The entry the reader makes of a record written as entry number `number`. */
  function Expected(version: nat, number: nat, r: Record): Entry {
    var extra := if HasExtra(version, r.flags) then Some(DecodeExtra(r.extraWord)) else None;
    MakeEntry(number, r.stat, r.hash, r.flags, extra, r.name)
  }

  /** The entries the reader makes of `rs`, numbered from 1. */
  function ExpectedEntries(version: nat, rs: seq<Record>): seq<Entry> {
    Numbered((n: nat, r: Record) => Expected(version, n, r), 1, rs)
  }

  // ---------------------------------------------------------------------------
  // Reading back what was placed in the file

  /** `piece` sits in `data` at `pos`. */
  ghost predicate Placed(data: Bytes, pos: nat, piece: Bytes) {
    pos + |piece| <= |data| && forall k :: 0 <= k < |piece| ==> data[pos + k] == piece[k]
  }

  lemma PlacedSplit(data: Bytes, pos: nat, a: Bytes, b: Bytes)
    requires Placed(data, pos, a + b)
    ensures Placed(data, pos, a) && Placed(data, pos + |a|, b)
  {
    forall k | 0 <= k < |a| ensures data[pos + k] == a[k] {
      assert (a + b)[k] == a[k];
    }
    forall k | 0 <= k < |b| ensures data[pos + |a| + k] == b[k] {
      assert (a + b)[|a| + k] == b[k];
    }
  }

  lemma U16Placed(data: Bytes, pos: nat, n: nat)
    requires n < 0x1_0000 && Placed(data, pos, U16Bytes(n))
    ensures pos + 2 <= |data| && U16At(data, pos) == n
  {
    var bs := U16Bytes(n);
    assert data[pos] == bs[0] && data[pos + 1] == bs[1];
  }

  lemma U32Placed(data: Bytes, pos: nat, n: nat)
    requires n < 0x1_0000_0000 && Placed(data, pos, U32Bytes(n))
    ensures pos + 4 <= |data| && U32At(data, pos) == n
  {
    var bs := U32Bytes(n);
    assert data[pos] == bs[0] && data[pos + 1] == bs[1];
    assert data[pos + 2] == bs[2] && data[pos + 3] == bs[3];
  }

  lemma {:induction false} WordsPlaced(data: Bytes, pos: nat, ws: seq<nat>)
    requires Words32(ws) && Placed(data, pos, Words(ws))
    ensures forall j :: 0 <= j < |ws| ==> pos + 4 * j + 4 <= |data| && U32At(data, pos + 4 * j) == ws[j]
    decreases |ws|
  {
    if ws != [] {
      PlacedSplit(data, pos, U32Bytes(ws[0]), Words(ws[1..]));
      U32Placed(data, pos, ws[0]);
      WordsPlaced(data, pos + 4, ws[1..]);
      forall j | 0 <= j < |ws| ensures pos + 4 * j + 4 <= |data| && U32At(data, pos + 4 * j) == ws[j] {
        if j > 0 {
          assert ws[j] == ws[1..][j - 1];
          assert pos + 4 * j == pos + 4 + 4 * (j - 1);
        }
      }
    }
  }

  /** The stat words read back as written. */
  lemma StatPlaced(data: Bytes, pos: nat, s: Stat)
    requires Words32(StatWords(s)) && Placed(data, pos, Words(StatWords(s)))
    ensures pos + 40 <= |data| && StatAt(data, pos) == s
  {
    var ws := StatWords(s);
    WordsPlaced(data, pos, ws);
    assert U32At(data, pos) == ws[0] && U32At(data, pos + 4) == ws[1];
    assert U32At(data, pos + 8) == ws[2] && U32At(data, pos + 12) == ws[3];
    assert U32At(data, pos + 16) == ws[4] && U32At(data, pos + 20) == ws[5];
    assert U32At(data, pos + 24) == ws[6] && U32At(data, pos + 28) == ws[7];
    assert U32At(data, pos + 32) == ws[8] && U32At(data, pos + 36) == ws[9];
  }

  /** The head of an entry read back: the stat words, the hash and the flags word. */
  lemma HeadPlaced(data: Bytes, pos: nat, version: nat, r: Record)
    requires Placed(data, pos, EntryHead(version, r))
    ensures pos + FIXED_SIZE <= |data|
    ensures StatAt(data, pos) == r.stat && data[pos + 40..pos + 60] == r.hash
    ensures U16At(data, pos + 60) == r.flags
    ensures HasExtra(version, r.flags) ==>
      pos + FIXED_SIZE + 2 <= |data| && U16At(data, pos + FIXED_SIZE) == r.extraWord
  {
    var words := Words(StatWords(r.stat));
    PlacedSplit(data, pos, words + r.hash + U16Bytes(r.flags), ExtraBytes(version, r));
    PlacedSplit(data, pos, words + r.hash, U16Bytes(r.flags));
    PlacedSplit(data, pos, words, r.hash);
    StatPlaced(data, pos, r.stat);
    SliceHolds(data, pos + 40, r.hash);
    U16Placed(data, pos + 60, r.flags);
    if HasExtra(version, r.flags) {
      U16Placed(data, pos + FIXED_SIZE, r.extraWord);
    }
  }

  /** A name followed by its padding read back. */
  lemma NamePlaced(data: Bytes, nameAt: nat, name: Bytes, entryLen: nat)
    requires Placed(data, nameAt, name + Zeros(PadLength(entryLen)))
    ensures NameAndPadding(data, nameAt, |name|, entryLen) == Ok((name, nameAt + |name| + PadLength(entryLen)))
  {
    var pad := Zeros(PadLength(entryLen));
    var nameEnd := nameAt + |name|;
    PlacedSplit(data, nameAt, name, pad);
    SliceHolds(data, nameAt, name);
    SliceHolds(data, nameEnd, pad);
    assert data[nameEnd..nameEnd + |pad|] == pad;
  }

  /** The extended flags, when written, read back. */
  lemma ExtraPlaced(data: Bytes, pos: nat, version: nat, r: Record)
    requires Placed(data, pos, EntryHead(version, r))
    ensures pos + |EntryHead(version, r)| <= |data|
    ensures HasExtra(version, r.flags) ==> U16At(data, pos + FIXED_SIZE) == r.extraWord
  {
    var words := Words(StatWords(r.stat));
    PlacedSplit(data, pos, words + r.hash + U16Bytes(r.flags), ExtraBytes(version, r));
    if HasExtra(version, r.flags) {
      U16Placed(data, pos + FIXED_SIZE, r.extraWord);
    }
  }

  /** The extended flags, the name and the padding of an entry read back. */
  lemma TailPlaced(data: Bytes, pos: nat, version: nat, r: Record, headLen: nat)
    requires headLen == |EntryHead(version, r)|
    requires Placed(data, pos, EntryHead(version, r))
    requires Placed(data, pos + headLen, r.name + Zeros(PadLength(headLen + |r.name|)))
    ensures pos + FIXED_SIZE <= |data|
    ensures EntryTail(data, pos, version, r.flags)
         == Ok((if HasExtra(version, r.flags) then Some(DecodeExtra(r.extraWord)) else None,
                r.name, pos + headLen + |r.name| + PadLength(headLen + |r.name|)))
  {
    ExtraPlaced(data, pos, version, r);
    NamePlaced(data, pos + headLen, r.name, headLen + |r.name|);
  }

  /** An entry whose head and tail read as given. */
  lemma DecodedFrom(data: Bytes, pos: nat, version: nat, number: nat, stat: Stat, hash: Bytes,
                    flags: nat, extra: Option<ExtraFlags>, name: Bytes, next: nat)
    requires pos + FIXED_SIZE <= |data|
    requires StatAt(data, pos) == stat && data[pos + 40..pos + 60] == hash
    requires U16At(data, pos + 60) == flags
    requires EntryTail(data, pos, version, flags) == Ok((extra, name, next))
    ensures DecodeEntry(data, pos, version, number)
         == Ok((MakeEntry(number, stat, hash, flags, extra, name), next))
  {
  }

  /** An entry read back: the reader makes the expected entry of it and stops just after its
      padding. */
  lemma RecordPlaced(data: Bytes, pos: nat, version: nat, number: nat, r: Record)
    requires Placed(data, pos, EncodeRecord(version, r))
    ensures DecodeEntry(data, pos, version, number)
         == Ok((Expected(version, number, r), pos + |EncodeRecord(version, r)|))
  {
    var head := EntryHead(version, r);
    var pad := Zeros(PadLength(|head| + |r.name|));
    assert EncodeRecord(version, r) == head + (r.name + pad);
    PlacedSplit(data, pos, head, r.name + pad);
    assert |EncodeRecord(version, r)| == |head| + |r.name| + |pad|;
    PiecesPlaced(data, pos, version, number, r, |head|, pos + |EncodeRecord(version, r)|);
  }

  /** The same, from the head and the padded name placed one after the other. */
  lemma PiecesPlaced(data: Bytes, pos: nat, version: nat, number: nat, r: Record, headLen: nat,
                     next: nat)
    requires headLen == |EntryHead(version, r)|
    requires next == pos + headLen + |r.name| + PadLength(headLen + |r.name|)
    requires Placed(data, pos, EntryHead(version, r))
    requires Placed(data, pos + headLen, r.name + Zeros(PadLength(headLen + |r.name|)))
    ensures DecodeEntry(data, pos, version, number)
         == Ok((Expected(version, number, r), next))
  {
    HeadPlaced(data, pos, version, r);
    TailPlaced(data, pos, version, r, headLen);
    var extra := if HasExtra(version, r.flags) then Some(DecodeExtra(r.extraWord)) else None;
    DecodedFrom(data, pos, version, number, r.stat, r.hash, r.flags, extra, r.name, next);
  }

  /** The same, as the entry loop's reader sees it. */
  lemma RecordRead(data: Bytes, pos: nat, version: nat, number: nat, r: Record)
    requires Placed(data, pos, EncodeRecord(version, r))
    ensures EntryAt(data, version)(pos, number)
         == Ok((Expected(version, number, r), pos + |EncodeRecord(version, r)|))
  {
    RecordPlaced(data, pos, version, number, r);
  }

  /** `read`, started at `pos` with entry number `number`, reads exactly the entries `es` and
      stops at `end`. */
  ghost predicate ReadsAll(read: EntryReader, pos: nat, number: nat, es: seq<Entry>, end: nat)
    decreases |es|
  {
    if es == [] then pos == end
    else
      var e := read(pos, number);
      e.Ok? && e.value.0 == es[0] && ReadsAll(read, e.value.1, number + 1, es[1..], end)
  }

  lemma ReadsAllCons(read: EntryReader, pos: nat, number: nat, e: Entry, next: nat,
                     es: seq<Entry>, end: nat)
    requires read(pos, number) == Ok((e, next))
    requires ReadsAll(read, next, number + 1, es, end)
    ensures ReadsAll(read, pos, number, [e] + es, end)
  {
    assert ([e] + es)[1..] == es;
  }

  /** The entry loop, having yielded `done`, goes on to yield whatever its reader reads next. */
  lemma {:induction false} WalkReadsAll(read: EntryReader, i: nat, done: seq<Entry>, pos: nat,
                                        es: seq<Entry>, end: nat)
    requires Walk(read, i) == Progress(done, pos, None)
    requires ReadsAll(read, pos, i + 1, es, end)
    ensures Walk(read, i + |es|) == Progress(done + es, end, None)
    decreases |es|
  {
    if es == [] {
      assert done + es == done;
    } else {
      var e := read(pos, i + 1);
      assert Walk(read, i + 1) == Step(read, Walk(read, i), i + 1);
      WalkReadsAll(read, i + 1, done + [es[0]], e.value.1, es[1..], end);
      assert done + [es[0]] + es[1..] == done + es;
    }
  }

  /** `read` reads whatever `encode` made of a record, placed anywhere in `data`, as the
      entry `make` makes of it. */
  ghost predicate ReadsEach<R(!new)>(read: EntryReader, data: Bytes, encode: R -> Bytes, make: (nat, R) -> Entry) {
    forall pos: nat, number: nat, r: R ::
      Placed(data, pos, encode(r)) ==> read(pos, number) == Ok((make(number, r), pos + |encode(r)|))
  }

  /** Such a reader reads records placed one after another as their entries, in order. */
  lemma {:induction false} ConcatReads<R(!new)>(read: EntryReader, data: Bytes, encode: R -> Bytes,
                                          make: (nat, R) -> Entry, pos: nat, number: nat, rs: seq<R>)
    requires ReadsEach(read, data, encode, make)
    requires Placed(data, pos, Concat(encode, rs))
    ensures ReadsAll(read, pos, number, Numbered(make, number, rs), pos + |Concat(encode, rs)|)
    decreases |rs|
  {
    if rs != [] {
      var first := encode(rs[0]);
      var rest := Concat(encode, rs[1..]);
      var e := make(number, rs[0]);
      var es := Numbered(make, number + 1, rs[1..]);
      assert Concat(encode, rs) == first + rest;
      assert Numbered(make, number, rs) == [e] + es;
      PlacedSplit(data, pos, first, rest);
      assert read(pos, number) == Ok((e, pos + |first|));
      ConcatReads(read, data, encode, make, pos + |first|, number + 1, rs[1..]);
      ReadsAllCons(read, pos, number, e, pos + |first|, es, pos + |first| + |rest|);
    }
  }

  /** The reader of the index's own entries reads every record as its expected entry. */
  lemma EntryAtReadsRecords(data: Bytes, version: nat)
    ensures ReadsEach(EntryAt(data, version), data, (r: Record) => EncodeRecord(version, r),
                      (n: nat, r: Record) => Expected(version, n, r))
  {
    forall pos: nat, number: nat, r: Record | Placed(data, pos, EncodeRecord(version, r))
      ensures EntryAt(data, version)(pos, number)
           == Ok((Expected(version, number, r), pos + |EncodeRecord(version, r)|))
    {
      RecordRead(data, pos, version, number, r);
    }
  }

  /** The header of a written index reads back, and whatever follows it sits at byte 12. */
  lemma HeaderRoundTrip(version: nat, count: nat, rest: Bytes)
    requires version in {2, 3} && count < 0x1_0000_0000
    ensures DecodeHeader(SIGNATURE + U32Bytes(version) + U32Bytes(count) + rest)
         == Ok(Header(version, count))
    ensures Placed(SIGNATURE + U32Bytes(version) + U32Bytes(count) + rest, 12, rest)
  {
    var data := SIGNATURE + U32Bytes(version) + U32Bytes(count) + rest;
    assert Placed(data, 0, data);
    PlacedSplit(data, 0, SIGNATURE + U32Bytes(version) + U32Bytes(count), rest);
    PlacedSplit(data, 0, SIGNATURE + U32Bytes(version), U32Bytes(count));
    PlacedSplit(data, 0, SIGNATURE, U32Bytes(version));
    U32Placed(data, 4, version);
    U32Placed(data, 8, count);
    SliceHolds(data, 0, SIGNATURE);
  }

  /** The entry loop, over records placed one after another from byte 12, yields their
      entries numbered from 1 and ends just after the last one. */
  lemma ConcatWalks<R(!new)>(read: EntryReader, data: Bytes, encode: R -> Bytes,
                             make: (nat, R) -> Entry, rs: seq<R>)
    requires ReadsEach(read, data, encode, make)
    requires Placed(data, 12, Concat(encode, rs))
    ensures Walk(read, |rs|) == Progress(Numbered(make, 1, rs), 12 + |Concat(encode, rs)|, None)
  {
    ConcatReads(read, data, encode, make, 12, 1, rs);
    WalkReadsAll(read, 0, [], 12, Numbered(make, 1, rs), 12 + |Concat(encode, rs)|);
  }

  /** The entry loop over written records yields their expected entries and ends just after
      the last one. */
  lemma EntriesRoundTrip(data: Bytes, version: nat, rs: seq<Record>)
    requires Placed(data, 12, EncodeRecords(version, rs))
    ensures Walk(EntryAt(data, version), |rs|)
         == Progress(ExpectedEntries(version, rs), 12 + |EncodeRecords(version, rs)|, None)
  {
    EntryAtReadsRecords(data, version);
    ConcatWalks(EntryAt(data, version), data, (r: Record) => EncodeRecord(version, r),
                (n: nat, r: Record) => Expected(version, n, r), rs);
  }

  /** `parse_index` reads a written index back: the header it was written with, then every
      entry with its stat words, hash, flags, extended flags and name, numbered from 1, and
      no error. */
  lemma IndexRoundTrip(version: nat, rs: seq<Record>)
    requires version in {2, 3} && |rs| < 0x1_0000_0000
    ensures DecodeIndex(Some(EncodeIndex(version, rs)))
         == Ok(IndexStream(Header(version, |rs|), ExpectedEntries(version, rs), None))
  {
    var data := EncodeIndex(version, rs);
    HeaderRoundTrip(version, |rs|, EncodeRecords(version, rs));
    EntriesRoundTrip(data, version, rs);
  }
}
