/** The loose-object decoders of lib/parser.py: hash discovery in free text (`find_sha1`) and
    the decoders of inflated `tree`, `commit` and `blob` objects, whose bytes are
    `<type> <size>\0<body>`. Names, modes, header values and messages are kept as bytes. */
module Parser {
  import opened Wrappers
  import opened Bytes
  import T = Text

  // ---------------------------------------------------------------------------
  // find_sha1

  /** A content address: 40 lower-case hexadecimal characters. */
  predicate IsSha1(s: string) {
    |s| == 40 && IsHex(s)
  }

  const ZERO_SHA1: string := "0000000000000000000000000000000000000000"

  /** What `find_sha1` may be handed: `bytes`, `str`, or any other value (in the callers, the
      None that a failed load returns). */
  datatype Input = BytesInput(data: Bytes) | StrInput(text: string) | OtherInput

  /** The text the pattern is run over: bytes are decoded as UTF-8 with replacement. */
  function SearchText(x: Input): string {
    match x
    case BytesInput(b) => Utf8Decode(b)
    case StrInput(s) => s
    case OtherInput => ""
  }

  /** `re.findall(r'[\da-f]{40}', s)` scanning from position `i`: where 40 hex characters start,
      they are taken and the scan resumes after them; elsewhere it moves on by one. */
  function HexRunsFrom(s: string, i: nat): (runs: seq<string>)
    requires i <= |s|
    ensures forall k :: 0 <= k < |runs| ==> IsSha1(runs[k]) && T.Contains(s, runs[k])
    decreases |s| - i
  {
    if |s| - i < 40 then []
    else if IsHex(s[i..i + 40]) then
      assert T.OccursAt(s[i..i + 40], s, i);
      [s[i..i + 40]] + HexRunsFrom(s, i + 40)
    else HexRunsFrom(s, i + 1)
  }

  /** `find_sha1(x)`: every 40-hex-character match in the text, without the all-zero hash;
      nothing at all for input that is neither bytes nor str. */
  function FindSha1(x: Input): (hashes: set<string>)
    ensures x.OtherInput? ==> hashes == {}
    ensures forall h :: h in hashes ==> IsSha1(h) && h != ZERO_SHA1 && T.Contains(SearchText(x), h)
  {
    if x.OtherInput? then {}
    else
      var runs := HexRunsFrom(SearchText(x), 0);
      (set h | h in runs) - {ZERO_SHA1}
  }

  /** A scan that starts at or before a hex run which is not preceded by a hex character
      reaches that run and reports it. */
  lemma {:induction false} HexRunsReach(s: string, j: nat, p: nat)
    requires j <= p && p + 40 <= |s|
    requires IsHex(s[p..p + 40])
    requires p == 0 || !IsHexDigit(s[p - 1])
    ensures s[p..p + 40] in HexRunsFrom(s, j)
    decreases p - j
  {
    if j < p {
      if IsHex(s[j..j + 40]) {
        HexRunsReach(s, j + 40, p);
      } else {
        HexRunsReach(s, j + 1, p);
      }
    }
  }

  /** A hash standing on its own in a text (at its start or after a non-hex character) is
      found, whatever follows it, unless it is the all-zero hash. */
  lemma FindSha1Finds(before: string, h: string, after: string)
    requires IsSha1(h) && h != ZERO_SHA1
    requires before == "" || !IsHexDigit(before[|before| - 1])
    ensures h in FindSha1(StrInput(before + h + after))
  {
    var s := before + h + after;
    assert s[|before|..|before| + 40] == h;
    HexRunsReach(s, 0, |before|);
  }

  /** The same for a file of ASCII bytes, such as a ref or a reflog. */
  lemma FindSha1FindsInBytes(before: string, h: string, after: string)
    requires IsSha1(h) && h != ZERO_SHA1
    requires before == "" || !IsHexDigit(before[|before| - 1])
    requires forall i :: 0 <= i < |before + h + after| ==> (before + h + after)[i] < '\U{80}'
    ensures h in FindSha1(BytesInput(AsciiEncode(before + h + after)))
  {
    DecodeAscii(before + h + after);
    FindSha1Finds(before, h, after);
  }

  /** The all-zero hash is dropped even when it is the only thing in the text. */
  lemma FindSha1DropsZero(x: Input)
    ensures ZERO_SHA1 !in FindSha1(x)
  {
  }

  // ---------------------------------------------------------------------------
  // Loose object framing: `<type> <size>\0<body>`

  /** Why a decoder raised: no NUL after the header (the unpacking of `split(b'\x00', 1)`
      fails), the header names another type (the `assert`), a commit without a blank line,
      a header line without a space, or a header key that is not ASCII. */
  datatype ObjectError =
    | MissingNul
    | WrongType
    | MissingBlankLine
    | HeaderWithoutSpace
    | NonAsciiKey

  const TREE: Bytes := [0x74, 0x72, 0x65, 0x65]                 // "tree"
  const COMMIT: Bytes := [0x63, 0x6F, 0x6D, 0x6D, 0x69, 0x74]   // "commit"
  const BLOB: Bytes := [0x62, 0x6C, 0x6F, 0x62]                 // "blob"

  /** None of the three type names holds a NUL. */
  lemma KindsWithoutNul()
    ensures NUL !in TREE && NUL !in COMMIT && NUL !in BLOB
  {
  }

  /** `data.split(b'\x00', 1)` unpacked into header and body. */
  function SplitObject(data: Bytes): (r: Option<(Bytes, Bytes)>)
    ensures r.None? <==> NUL !in data
    ensures r.Some? ==> NUL !in r.value.0 && data == r.value.0 + [NUL] + r.value.1
  {
    match Find(data, NUL)
    case None => None
    case Some(i) =>
      assert data == data[..i] + [NUL] + data[i + 1..];
      Some((data[..i], data[i + 1..]))
  }

  predicate IsDigit(b: byte) {
    0x30 <= b <= 0x39
  }

  /** The decimal digits of `n`, as the size field of an object header is written. */
  function Decimal(n: nat): (ds: Bytes)
    ensures ds != [] && forall i :: 0 <= i < |ds| ==> IsDigit(ds[i])
  {
    if n < 10 then [0x30 + n] else Decimal(n / 10) + [0x30 + n % 10]
  }

  /** The inflated bytes of a loose object of type `kind` holding `body`. */
  function LooseObject(kind: Bytes, body: Bytes): Bytes {
    kind + [SPACE] + Decimal(|body|) + [NUL] + body
  }

  /** The header is everything before the first NUL; the body is everything after it. */
  lemma SplitObjectOf(header: Bytes, body: Bytes)
    requires NUL !in header
    ensures SplitObject(header + [NUL] + body) == Some((header, body))
  {
    var data := header + [NUL] + body;
    FindFirst(header, NUL, body);
    assert data[..|header|] == header;
    assert data[|header| + 1..] == body;
  }

  lemma LooseObjectSplits(kind: Bytes, body: Bytes)
    requires NUL !in kind
    ensures SplitObject(LooseObject(kind, body)) == Some((kind + [SPACE] + Decimal(|body|), body))
  {
    assert NUL !in Decimal(|body|);
    SplitObjectOf(kind + [SPACE] + Decimal(|body|), body);
  }

  // ---------------------------------------------------------------------------
  // parse_tree

  /** One entry as the source yields it: the octal mode (ASCII), the name (UTF-8 with
      replacement), and the hex of the raw 20-byte hash. */
  datatype TreeEntry = TreeEntry(mode: string, name: string, sha1: string)

  /** The end of the run of ASCII digits that starts at `i`. */
  function DigitRun(s: Bytes, i: nat): (j: nat)
    requires i <= |s|
    ensures i <= j <= |s|
    ensures forall k :: i <= k < j ==> IsDigit(s[k])
    ensures j == |s| || !IsDigit(s[j])
    decreases |s| - i
  {
    if i < |s| && IsDigit(s[i]) then DigitRun(s, i + 1) else i
  }

  predicate WellFormedEntry(e: TreeEntry) {
    && e.mode != "" && (forall k :: 0 <= k < |e.mode| ==> '0' <= e.mode[k] <= '9')
    && IsSha1(e.sha1)
  }

  /** A tree entry as git writes it: ASCII octal mode, name, and the raw 20-byte hash. */
  datatype RawEntry = RawEntry(mode: Bytes, name: Bytes, hash: Bytes)

  predicate ValidRaw(e: RawEntry) {
    && e.mode != [] && (forall k :: 0 <= k < |e.mode| ==> IsDigit(e.mode[k]))
    && NUL !in e.name
    && |e.hash| == 20
  }

  /** The bytes of entry `e` followed by `rest`. */
  function EncodeEntryThen(e: RawEntry, rest: Bytes): Bytes {
    e.mode + ([SPACE] + (e.name + ([NUL] + (e.hash + rest))))
  }

  /** A tree body as git writes it: the entries one after another. */
  function EncodeEntries(es: seq<RawEntry>): Bytes {
    if es == [] then [] else EncodeEntryThen(es[0], EncodeEntries(es[1..]))
  }

  /** The loop body: mode decoded as ASCII, name as UTF-8 with replacement, hash hexlified. */
  function Decoded(e: RawEntry): (r: TreeEntry)
    requires ValidRaw(e)
    ensures WellFormedEntry(r)
    ensures Unhex(r.sha1) == e.hash
  {
    UnhexHex(e.hash);
    TreeEntry(AsciiDecode(e.mode), Utf8Decode(e.name), Hex(e.hash))
  }

  /** What the loop yields for the matches `es`, in order. */
  function DecodedAll(es: seq<RawEntry>): (r: seq<TreeEntry>)
    requires forall k :: 0 <= k < |es| ==> ValidRaw(es[k])
    ensures |r| == |es| && forall k :: 0 <= k < |es| ==> r[k] == Decoded(es[k])
  {
    if es == [] then [] else [Decoded(es[0])] + DecodedAll(es[1..])
  }

  /** The groups of `(\d+) ([^\x00]*)\x00(.{20})` matched at the start of `t`, and the
      match's length. Neither repetition can give characters back usefully, so the match,
      when there is one, is the longest digit run, a space, everything up to the next NUL,
      and 20 more bytes. */
  function EntryMatch(t: Bytes): (r: Option<(RawEntry, nat)>)
    ensures r.Some? ==> 0 < r.value.1 <= |t|
  {
    var j := DigitRun(t, 0);
    if j == 0 || j == |t| || t[j] != SPACE then None
    else NameAndHash(t, j, Find(t[j + 1..], NUL))
  }

  /** The rest of the match after the digit run `t[..j]` and its space, given where the
      next NUL is. */
  function NameAndHash(t: Bytes, j: nat, nul: Option<nat>): (r: Option<(RawEntry, nat)>)
    requires 0 < j < |t| && forall k :: 0 <= k < j ==> IsDigit(t[k])
    requires nul == Find(t[j + 1..], NUL)
    ensures r.Some? ==> 0 < r.value.1 <= |t|
  {
    if nul.None? || j + nul.value + 22 > |t| then None
    else
      var k := nul.value;
      Some((RawEntry(t[..j], t[j + 1..j + 1 + k], t[j + k + 2..j + k + 22]), j + k + 22))
  }

  /** Every match is an entry git could have written: digits for a mode, a name without NUL
      and a 20-byte hash. */
  lemma EntryMatchValid(t: Bytes)
    ensures EntryMatch(t).Some? ==> ValidRaw(EntryMatch(t).value.0)
  {
    var j := DigitRun(t, 0);
    if !(j == 0 || j == |t| || t[j] != SPACE) {
      var nul := Find(t[j + 1..], NUL);
      if nul.Some? && j + nul.value + 22 <= |t| {
        var k := nul.value;
        assert t[j + 1..j + 1 + k] == t[j + 1..][..k];
      }
    }
  }

  /** `ptn.findall(body)` over the text `t` still to be scanned: after a match the search
      resumes at its end, otherwise one byte further on. */
  function MatchesIn(t: Bytes): (ms: seq<RawEntry>)
    ensures forall k :: 0 <= k < |ms| ==> ValidRaw(ms[k])
    decreases |t|
  {
    if t == [] then []
    else
      var m := EntryMatch(t);
      EntryMatchValid(t);
      if m.Some? then [m.value.0] + MatchesIn(t[m.value.1..]) else MatchesIn(t[1..])
  }

  /** `list(parse_tree(data))`: the body's entries in order, or the error the generator raises
      on its first step. */
  function ParseTree(data: Bytes): (r: Result<seq<TreeEntry>, ObjectError>)
    ensures r.Ok? ==> StartsWith(data, TREE + [SPACE])
    ensures NUL !in data ==> r == Err(MissingNul)
    ensures forall k :: r.Ok? && 0 <= k < |r.value| ==> WellFormedEntry(r.value[k])
  {
    match SplitObject(data)
    case None => Err(MissingNul)
    case Some((header, body)) =>
      if !StartsWith(header, TREE + [SPACE]) then Err(WrongType)
      else
        assert data[..5] == header[..5];
        Ok(DecodedAll(MatchesIn(body)))
  }

  /** The length of entry `e` once encoded. */
  function EntryLength(e: RawEntry): nat {
    |e.mode| + |e.name| + 22
  }

  /** `t` starts with the encoding of `e`, stated part by part. */
  predicate EntryFacts(t: Bytes, e: RawEntry) {
    && EntryLength(e) <= |t| && |e.hash| == 20
    && t[..|e.mode|] == e.mode
    && t[|e.mode|] == SPACE
    && t[|e.mode| + 1..|e.mode| + 1 + |e.name|] == e.name
    && t[|e.mode| + 1 + |e.name|] == NUL
    && t[|e.mode| + |e.name| + 2..|e.mode| + |e.name| + 22] == e.hash
  }

  /** The match, read off the end of the digit run and the position of the NUL. */
  lemma EntryMatchOf(t: Bytes, j: nat, k: nat, e: RawEntry)
    requires 0 < j && j + k + 22 <= |t|
    requires DigitRun(t, 0) == j && t[j] == SPACE
    requires Find(t[j + 1..], NUL) == Some(k)
    requires t[..j] == e.mode && t[j + 1..j + 1 + k] == e.name && t[j + k + 2..j + k + 22] == e.hash
    ensures EntryMatch(t) == Some((e, j + k + 22))
  {
    EntryMatchSteps(t, j, k);
    NameAndHashOf(t, j, k);
  }

  lemma EntryMatchSteps(t: Bytes, j: nat, k: nat)
    requires 0 < j < |t|
    requires DigitRun(t, 0) == j && t[j] == SPACE
    requires Find(t[j + 1..], NUL) == Some(k)
    ensures forall x :: 0 <= x < j ==> IsDigit(t[x])
    ensures EntryMatch(t) == NameAndHash(t, j, Some(k))
  {
  }

  lemma NameAndHashOf(t: Bytes, j: nat, k: nat)
    requires 0 < j && j + k + 22 <= |t| && forall x :: 0 <= x < j ==> IsDigit(t[x])
    requires Find(t[j + 1..], NUL) == Some(k)
    ensures NameAndHash(t, j, Some(k)) == Some((RawEntry(t[..j], t[j + 1..j + 1 + k], t[j + k + 2..j + k + 22]), j + k + 22))
  {
  }

  lemma EntryFactsFind(t: Bytes, e: RawEntry)
    requires ValidRaw(e) && EntryFacts(t, e)
    ensures Find(t[|e.mode| + 1..], NUL) == Some(|e.name|)
  {
    var rest := t[|e.mode| + 1..];
    forall j | 0 <= j < |e.name| ensures rest[j] != NUL {
      assert rest[j] == t[|e.mode| + 1..|e.mode| + 1 + |e.name|][j];
    }
    FindAt(rest, NUL, |e.name|);
  }

  lemma EntryFactsDigits(t: Bytes, e: RawEntry)
    requires ValidRaw(e) && EntryFacts(t, e)
    ensures DigitRun(t, 0) == |e.mode|
  {
    forall x | 0 <= x < |e.mode| ensures IsDigit(t[x]) {
      assert t[x] == t[..|e.mode|][x];
    }
    DigitRunStops(t, 0, |e.mode|);
  }

  /** The match of an entry laid out part by part. */
  lemma EntryMatchAt(t: Bytes, e: RawEntry)
    requires ValidRaw(e) && EntryFacts(t, e)
    ensures EntryMatch(t) == Some((e, EntryLength(e)))
  {
    EntryFactsDigits(t, e);
    EntryFactsFind(t, e);
    EntryMatchOf(t, |e.mode|, |e.name|, e);
  }

  lemma DigitRunStops(s: Bytes, i: nat, j: nat)
    requires i <= j < |s|
    requires forall k :: i <= k < j ==> IsDigit(s[k])
    requires !IsDigit(s[j])
    ensures DigitRun(s, i) == j
    decreases j - i
  {
    if i < j {
      DigitRunStops(s, i + 1, j);
    }
  }

  /** Where each part of an encoded entry sits. */
  lemma EncodedEntryLayout(e: RawEntry, tail: Bytes)
    requires ValidRaw(e)
    ensures EntryFacts(EncodeEntryThen(e, tail), e)
    ensures EncodeEntryThen(e, tail)[EntryLength(e)..] == tail
  {
  }

  /** The scan over encoded entries finds exactly those entries. */
  lemma {:induction false} MatchesInEncoded(es: seq<RawEntry>)
    requires forall k :: 0 <= k < |es| ==> ValidRaw(es[k])
    ensures MatchesIn(EncodeEntries(es)) == es
    decreases es
  {
    if es != [] {
      var e, rest := es[0], EncodeEntries(es[1..]);
      var t := EncodeEntryThen(e, rest);
      EncodedEntryLayout(e, rest);
      EntryMatchAt(t, e);
      assert MatchesIn(t) == [e] + MatchesIn(rest);
      MatchesInEncoded(es[1..]);
      assert es == [e] + es[1..];
    }
  }

  /** A loose tree object is parsed by scanning its body for entries. */
  lemma ParseLooseTree(body: Bytes)
    ensures ParseTree(LooseObject(TREE, body)) == Ok(DecodedAll(MatchesIn(body)))
  {
    KindsWithoutNul();
    LooseObjectSplits(TREE, body);
    assert (TREE + [SPACE] + Decimal(|body|))[..5] == TREE + [SPACE];
  }

  /** Decoding an encoded tree yields exactly its entries, in order; by `Decoded`'s contract
      each hash reads back, through unhexlify, as the 20 raw bytes it was written from. */
  lemma ParseTreeRoundTrip(es: seq<RawEntry>)
    requires forall k :: 0 <= k < |es| ==> ValidRaw(es[k])
    ensures ParseTree(LooseObject(TREE, EncodeEntries(es))) == Ok(DecodedAll(es))
  {
    var body := EncodeEntries(es);
    ParseLooseTree(body);
    MatchesInEncoded(es);
  }

  // ---------------------------------------------------------------------------
  // parse_commit

  /** The decoded commit: every header key mapped to its stripped value, and the stripped
      message, both decoded as UTF-8 with replacement. `tree`, `parent`, `author` and
      `committer` read as None when no line set them. */
  datatype Commit = Commit(fields: map<string, string>, message: string) {
    function Field(key: string): Option<string> {
      if key in fields then Some(fields[key]) else None
    }
  }

  /** One header line: `key, value = line.split(b' ', 1)`, then the ASCII key and the
      stripped value. */
  function HeaderLine(line: Bytes): Result<(string, Bytes), ObjectError> {
    match Find(line, SPACE)
    case None => Err(HeaderWithoutSpace)
    case Some(i) =>
      if !IsAscii(line[..i]) then Err(NonAsciiKey)
      else Ok((AsciiDecode(line[..i]), Strip(line[i + 1..])))
  }

  /** The key a header line sets, if it parses. */
  function KeyOf(line: Bytes): Option<string> {
    match HeaderLine(line)
    case Ok((k, _)) => Some(k)
    case Err(_) => None
  }

  /** The header loop: lines are entered into the dictionary in order, so a later line
      overwrites an earlier one with the same key; the first bad line raises. */
  function Headers(lines: seq<Bytes>): Result<map<string, Bytes>, ObjectError> {
    Entered(HeaderLine, lines)
  }

  /** Entering the pairs that `parse` reads from `lines`, in order, into a dictionary. */
  function Entered<E>(parse: Bytes -> Result<(string, Bytes), E>, lines: seq<Bytes>): Result<map<string, Bytes>, E>
    decreases |lines|
  {
    if lines == [] then Ok(map[])
    else match Entered(parse, lines[..|lines| - 1])
      case Err(e) => Err(e)
      case Ok(m) =>
        match parse(lines[|lines| - 1])
        case Err(e) => Err(e)
        case Ok((k, v)) => Ok(m[k := v])
  }

  /** Every value decoded as UTF-8 with replacement. */
  function DecodeValues(m: map<string, Bytes>): (d: map<string, string>)
    ensures d.Keys == m.Keys
  {
    map k | k in m :: Utf8Decode(m[k])
  }

  const BLANK_LINE: Bytes := [NEWLINE, NEWLINE]

  /** `parse_commit(data)` */
  function ParseCommit(data: Bytes): (r: Result<Commit, ObjectError>)
    ensures r.Ok? ==> StartsWith(data, COMMIT + [SPACE])
    ensures NUL !in data ==> r == Err(MissingNul)
  {
    match SplitObject(data)
    case None => Err(MissingNul)
    case Some((header, body)) =>
      if !StartsWith(header, COMMIT + [SPACE]) then Err(WrongType)
      else
        assert data[..7] == header[..7];
        match FindSeq(body, BLANK_LINE)
        case None => Err(MissingBlankLine)
        case Some(i) =>
          match Headers(SplitAll(body[..i], NEWLINE))
          case Err(e) => Err(e)
          case Ok(m) => Ok(Commit(DecodeValues(m), Utf8Decode(Strip(body[i + 2..]))))
  }

  /** A key that no header line sets is absent, so `commit[key]` keeps its default None. */
  lemma HeaderAbsent(lines: seq<Bytes>, key: string)
    requires Headers(lines).Ok?
    requires forall i :: 0 <= i < |lines| ==> KeyOf(lines[i]) != Some(key)
    ensures key !in Headers(lines).value
  {
    EnteredAbsent(HeaderLine, lines, key);
  }

  lemma {:induction false} EnteredAbsent<E>(parse: Bytes -> Result<(string, Bytes), E>, lines: seq<Bytes>, key: string)
    requires Entered(parse, lines).Ok?
    requires forall i :: 0 <= i < |lines| && parse(lines[i]).Ok? ==> parse(lines[i]).value.0 != key
    ensures key !in Entered(parse, lines).value
    decreases |lines|
  {
    if lines != [] {
      EnteredAbsent(parse, lines[..|lines| - 1], key);
    }
  }

  /** When several lines set the same key, the last one wins. */
  lemma HeaderLastWins(lines: seq<Bytes>, i: nat, key: string, value: Bytes)
    requires Headers(lines).Ok?
    requires i < |lines| && HeaderLine(lines[i]) == Ok((key, value))
    requires forall j :: i < j < |lines| ==> KeyOf(lines[j]) != Some(key)
    ensures key in Headers(lines).value && Headers(lines).value[key] == value
  {
    EnteredLastWins(HeaderLine, lines, i, key, value);
  }

  lemma {:induction false} EnteredLastWins<E>(parse: Bytes -> Result<(string, Bytes), E>, lines: seq<Bytes>, i: nat, key: string, value: Bytes)
    requires Entered(parse, lines).Ok?
    requires i < |lines| && parse(lines[i]) == Ok((key, value))
    requires forall j :: i < j < |lines| && parse(lines[j]).Ok? ==> parse(lines[j]).value.0 != key
    ensures key in Entered(parse, lines).value && Entered(parse, lines).value[key] == value
    decreases |lines|
  {
    if i < |lines| - 1 {
      EnteredLastWins(parse, lines[..|lines| - 1], i, key, value);
    }
  }

  /** A header line as git writes it: `key value`. */
  function HeaderText(key: Bytes, value: Bytes): Bytes {
    key + [SPACE] + value
  }

  /** The map that entering `pairs` in order produces. */
  function LastValues(pairs: seq<(Bytes, Bytes)>): map<string, Bytes>
    requires forall k :: 0 <= k < |pairs| ==> ValidHeader(pairs[k])
  {
    if pairs == [] then map[]
    else
      assert ValidHeader(pairs[|pairs| - 1]);
      LastValues(pairs[..|pairs| - 1])[AsciiDecode(pairs[|pairs| - 1].0) := pairs[|pairs| - 1].1]
  }

  /** A header pair git would write: a non-empty ASCII key without space or newline, and a
      value without newline or surrounding whitespace. */
  predicate ValidHeader(p: (Bytes, Bytes)) {
    && p.0 != [] && IsAscii(p.0) && SPACE !in p.0 && NEWLINE !in p.0
    && NEWLINE !in p.1
    && (p.1 != [] ==> !IsSpace(p.1[0]) && !IsSpace(p.1[|p.1| - 1]))
  }

  function HeaderBlock(pairs: seq<(Bytes, Bytes)>): seq<Bytes> {
    seq(|pairs|, k requires 0 <= k < |pairs| => HeaderText(pairs[k].0, pairs[k].1))
  }

  /** A header line git would write parses back to its key and value. */
  lemma HeaderLineOf(key: Bytes, value: Bytes)
    requires ValidHeader((key, value))
    ensures HeaderLine(HeaderText(key, value)) == Ok((AsciiDecode(key), value))
  {
    var line := HeaderText(key, value);
    assert Find(line, SPACE) == Some(|key|) by {
      FindFirst(key, SPACE, value);
    }
    assert line[..|key|] == key;
    assert line[|key| + 1..] == value;
    StripTrimmed(value);
  }

  lemma {:induction false} HeadersOfBlock(pairs: seq<(Bytes, Bytes)>)
    requires forall k :: 0 <= k < |pairs| ==> ValidHeader(pairs[k])
    ensures Headers(HeaderBlock(pairs)) == Ok(LastValues(pairs))
    decreases |pairs|
  {
    if pairs != [] {
      var lines := HeaderBlock(pairs);
      var last := pairs[|pairs| - 1];
      assert lines[..|lines| - 1] == HeaderBlock(pairs[..|pairs| - 1]);
      assert lines[|lines| - 1] == HeaderText(last.0, last.1);
      HeadersOfBlock(pairs[..|pairs| - 1]);
      HeaderLineOf(last.0, last.1);
    }
  }

  /** Non-empty pieces without the separator join into a text in which the separator never
      appears twice in a row and which does not end with it. */
  lemma {:induction false} JoinHasNoDoubleSeparator(parts: seq<Bytes>, sep: byte)
    requires |parts| >= 1
    requires forall k :: 0 <= k < |parts| ==> parts[k] != [] && sep !in parts[k]
    ensures var j := JoinWith(parts, sep);
      && j != [] && j[|j| - 1] != sep
      && forall x :: 0 <= x < |j| - 1 ==> !(j[x] == sep && j[x + 1] == sep)
    decreases |parts|
  {
    if |parts| > 1 {
      JoinHasNoDoubleSeparator(parts[1..], sep);
      var rest := JoinWith(parts[1..], sep);
      var j := JoinWith(parts, sep);
      assert j == parts[0] + [sep] + rest;
      forall x | 0 <= x < |j| - 1 ensures !(j[x] == sep && j[x + 1] == sep) {
        if x < |parts[0]| {
          assert j[x] == parts[0][x];
        } else if x == |parts[0]| {
          assert j[x + 1] == rest[0];
        } else {
          assert j[x] == rest[x - |parts[0]| - 1] && j[x + 1] == rest[x - |parts[0]|];
        }
      }
    }
  }

  /** The lines of a header block are non-empty and hold no newline. */
  lemma HeaderBlockLines(pairs: seq<(Bytes, Bytes)>)
    requires forall k :: 0 <= k < |pairs| ==> ValidHeader(pairs[k])
    ensures |HeaderBlock(pairs)| == |pairs|
    ensures forall k :: 0 <= k < |HeaderBlock(pairs)| ==> HeaderBlock(pairs)[k] != [] && NEWLINE !in HeaderBlock(pairs)[k]
  {
    var lines := HeaderBlock(pairs);
    forall k | 0 <= k < |lines| ensures lines[k] != [] && NEWLINE !in lines[k] {
      assert lines[k] == pairs[k].0 + [SPACE] + pairs[k].1;
      assert lines[k][0] == pairs[k].0[0];
    }
  }

  /** The first blank line of a commit body is the one after its header block, when the
      block itself holds none and does not end with a newline. */
  lemma BlankLineAfter(info: Bytes, message: Bytes)
    requires info != [] && info[|info| - 1] != NEWLINE
    requires forall x :: 0 <= x < |info| - 1 ==> !(info[x] == NEWLINE && info[x + 1] == NEWLINE)
    ensures FindSeq(info + BLANK_LINE + message, BLANK_LINE) == Some(|info|)
  {
    var body := info + BLANK_LINE + message;
    assert OccursAt(BLANK_LINE, body, |info|) by {
      assert body[|info|..|info| + 2] == BLANK_LINE;
    }
    forall x | 0 <= x < |info| ensures !OccursAt(BLANK_LINE, body, x) {
      if x < |info| - 1 {
        assert body[x] == info[x] && body[x + 1] == info[x + 1];
        assert body[x..x + 2] == [body[x], body[x + 1]];
      } else {
        assert body[x] == info[x];
        assert body[x..x + 2][0] == body[x];
      }
    }
  }

  /** A commit written with header lines `pairs` and a message decodes to the header values
      (the last one for a repeated key) and the stripped message. */
  lemma ParseCommitRoundTrip(pairs: seq<(Bytes, Bytes)>, message: Bytes)
    requires |pairs| >= 1
    requires forall k :: 0 <= k < |pairs| ==> ValidHeader(pairs[k])
    ensures var body := JoinWith(HeaderBlock(pairs), NEWLINE) + BLANK_LINE + message;
      ParseCommit(LooseObject(COMMIT, body))
        == Ok(Commit(DecodeValues(LastValues(pairs)), Utf8Decode(Strip(message))))
  {
    BlockThenBlankLine(pairs, message);
    HeadersOfJoinedBlock(pairs);
    ParseCommitOfBody(JoinWith(HeaderBlock(pairs), NEWLINE), message, LastValues(pairs));
  }

  /** A commit object whose body is a header block `info`, a blank line and a message. */
  lemma ParseCommitOfBody(info: Bytes, message: Bytes, m: map<string, Bytes>)
    requires FindSeq(info + BLANK_LINE + message, BLANK_LINE) == Some(|info|)
    requires Headers(SplitAll(info, NEWLINE)) == Ok(m)
    ensures ParseCommit(LooseObject(COMMIT, info + BLANK_LINE + message))
         == Ok(Commit(DecodeValues(m), Utf8Decode(Strip(message))))
  {
    var body := info + BLANK_LINE + message;
    var header := COMMIT + [SPACE] + Decimal(|body|);
    KindsWithoutNul();
    LooseObjectSplits(COMMIT, body);
    assert header[..7] == COMMIT + [SPACE];
    assert body[..|info|] == info;
    assert body[|info| + 2..] == message;
    ParseCommitOf(LooseObject(COMMIT, body), header, body, |info|, m);
  }

  /** The blank line after a header block is the first one of the body. */
  lemma BlockThenBlankLine(pairs: seq<(Bytes, Bytes)>, message: Bytes)
    requires |pairs| >= 1
    requires forall k :: 0 <= k < |pairs| ==> ValidHeader(pairs[k])
    ensures var info := JoinWith(HeaderBlock(pairs), NEWLINE);
      FindSeq(info + BLANK_LINE + message, BLANK_LINE) == Some(|info|)
  {
    var lines := HeaderBlock(pairs);
    HeaderBlockLines(pairs);
    JoinHasNoDoubleSeparator(lines, NEWLINE);
    BlankLineAfter(JoinWith(lines, NEWLINE), message);
  }

  /** The header loop over the lines of a joined header block. */
  lemma HeadersOfJoinedBlock(pairs: seq<(Bytes, Bytes)>)
    requires |pairs| >= 1
    requires forall k :: 0 <= k < |pairs| ==> ValidHeader(pairs[k])
    ensures Headers(SplitAll(JoinWith(HeaderBlock(pairs), NEWLINE), NEWLINE)) == Ok(LastValues(pairs))
  {
    HeaderBlockLines(pairs);
    SplitJoin(HeaderBlock(pairs), NEWLINE);
    HeadersOfBlock(pairs);
  }

  /** What `parse_commit` makes of an object, given where its header ends, where its blank
      line is, and what its header lines set. */
  lemma ParseCommitOf(data: Bytes, header: Bytes, body: Bytes, i: nat, m: map<string, Bytes>)
    requires SplitObject(data) == Some((header, body)) && StartsWith(header, COMMIT + [SPACE])
    requires FindSeq(body, BLANK_LINE) == Some(i)
    requires Headers(SplitAll(body[..i], NEWLINE)) == Ok(m)
    ensures ParseCommit(data) == Ok(Commit(DecodeValues(m), Utf8Decode(Strip(body[i + 2..]))))
  {
  }

  // ---------------------------------------------------------------------------
  // parse_blob

  /** `parse_blob(data)['data']`: the payload after the first NUL, unchanged, provided the
      header starts with "blob ". */
  function ParseBlob(data: Bytes): (r: Result<Bytes, ObjectError>)
    ensures r.Ok? ==> StartsWith(data, BLOB + [SPACE])
    ensures r.Ok? ==> exists header :: NUL !in header && data == header + [NUL] + r.value
    ensures NUL !in data ==> r == Err(MissingNul)
  {
    match SplitObject(data)
    case None => Err(MissingNul)
    case Some((header, body)) =>
      if !StartsWith(header, BLOB + [SPACE]) then Err(WrongType)
      else
        assert data[..5] == header[..5];
        Ok(body)
  }

  /** A blob object decodes to exactly the bytes it was made from. */
  lemma ParseBlobRoundTrip(payload: Bytes)
    ensures ParseBlob(LooseObject(BLOB, payload)) == Ok(payload)
  {
    KindsWithoutNul();
    LooseObjectSplits(BLOB, payload);
    var header := BLOB + [SPACE] + Decimal(|payload|);
    assert header[..5] == BLOB + [SPACE];
  }
}
