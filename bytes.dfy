/** Byte strings as the Python source handles them: `bytes` values whose elements are
    integers 0..255, with the handful of `bytes` methods the decoders call, hexadecimal
    rendering (`binascii.hexlify`), network-order integers (`struct.unpack('!I')`,
    `struct.unpack('!H')`) and UTF-8 decoding with the 'replace' error handler. */
module Bytes {
  import opened Wrappers

  /** One element of a Python `bytes` value. */
  type byte = x: int | 0 <= x < 256
  type Bytes = seq<byte>

  const NUL: byte := 0x00
  const NEWLINE: byte := 0x0A
  const SPACE: byte := 0x20

  /** `bs.startswith(prefix)` */
  predicate StartsWith(bs: Bytes, prefix: Bytes) {
    |prefix| <= |bs| && bs[..|prefix|] == prefix
  }

  /** The position of the first `b` in `bs` (`bs.find(b)`, with -1 as None). */
  function Find(bs: Bytes, b: byte): (r: Option<nat>)
    ensures r.Some? ==> r.value < |bs| && bs[r.value] == b
    ensures r.Some? ==> forall i :: 0 <= i < r.value ==> bs[i] != b
    ensures r.None? <==> b !in bs
  {
    if bs == [] then None
    else if bs[0] == b then Some(0)
    else match Find(bs[1..], b)
      case None => None
      case Some(i) => Some(i + 1)
  }

  /** A slice is determined by the bytes it holds. */
  lemma SliceHolds(bs: Bytes, start: nat, part: Bytes)
    requires start + |part| <= |bs|
    requires forall k :: 0 <= k < |part| ==> bs[start + k] == part[k]
    ensures bs[start..start + |part|] == part
  {
  }

  /** `Find` stops at the first occurrence. */
  lemma FindAt(bs: Bytes, b: byte, k: nat)
    requires k < |bs| && bs[k] == b
    requires forall j :: 0 <= j < k ==> bs[j] != b
    ensures Find(bs, b) == Some(k)
  {
  }

  /** A byte that does not occur before its first use is found there. */
  lemma FindFirst(prefix: Bytes, b: byte, rest: Bytes)
    requires b !in prefix
    ensures Find(prefix + [b] + rest, b) == Some(|prefix|)
  {
    var bs := prefix + [b] + rest;
    assert bs[|prefix|] == b;
    assert forall i :: 0 <= i < |prefix| ==> bs[i] == prefix[i];
  }

  /** `pat` occurs in `bs` at position `i`. */
  predicate OccursAt(pat: Bytes, bs: Bytes, i: int) {
    0 <= i && i + |pat| <= |bs| && bs[i..i + |pat|] == pat
  }

  /** The position of the first occurrence of the non-empty pattern `pat` (`bs.find(pat)`). */
  function FindSeq(bs: Bytes, pat: Bytes): (r: Option<nat>)
    requires pat != []
    ensures r.Some? ==> OccursAt(pat, bs, r.value)
    ensures r.Some? ==> forall i :: 0 <= i < r.value ==> !OccursAt(pat, bs, i)
    ensures r.None? ==> forall i :: 0 <= i ==> !OccursAt(pat, bs, i)
    decreases |bs|
  {
    if |bs| < |pat| then None
    else if bs[..|pat|] == pat then Some(0)
    else match FindSeq(bs[1..], pat)
      case None =>
        assert forall i :: 1 <= i ==> OccursAt(pat, bs, i) == OccursAt(pat, bs[1..], i - 1);
        None
      case Some(i) =>
        assert forall j :: 1 <= j ==> OccursAt(pat, bs, j) == OccursAt(pat, bs[1..], j - 1);
        Some(i + 1)
  }

  /** `bs.split(sep)`: the pieces between the occurrences of the byte `sep`. */
  function SplitAll(bs: Bytes, sep: byte): (parts: seq<Bytes>)
    ensures |parts| >= 1
    ensures forall i :: 0 <= i < |parts| ==> sep !in parts[i]
    decreases |bs|
  {
    match Find(bs, sep)
    case None => [bs]
    case Some(i) => [bs[..i]] + SplitAll(bs[i + 1..], sep)
  }

  /** `sep.join(parts)` for a one-byte separator. */
  function JoinWith(parts: seq<Bytes>, sep: byte): Bytes
    requires |parts| >= 1
  {
    if |parts| == 1 then parts[0] else parts[0] + [sep] + JoinWith(parts[1..], sep)
  }

  /** Splitting what was joined gives back the pieces, provided none holds the separator. */
  lemma {:induction false} SplitJoin(parts: seq<Bytes>, sep: byte)
    requires |parts| >= 1
    requires forall i :: 0 <= i < |parts| ==> sep !in parts[i]
    ensures SplitAll(JoinWith(parts, sep), sep) == parts
  {
    var joined := JoinWith(parts, sep);
    if |parts| == 1 {
      assert Find(joined, sep) == None;
    } else {
      var rest := JoinWith(parts[1..], sep);
      assert joined == parts[0] + [sep] + rest;
      assert Find(joined, sep) == Some(|parts[0]|) by {
        assert joined[|parts[0]|] == sep;
        forall i | 0 <= i < |parts[0]| ensures joined[i] != sep {
          assert joined[i] == parts[0][i];
        }
      }
      assert joined[..|parts[0]|] == parts[0];
      assert joined[|parts[0]| + 1..] == rest;
      SplitJoin(parts[1..], sep);
    }
  }

  /** The ASCII whitespace Python's `bytes.strip()` removes: space, \t, \n, \v, \f, \r. */
  predicate IsSpace(b: byte) {
    b == 0x20 || 0x09 <= b <= 0x0D
  }

  function TrimStart(bs: Bytes): (r: Bytes)
    ensures |r| <= |bs| && r == bs[|bs| - |r|..]
    ensures r != [] ==> !IsSpace(r[0])
    ensures forall i :: 0 <= i < |bs| - |r| ==> IsSpace(bs[i])
  {
    if bs != [] && IsSpace(bs[0]) then TrimStart(bs[1..]) else bs
  }

  function TrimEnd(bs: Bytes): (r: Bytes)
    ensures |r| <= |bs| && r == bs[..|r|]
    ensures r != [] ==> !IsSpace(r[|r| - 1])
    ensures forall i :: |r| <= i < |bs| ==> IsSpace(bs[i])
  {
    if bs != [] && IsSpace(bs[|bs| - 1]) then TrimEnd(bs[..|bs| - 1]) else bs
  }

  /** `bs.strip()`: `bs` without its leading and trailing whitespace. */
  function Strip(bs: Bytes): (r: Bytes)
    ensures |r| <= |bs|
    ensures r != [] ==> !IsSpace(r[0]) && !IsSpace(r[|r| - 1])
  {
    TrimEnd(TrimStart(bs))
  }

  /** A slice that already has no whitespace at either end is left as it is. */
  lemma StripTrimmed(bs: Bytes)
    requires bs != [] ==> !IsSpace(bs[0]) && !IsSpace(bs[|bs| - 1])
    ensures Strip(bs) == bs
  {
  }

  // ---------------------------------------------------------------------------
  // Hexadecimal (binascii.hexlify / unhexlify)

  /** A character of `[0-9a-f]`, as the lower-case hexadecimal Python writes. */
  predicate IsHexDigit(c: char) {
    '0' <= c <= '9' || 'a' <= c <= 'f'
  }

  function HexDigit(n: int): (c: char)
    requires 0 <= n < 16
    ensures IsHexDigit(c)
  {
    if n < 10 then ('0' as int + n) as char else ('a' as int + n - 10) as char
  }

  function HexValue(c: char): (n: int)
    requires IsHexDigit(c)
    ensures 0 <= n < 16 && HexDigit(n) == c
  {
    if c <= '9' then c as int - '0' as int else c as int - 'a' as int + 10
  }

  /** `binascii.hexlify(bs).decode('ascii')`: two lower-case hex digits per byte, high nibble first. */
  function Hex(bs: Bytes): (s: string)
    ensures |s| == 2 * |bs|
    ensures forall i :: 0 <= i < |s| ==> IsHexDigit(s[i])
  {
    if bs == [] then "" else [HexDigit(bs[0] / 16), HexDigit(bs[0] % 16)] + Hex(bs[1..])
  }

  predicate IsHex(s: string) {
    forall i :: 0 <= i < |s| ==> IsHexDigit(s[i])
  }

  /** `binascii.unhexlify(s)` for an even-length lower-case hex string. */
  function Unhex(s: string): (bs: Bytes)
    requires |s| % 2 == 0 && IsHex(s)
    ensures |bs| * 2 == |s|
  {
    if s == "" then [] else [HexValue(s[0]) * 16 + HexValue(s[1])] + Unhex(s[2..])
  }

  /** Hex digits decode back to the raw bytes they were made from. */
  lemma {:induction false} UnhexHex(bs: Bytes)
    ensures Unhex(Hex(bs)) == bs
  {
    if bs != [] {
      var s := Hex(bs);
      assert s[2..] == Hex(bs[1..]);
      UnhexHex(bs[1..]);
    }
  }

  /** Every even-length lower-case hex string is the rendering of exactly one byte string. */
  lemma {:induction false} HexUnhex(s: string)
    requires |s| % 2 == 0 && IsHex(s)
    ensures Hex(Unhex(s)) == s
  {
    if s != "" {
      var b := HexValue(s[0]) * 16 + HexValue(s[1]);
      assert b / 16 == HexValue(s[0]) && b % 16 == HexValue(s[1]);
      HexUnhex(s[2..]);
    }
  }

  // ---------------------------------------------------------------------------
  // Network byte order (struct.unpack('!H') and struct.unpack('!I'))

  /** The big-endian 16-bit number in `s[i..i+2]`. */
  function U16At(s: Bytes, i: nat): (n: nat)
    requires i + 2 <= |s|
    ensures n < 0x1_0000
  {
    s[i] as int * 0x100 + s[i + 1]
  }

  /** The big-endian 32-bit number in `s[i..i+4]`. */
  function U32At(s: Bytes, i: nat): (n: nat)
    requires i + 4 <= |s|
    ensures n < 0x1_0000_0000
  {
    ((s[i] as int * 0x100 + s[i + 1]) * 0x100 + s[i + 2]) * 0x100 + s[i + 3]
  }

  /** `struct.pack('!H', n)` */
  function U16Bytes(n: nat): (r: Bytes)
    requires n < 0x1_0000
    ensures |r| == 2 && U16At(r, 0) == n
  {
    [n / 0x100, n % 0x100]
  }

  /** `struct.pack('!I', n)` */
  function U32Bytes(n: nat): (r: Bytes)
    requires n < 0x1_0000_0000
    ensures |r| == 4 && U32At(r, 0) == n
  {
    var hi := n / 0x1_0000;
    var lo := n % 0x1_0000;
    [hi / 0x100, hi % 0x100, lo / 0x100, lo % 0x100]
  }

  // ---------------------------------------------------------------------------
  // UTF-8 decoding with errors='replace'

  const REPLACEMENT: char := '\U{FFFD}'

  predicate IsContinuation(b: byte) {
    0x80 <= b <= 0xBF
  }

  /** The first character of `bs` under `bs.decode('utf-8', 'replace')` and the number of bytes
      it takes: a well-formed sequence gives its scalar value; otherwise the maximal ill-formed
      prefix (the lead byte and any continuation bytes that were still acceptable) becomes one
      U+FFFD. */
  function DecodeOne(bs: Bytes): (r: (char, nat))
    requires bs != []
    ensures 1 <= r.1 <= |bs| && r.1 <= 4
  {
    var b0 := bs[0];
    if b0 < 0x80 then (b0 as char, 1)
    else if 0xC2 <= b0 <= 0xDF then
      if |bs| >= 2 && IsContinuation(bs[1]) then (((b0 as int - 0xC0) * 0x40 + (bs[1] as int - 0x80)) as char, 2)
      else (REPLACEMENT, 1)
    else if 0xE0 <= b0 <= 0xEF then
      var lo := if b0 == 0xE0 then 0xA0 else 0x80;
      var hi := if b0 == 0xED then 0x9F else 0xBF;
      if |bs| < 2 || !(lo <= bs[1] <= hi) then (REPLACEMENT, 1)
      else if |bs| < 3 || !IsContinuation(bs[2]) then (REPLACEMENT, 2)
      else (((b0 as int - 0xE0) * 0x1000 + (bs[1] as int - 0x80) * 0x40 + (bs[2] as int - 0x80)) as char, 3)
    else if 0xF0 <= b0 <= 0xF4 then
      var lo := if b0 == 0xF0 then 0x90 else 0x80;
      var hi := if b0 == 0xF4 then 0x8F else 0xBF;
      if |bs| < 2 || !(lo <= bs[1] <= hi) then (REPLACEMENT, 1)
      else if |bs| < 3 || !IsContinuation(bs[2]) then (REPLACEMENT, 2)
      else if |bs| < 4 || !IsContinuation(bs[3]) then (REPLACEMENT, 3)
      else (((b0 as int - 0xF0) * 0x4_0000 + (bs[1] as int - 0x80) * 0x1000 + (bs[2] as int - 0x80) * 0x40
                + (bs[3] as int - 0x80)) as char, 4)
    else (REPLACEMENT, 1)
  }

  /** `bs.decode('utf-8', 'replace')` */
  function Utf8Decode(bs: Bytes): (s: string)
    ensures |s| <= |bs|
    decreases |bs|
  {
    if bs == [] then "" else
      var (c, n) := DecodeOne(bs);
      [c] + Utf8Decode(bs[n..])
  }

  /** Every byte is below 0x80, so `bytes.decode('ascii')` succeeds. */
  predicate IsAscii(bs: Bytes) {
    forall i :: 0 <= i < |bs| ==> bs[i] < 0x80
  }

  /** `bs.decode('ascii')` for ASCII bytes. */
  function AsciiDecode(bs: Bytes): (s: string)
    requires IsAscii(bs)
    ensures |s| == |bs| && forall i :: 0 <= i < |bs| ==> s[i] as int == bs[i]
  {
    if bs == [] then "" else [bs[0] as char] + AsciiDecode(bs[1..])
  }

  /** `s.encode('ascii')` for a string of ASCII characters. */
  function AsciiEncode(s: string): (bs: Bytes)
    requires forall i :: 0 <= i < |s| ==> s[i] < '\U{80}'
    ensures |bs| == |s| && forall i :: 0 <= i < |s| ==> bs[i] == s[i] as int
  {
    if s == "" then [] else [s[0] as int] + AsciiEncode(s[1..])
  }

  /** ASCII text decodes to itself. */
  lemma {:induction false} DecodeAscii(s: string)
    requires forall i :: 0 <= i < |s| ==> s[i] < '\U{80}'
    ensures Utf8Decode(AsciiEncode(s)) == s
  {
    if s != "" {
      var bs := AsciiEncode(s);
      assert DecodeOne(bs) == (s[0], 1);
      assert bs[1..] == AsciiEncode(s[1..]);
      DecodeAscii(s[1..]);
    }
  }
}
