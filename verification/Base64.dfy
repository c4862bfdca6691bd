/** Base64 as in section 6.8 of RFC 2045 (src/dlib/base64/base64_kernel_1.cpp). */
module Base64Coding {

  type Byte = x: int | 0 <= x < 256

  const PAD: Byte := 61
  const CR_BYTE: Byte := 13
  const LF_BYTE: Byte := 10
  const BAD_VALUE: Byte := 100

  datatype LineEnding = CR | LF | CRLF

  // ---- bytes -----------------------------------------------------------------------------

  /** x << n, cut to a byte. */
  function ShiftLeft(x: Byte, power: int): (r: Byte)
    requires power > 0
  {
    (x * power) % 256
  }

  /** Bitwise or. */
  function Or(x: nat, y: nat): (r: nat)
    ensures r <= x + y
  {
    if x == 0 && y == 0 then 0
    else (if x % 2 == 1 || y % 2 == 1 then 1 else 0) + 2 * Or(x / 2, y / 2)
  }

  lemma {:induction false} OrFits(x: nat, y: nat, n: nat)
    requires x < Power(n) && y < Power(n)
    ensures Or(x, y) < Power(n)
  {
    if n > 0 && !(x == 0 && y == 0) { OrFits(x / 2, y / 2, n - 1); }
  }

  function Power(n: nat): nat {
    if n == 0 then 1 else 2 * Power(n - 1)
  }

  /** Operands without a common bit: x has its bits from n on, y below n. */
  lemma {:induction false} OrApart(x: nat, y: nat, n: nat)
    requires y < Power(n)
    ensures Or(x * Power(n), y) == x * Power(n) + y
  {
    if n == 0 {
      OrZero(x);
    } else {
      var p := Power(n - 1);
      Halves(x, p);
      if !(x * Power(n) == 0 && y == 0) { OrApart(x, y / 2, n - 1); }
    }
  }

  lemma Halves(x: nat, p: nat)
    ensures x * (2 * p) == 2 * (x * p) && x * (2 * p) / 2 == x * p && x * (2 * p) % 2 == 0
  {
  }

  lemma {:induction false} OrZero(x: nat)
    ensures Or(x, 0) == x
  {
    if x > 0 { OrZero(x / 2); }
  }

  function OrBytes(x: Byte, y: Byte): (r: Byte) {
    OrBytesFit(x, y);
    Or(x, y)
  }

  lemma OrBytesFit(x: Byte, y: Byte)
    ensures Or(x, y) < 256
  {
    assert Power(8) == 256;
    OrFits(x, y, 8);
  }

  // ---- the alphabet ------------------------------------------------------------------------

  /** Table 1 of RFC 2045: A-Z, a-z, 0-9, +, /. */
  function Alphabet(i: nat): Byte
    requires i < 64
  {
    if i < 26 then 'A' as int + i
    else if i < 52 then 'a' as int + (i - 26)
    else if i < 62 then '0' as int + (i - 52)
    else if i == 62 then '+' as int
    else '/' as int
  }

  predicate InAlphabet(c: Byte) {
    'A' as int <= c <= 'Z' as int || 'a' as int <= c <= 'z' as int || '0' as int <= c <= '9' as int
    || c == '+' as int || c == '/' as int
  }

  /** The value of an alphabet character. */
  function ValueOf(c: Byte): (i: nat)
    requires InAlphabet(c)
    ensures i < 64 && Alphabet(i) == c
  {
    if 'A' as int <= c <= 'Z' as int then c - 'A' as int
    else if 'a' as int <= c <= 'z' as int then c - 'a' as int + 26
    else if '0' as int <= c <= '9' as int then c - '0' as int + 52
    else if c == '+' as int then 62
    else 63
  }

  lemma AlphabetValues(i: nat)
    requires i < 64
    ensures InAlphabet(Alphabet(i)) && ValueOf(Alphabet(i)) == i && Alphabet(i) != PAD && Alphabet(i) < 255
  {
  }

  /** No byte 255. */
  predicate Readable(s: seq<Byte>) {
    forall k :: 0 <= k < |s| ==> s[k] < 255
  }

  /** What the decode table says of a character; its 255 entries leave out byte 255. */
  function Looked(c: Byte): Byte
    requires c < 255
  {
    if InAlphabet(c) then ValueOf(c) else BAD_VALUE
  }

  // ---- groups ----------------------------------------------------------------------------

  /** Three bytes as four characters; the last group may have one or two bytes and is padded. */
  function EncodedGroup(g: seq<Byte>): (q: seq<Byte>)
    requires 1 <= |g| <= 3
    ensures |q| == 4
  {
    if |g| == 3 then
      [Alphabet(g[0] / 4), Alphabet(g[0] % 4 * 16 + g[1] / 16), Alphabet(g[1] % 16 * 4 + g[2] / 64), Alphabet(g[2] % 64)]
    else if |g| == 2 then
      [Alphabet(g[0] / 4), Alphabet(g[0] % 4 * 16 + g[1] / 16), Alphabet(g[1] % 16 * 4), PAD]
    else
      [Alphabet(g[0] / 4), Alphabet(g[0] % 4 * 16), PAD, PAD]
  }

  /** How many bytes four characters stand for. */
  function OutSize(q: seq<Byte>): (n: nat)
    requires |q| == 4
    ensures 1 <= n <= 3
  {
    if q[3] == PAD then (if q[2] == PAD then 1 else 2) else 3
  }

  function DecodedGroup(q: seq<Byte>): (g: seq<Byte>)
    requires |q| == 4 && Readable(q)
    ensures |g| == OutSize(q)
  {
    var a, b, c, d := Looked(q[0]), Looked(q[1]), Looked(q[2]), Looked(q[3]);
    [OrBytes(ShiftLeft(a, 4), b / 16), OrBytes(ShiftLeft(b, 16), c / 4), OrBytes(ShiftLeft(c, 64), d)][..OutSize(q)]
  }

  lemma GroupsBack(g: seq<Byte>)
    requires 1 <= |g| <= 3
    ensures Readable(EncodedGroup(g)) && DecodedGroup(EncodedGroup(g)) == g
  {
    hide OrBytes, ShiftLeft, Alphabet, Looked;
    var b0, b1, b2 := g[0], if |g| > 1 then g[1] else 0, if |g| > 2 then g[2] else 0;
    SixBits(b0 / 4);
    SixBits(b0 % 4 * 16 + b1 / 16);
    SixBits(b1 % 16 * 4 + b2 / 64);
    SixBits(b2 % 64);
    Repacked(b0, b1, b2);
  }

  lemma SixBits(v: nat)
    requires v < 64
    ensures Alphabet(v) < 255 && Alphabet(v) != PAD && Looked(Alphabet(v)) == v
  {
    AlphabetValues(v);
  }

  /** Six-bit pieces packed back into bytes. */
  lemma Repacked(b0: Byte, b1: Byte, b2: Byte)
    ensures OrBytes(ShiftLeft(b0 / 4, 4), (b0 % 4 * 16 + b1 / 16) / 16) == b0
    ensures OrBytes(ShiftLeft(b0 % 4 * 16 + b1 / 16, 16), (b1 % 16 * 4 + b2 / 64) / 4) == b1
    ensures OrBytes(ShiftLeft(b1 % 16 * 4 + b2 / 64, 64), b2 % 64) == b2
  {
    FirstByte(b0, b1);
    SecondByte(b0, b1, b2);
    ThirdByte(b1, b2);
  }

  lemma FirstByte(b0: Byte, b1: Byte)
    ensures OrBytes(ShiftLeft(b0 / 4, 4), (b0 % 4 * 16 + b1 / 16) / 16) == b0
  {
    hide Or;
    assert (b0 % 4 * 16 + b1 / 16) / 16 == b0 % 4;
    assert ShiftLeft(b0 / 4, 4) == b0 / 4 * 4;
    assert Power(2) == 4;
    OrApart(b0 / 4, b0 % 4, 2);
  }

  lemma SecondByte(b0: Byte, b1: Byte, b2: Byte)
    ensures OrBytes(ShiftLeft(b0 % 4 * 16 + b1 / 16, 16), (b1 % 16 * 4 + b2 / 64) / 4) == b1
  {
    hide Or;
    assert (b1 % 16 * 4 + b2 / 64) / 4 == b1 % 16;
    assert ShiftLeft(b0 % 4 * 16 + b1 / 16, 16) == b1 / 16 * 16;
    assert Power(4) == 16;
    OrApart(b1 / 16, b1 % 16, 4);
  }

  lemma ThirdByte(b1: Byte, b2: Byte)
    ensures OrBytes(ShiftLeft(b1 % 16 * 4 + b2 / 64, 64), b2 % 64) == b2
  {
    hide Or;
    assert ShiftLeft(b1 % 16 * 4 + b2 / 64, 64) == b2 / 64 * 64;
    assert Power(6) == 64;
    OrApart(b2 / 64, b2 % 64, 6);
  }

  // ---- whole texts -------------------------------------------------------------------------

  function Eol(style: LineEnding): seq<Byte> {
    match style
    case CR => [CR_BYTE]
    case LF => [LF_BYTE]
    case CRLF => [CR_BYTE, LF_BYTE]
  }

  predicate IsEol(c: Byte) {
    c == CR_BYTE || c == LF_BYTE
  }

  function Min(a: nat, b: nat): nat {
    if a < b then a else b
  }

  /** The encoding of the rest of an input when `counter` more groups fit on the line. */
  function EncodedFrom(input: seq<Byte>, counter: nat, style: LineEnding): seq<Byte>
    decreases |input|
  {
    if input == [] then []
    else
      var n := Min(3, |input|);
      (if counter == 0 then Eol(style) else []) + EncodedGroup(input[..n])
        + EncodedFrom(input[n..], (if counter == 0 then 19 else counter) - 1, style)
  }

  /** 19 groups to a line. */
  function Encoded(input: seq<Byte>, style: LineEnding): seq<Byte> {
    EncodedFrom(input, 19, style)
  }

  /** No line is longer than 76 characters, when the first one already has `used`. */
  ghost predicate LinesFit(s: seq<Byte>, used: nat) {
    if s == [] then true
    else if IsEol(s[0]) then LinesFit(s[1..], 0)
    else used < 76 && LinesFit(s[1..], used + 1)
  }

  /** Of any 77 characters in a row, one ends a line. */
  lemma LongestLine(s: seq<Byte>, p: nat)
    requires LinesFit(s, 0) && p + 76 < |s|
    ensures exists q :: p <= q <= p + 76 && IsEol(s[q])
  {
    var q := NextEol(s, 0, p);
  }

  lemma {:induction false} NextEol(s: seq<Byte>, used: nat, p: nat) returns (q: nat)
    requires LinesFit(s, used) && used <= 76 && p + 76 < |s|
    ensures p <= q <= p + 76 && IsEol(s[q])
    decreases |s|
  {
    if p > 0 {
      q := NextEol(s[1..], if IsEol(s[0]) then 0 else used + 1, p - 1);
      q := q + 1;
    } else {
      q := FirstEol(s, used);
    }
  }

  lemma {:induction false} FirstEol(s: seq<Byte>, used: nat) returns (q: nat)
    requires LinesFit(s, used) && used <= 76 && used + |s| > 76
    ensures q < |s| && q + used <= 76 && IsEol(s[q])
    decreases |s|
  {
    if IsEol(s[0]) {
      q := 0;
    } else {
      q := FirstEol(s[1..], used + 1);
      q := q + 1;
    }
  }

  lemma GroupFits(q: seq<Byte>, rest: seq<Byte>, used: nat)
    requires |q| == 4 && (forall k :: 0 <= k < 4 ==> !IsEol(q[k])) && used <= 72 && LinesFit(rest, used + 4)
    ensures LinesFit(q + rest, used)
  {
    var s := q + rest;
    assert s[1..][1..][1..][1..] == rest;
    assert s[1..][1..][1..][0] == q[3] && s[1..][1..][0] == q[2] && s[1..][0] == q[1];
    assert LinesFit(s[1..][1..][1..], used + 3);
    assert LinesFit(s[1..][1..], used + 2);
    assert LinesFit(s[1..], used + 1);
  }

  lemma EolFits(style: LineEnding, rest: seq<Byte>, used: nat)
    requires LinesFit(rest, 0)
    ensures LinesFit(Eol(style) + rest, used)
  {
    var s := Eol(style) + rest;
    if style == CRLF {
      assert s[1..][0] == LF_BYTE && s[1..][1..] == rest;
      assert LinesFit(s[1..], 0);
    } else {
      assert s[1..] == rest;
    }
  }

  lemma GroupCharacters(g: seq<Byte>, k: nat)
    requires 1 <= |g| <= 3 && k < 4
    ensures var c := EncodedGroup(g)[k]; !IsEol(c) && c < 255 && (InAlphabet(c) || c == PAD)
    ensures InAlphabet(EncodedGroup(g)[0])
  {
  }

  lemma {:induction false} EncodedLinesFit(input: seq<Byte>, counter: nat, style: LineEnding)
    requires counter <= 19
    ensures LinesFit(EncodedFrom(input, counter, style), 4 * (19 - counter))
    decreases |input|
  {
    hide LinesFit;
    if input == [] {
      NoLines(4 * (19 - counter));
    } else {
      var n := Min(3, |input|);
      var left := if counter == 0 then 19 else counter;
      var q, rest := EncodedGroup(input[..n]), EncodedFrom(input[n..], left - 1, style);
      EncodedLinesFit(input[n..], left - 1, style);
      forall k | 0 <= k < 4 ensures !IsEol(q[k]) {
        GroupCharacters(input[..n], k);
      }
      GroupFits(q, rest, 4 * (19 - left));
      if counter == 0 {
        EolFits(style, q + rest, 76);
        assert Eol(style) + q + rest == Eol(style) + (q + rest);
      } else {
        assert [] + q + rest == q + rest;
      }
    }
  }

  lemma NoLines(used: nat)
    ensures LinesFit([], used)
  {
  }

  // ---- what decoding reads -----------------------------------------------------------------

  /** Characters that count, after the first one: the alphabet and padding. */
  predicate Counts(c: Byte) {
    InAlphabet(c) || c == PAD
  }

  /** The characters that count; a padding character at the very front does not. */
  function Significant(s: seq<Byte>): (r: seq<Byte>)
    ensures Readable(r)
  {
    if s == [] then []
    else
      var last := s[|s| - 1];
      Significant(s[..|s| - 1]) + if Counts(last) && !(|s| == 1 && last == PAD) then [last] else []
  }

  function Filtered(s: seq<Byte>): (r: seq<Byte>) {
    if s == [] then [] else Filtered(s[..|s| - 1]) + if Counts(s[|s| - 1]) then [s[|s| - 1]] else []
  }

  lemma {:induction false} SignificantIsFiltered(s: seq<Byte>)
    requires s == [] || s[0] != PAD
    ensures Significant(s) == Filtered(s)
  {
    if s != [] { SignificantIsFiltered(s[..|s| - 1]); }
  }

  lemma {:induction false} FilteredJoin(a: seq<Byte>, b: seq<Byte>)
    ensures Filtered(a + b) == Filtered(a) + Filtered(b)
  {
    if b == [] {
      assert a + b == a;
    } else {
      var n := |b| - 1;
      FilteredJoin(a, b[..n]);
      assert (a + b)[..|a + b| - 1] == a + b[..n];
    }
  }

  lemma {:induction false} AllCount(s: seq<Byte>)
    requires forall k :: 0 <= k < |s| ==> Counts(s[k])
    ensures Filtered(s) == s
  {
    if s != [] {
      AllCount(s[..|s| - 1]);
      assert s == s[..|s| - 1] + [s[|s| - 1]];
    }
  }

  lemma EolsDoNotCount(style: LineEnding)
    ensures Filtered(Eol(style)) == []
  {
    OneEol(CR_BYTE);
    OneEol(LF_BYTE);
    FilteredJoin([CR_BYTE], [LF_BYTE]);
    assert [CR_BYTE] + [LF_BYTE] == [CR_BYTE, LF_BYTE];
  }

  lemma OneEol(c: Byte)
    requires IsEol(c)
    ensures Filtered([c]) == []
  {
    assert [c][..0] == [];
  }

  /** Group by group. */
  function DecodedGroups(s: seq<Byte>): seq<Byte>
    requires Readable(s)
    decreases |s|
  {
    if |s| < 4 then [] else DecodedGroups(s[..|s| - 4]) + DecodedGroup(s[|s| - 4..])
  }

  lemma LastGroup(s: seq<Byte>, q: seq<Byte>)
    requires |q| == 4 && Readable(s) && Readable(q)
    ensures Readable(s + q) && DecodedGroups(s + q) == DecodedGroups(s) + DecodedGroup(q)
  {
    assert (s + q)[..|s + q| - 4] == s && (s + q)[|s + q| - 4..] == q;
  }

  lemma ReadableParts(s: seq<Byte>, n: nat)
    requires Readable(s) && n <= |s|
    ensures Readable(s[..n]) && Readable(s[n..])
  {
  }

  lemma {:induction false} FirstGroup(q: seq<Byte>, s: seq<Byte>)
    requires |q| == 4 && |s| % 4 == 0 && Readable(q) && Readable(s)
    ensures DecodedGroups(q + s) == DecodedGroup(q) + DecodedGroups(s)
    decreases |s|
  {
    hide DecodedGroup, DecodedGroups, Readable;
    ReadableJoin(q, s);
    NothingCounts();
    if s == [] {
      assert q + s == q && q == [] + q;
      LastGroup([], q);
      assert DecodedGroup(q) + [] == DecodedGroup(q) == [] + DecodedGroup(q);
    } else {
      var n := |s| - 4;
      ReadableParts(s, n);
      FirstGroup(q, s[..n]);
      ReadableJoin(q, s[..n]);
      assert s == s[..n] + s[n..] && q + s == (q + s[..n]) + s[n..];
      LastGroup(s[..n], s[n..]);
      LastGroup(q + s[..n], s[n..]);
    }
  }

  /** What counts of an encoded text: whole groups that decode to the input. */
  lemma {:induction false} EncodedReads(input: seq<Byte>, counter: nat, style: LineEnding)
    ensures var s := Filtered(EncodedFrom(input, counter, style));
      |s| % 4 == 0 && Readable(s) && DecodedGroups(s) == input
    decreases |input|
  {
    hide EncodedFrom, DecodedGroups, DecodedGroup, EncodedGroup, Filtered, Readable, Eol;
    EncodedUnfolds(input, counter, style);
    NothingCounts();
    if input != [] {
      var n := Min(3, |input|);
      var left := if counter == 0 then 19 else counter;
      var g, rest := input[..n], EncodedFrom(input[n..], left - 1, style);
      EncodedReads(input[n..], left - 1, style);
      GroupReads(g);
      EolsDoNotCount(style);
      FilteredParts(if counter == 0 then Eol(style) else [], EncodedGroup(g), rest);
      GroupsBack(g);
      FirstGroup(EncodedGroup(g), Filtered(rest));
      ReadableJoin(EncodedGroup(g), Filtered(rest));
      assert g + input[n..] == input;
    }
  }

  lemma ReadableJoin(a: seq<Byte>, b: seq<Byte>)
    requires Readable(a) && Readable(b)
    ensures Readable(a + b)
  {
  }

  lemma EncodedUnfolds(input: seq<Byte>, counter: nat, style: LineEnding)
    ensures input == [] ==> EncodedFrom(input, counter, style) == []
    ensures input != [] ==>
      var n := Min(3, |input|);
      EncodedFrom(input, counter, style) ==
        (if counter == 0 then Eol(style) else []) + EncodedGroup(input[..n])
          + EncodedFrom(input[n..], (if counter == 0 then 19 else counter) - 1, style)
  {
  }

  lemma FilteredParts(eol: seq<Byte>, q: seq<Byte>, rest: seq<Byte>)
    requires Filtered(eol) == [] && Filtered(q) == q
    ensures Filtered(eol + q + rest) == q + Filtered(rest)
  {
    FilteredJoin(eol, q);
    FilteredJoin(eol + q, rest);
    assert [] + q == q;
  }

  lemma NothingCounts()
    ensures Filtered([]) == [] && Readable([]) && DecodedGroups([]) == []
  {
  }

  lemma GroupReads(g: seq<Byte>)
    requires 1 <= |g| <= 3
    ensures Filtered(EncodedGroup(g)) == EncodedGroup(g)
  {
    forall k | 0 <= k < 4 ensures Counts(EncodedGroup(g)[k]) {
      GroupCharacters(g, k);
    }
    AllCount(EncodedGroup(g));
  }

  lemma {:induction false} EncodedIsPlain(input: seq<Byte>, counter: nat, style: LineEnding)
    requires counter > 0
    ensures var s := EncodedFrom(input, counter, style); s == [] || s[0] != PAD
    ensures 255 !in EncodedFrom(input, counter, style)
    decreases |input|
  {
    NoHighByte(input, counter, style);
    if input != [] {
      GroupCharacters(input[..Min(3, |input|)], 0);
    }
  }

  lemma {:induction false} NoHighByte(input: seq<Byte>, counter: nat, style: LineEnding)
    ensures 255 !in EncodedFrom(input, counter, style)
    decreases |input|
  {
    if input != [] {
      var n := Min(3, |input|);
      forall k | 0 <= k < 4 ensures EncodedGroup(input[..n])[k] < 255 {
        GroupCharacters(input[..n], k);
      }
      NoHighByte(input[n..], (if counter == 0 then 19 else counter) - 1, style);
    }
  }

  // ---- the programs ----------------------------------------------------------------------

  /** Decoded bytes, and how many characters were left over; the program throws when there are any. */
  datatype Decoding = Decoding(bytes: seq<Byte>, extra: nat)

  ghost function Decoded(text: seq<Byte>): Decoding {
    var s := Significant(text);
    Decoding(DecodedGroups(s[..|s| / 4 * 4]), |s| % 4)
  }

  /** Decoding an encoded text gives the bytes back, without an error, for every line ending. */
  lemma RoundTrip(input: seq<Byte>, style: LineEnding)
    ensures Decoded(Encoded(input, style)) == Decoding(input, 0)
    ensures 255 !in Encoded(input, style)
  {
    EncodedIsPlain(input, 19, style);
    var text := Encoded(input, style);
    SignificantIsFiltered(text);
    EncodedReads(input, 19, style);
    var s := Significant(text);
    assert |s| / 4 * 4 == |s| && s[..|s|] == s;
  }

  /** Every line of an encoded text has at most 76 characters. */
  lemma LinesOfEncoded(input: seq<Byte>, style: LineEnding, p: nat)
    requires p + 76 < |Encoded(input, style)|
    ensures exists q :: p <= q <= p + 76 && IsEol(Encoded(input, style)[q])
  {
    EncodedLinesFit(input, 19, style);
    LongestLine(Encoded(input, style), p);
  }

  class Base64 {
    const encodeTable: array<Byte>
    const decodeTable: array<Byte>
    var eolStyle: LineEnding

    ghost predicate Valid()
      reads this, encodeTable, decodeTable
    {
      && encodeTable != decodeTable && encodeTable.Length == 64 && decodeTable.Length == 255
      && (forall i :: 0 <= i < 64 ==> encodeTable[i] == Alphabet(i))
      && (forall c :: 0 <= c < 255 ==> decodeTable[c] == Looked(c))
    }

    constructor ()
      ensures Valid() && eolStyle == LF && fresh(encodeTable) && fresh(decodeTable)
    {
      encodeTable := new Byte[64] [
        65, 66, 67, 68, 69, 70, 71, 72, 73, 74, 75, 76, 77, 78, 79, 80,
        81, 82, 83, 84, 85, 86, 87, 88, 89, 90, 97, 98, 99, 100, 101, 102,
        103, 104, 105, 106, 107, 108, 109, 110, 111, 112, 113, 114, 115, 116, 117, 118,
        119, 120, 121, 122, 48, 49, 50, 51, 52, 53, 54, 55, 56, 57, 43, 47];
      decodeTable := new Byte[255];
      eolStyle := LF;
      new;
      assert forall k :: 0 <= k < 64 ==> encodeTable[k] == Alphabet(k);
      for i := 0 to 255
        invariant eolStyle == LF && encodeTable.Length == 64 && decodeTable.Length == 255 && encodeTable != decodeTable
        invariant forall k :: 0 <= k < 64 ==> encodeTable[k] == Alphabet(k)
        invariant forall c :: 0 <= c < i ==> decodeTable[c] == BAD_VALUE
      {
        decodeTable[i] := BAD_VALUE;
      }
      for i := 0 to 64
        invariant eolStyle == LF && encodeTable.Length == 64 && decodeTable.Length == 255 && encodeTable != decodeTable
        invariant forall k :: 0 <= k < 64 ==> encodeTable[k] == Alphabet(k)
        invariant forall c :: 0 <= c < 255 ==>
          decodeTable[c] == if InAlphabet(c) && ValueOf(c) < i then ValueOf(c) else BAD_VALUE
      {
        AlphabetValues(i);
        decodeTable[encodeTable[i]] := i;
      }
    }

    method SetLineEnding(style: LineEnding)
      modifies `eolStyle
      ensures eolStyle == style
    {
      eolStyle := style;
    }

    /** The bit arithmetic of one round of encode. */
    method EncodeGroup(g: seq<Byte>) returns (outbuf: seq<Byte>)
      requires Valid() && 1 <= |g| <= 3
      ensures outbuf == EncodedGroup(g)
    {
      hide OrBytes, ShiftLeft, Alphabet;
      var c1, c2 := g[0] / 4 * 4, g[0] % 4;
      var c3 := if |g| >= 2 then g[1] / 16 * 16 else 0;
      TwoAndFour(c2, c3 / 16);
      var o0, o1 := encodeTable[c1 / 4], encodeTable[OrBytes(ShiftLeft(c2, 16), c3 / 16)];
      if |g| == 1 {
        return [o0, o1, PAD, PAD];
      }
      var c4 := g[1] % 16;
      var c5 := if |g| == 3 then g[2] / 64 * 64 else 0;
      FourAndTwo(c4, c5 / 64);
      var o2 := encodeTable[OrBytes(ShiftLeft(c4, 4), c5 / 64)];
      if |g| == 2 {
        return [o0, o1, o2, PAD];
      }
      var c6 := g[2] % 64;
      return [o0, o1, o2, encodeTable[c6]];
    }

    /** Encodes the whole input; a line ends after 19 groups, if more is to come. */
    method Encode(input: seq<Byte>) returns (out: seq<Byte>)
      requires Valid()
      ensures out == Encoded(input, eolStyle)
    {
      hide EncodedFrom, EncodedGroup, Eol, Looked, Alphabet;
      out := [];
      var at, counter := 0, 19;
      var status := Min(3, |input|);
      assert input[0..] == input;
      EncodedUnfolds([], counter, eolStyle);
      while status != 0
        invariant 0 <= at <= |input| && status == Min(3, |input| - at) && 0 <= counter <= 19
        invariant out + EncodedFrom(input[at..], counter, eolStyle) == Encoded(input, eolStyle)
        decreases |input| - at
      {
        EncodedUnfolds(input[at..], counter, eolStyle);
        if counter == 0 {
          counter := 19;
          out := out + Eol(eolStyle);
        }
        counter := counter - 1;
        var outbuf := EncodeGroup(input[at..at + status]);
        out := out + outbuf;
        assert input[at..][..status] == input[at..at + status] && input[at..][status..] == input[at + status..];
        at := at + status;
        if status != 3 {
          NothingLeft(input, at, status);
          EncodedUnfolds([], counter, eolStyle);
          break;
        }
        status := Min(3, |input| - at);
      }
      EncodedUnfolds(input[|input|..], counter, eolStyle);
    }

    /** Four characters packed back into bytes. */
    method DecodeGroup(inbuf: array<Byte>) returns (outbuf: seq<Byte>)
      requires Valid() && inbuf.Length == 4 && Readable(inbuf[..])
      ensures outbuf == DecodedGroup(inbuf[..])
    {
      var outsize := 3;
      if inbuf[3] == PAD {
        if inbuf[2] == PAD {
          outsize := 1;
        } else {
          outsize := 2;
        }
      }
      var a, b, c, d := decodeTable[inbuf[0]], decodeTable[inbuf[1]], decodeTable[inbuf[2]], decodeTable[inbuf[3]];
      var c1, c2, c3, c4, c5, c6 := ShiftLeft(a, 4), b / 16, ShiftLeft(b, 16), c / 4, ShiftLeft(c, 64), d;
      outbuf := [OrBytes(c1, c2), OrBytes(c3, c4), OrBytes(c5, c6)][..outsize];
    }

    /**
     * Reads character by character; every four that count are decoded. The program throws an error
     * after the fact when `extra` characters are left over.
     */
    method Decode(input: seq<Byte>) returns (result: Decoding)
      requires Valid() && Readable(input)
      ensures result == Decoded(input)
    {
      hide Significant, DecodedGroups, DecodedGroup, Readable, Counts, Looked;
      var out: seq<Byte> := [];
      var inbuf := new Byte[4];
      var inbufPos, at, status := 0, 0, 0;
      ghost var done: seq<Byte> := [];
      StartReading(input);
      if |input| > 0 {
        inbuf[0] := input[0];
        at, status := 1, 1;
        ReadOne(input, 0);
        LookedUp(input[0]);
      }
      if status == 1 && decodeTable[inbuf[0]] != BAD_VALUE {
        inbufPos := 1;
      }
      while status != 0
        invariant inbuf.Length == 4 && 0 <= inbufPos <= 4 && 0 <= at <= |input| && status <= 1 && fresh(inbuf)
        invariant status == 0 ==> at == |input| && inbufPos < 4
        invariant status == 1 ==> at > 0
        invariant Significant(input[..at]) == done + inbuf[..inbufPos] && |done| % 4 == 0
        invariant Readable(done) && out == DecodedGroups(done)
        decreases |input| - at, status
      {
        if inbufPos == 4 {
          inbufPos := 0;
          assert inbuf[..4] == inbuf[..];
          GroupDone(done, inbuf[..]);
          var outbuf := DecodeGroup(inbuf);
          out := out + outbuf;
          done := done + inbuf[..];
        }
        if at < |input| {
          ghost var before := inbuf[..inbufPos];
          inbuf[inbufPos] := input[at];
          at, status := at + 1, 1;
          ReadOne(input, at - 1);
          LookedUp(input[at - 1]);
          assert inbuf[..inbufPos] == before && inbuf[..inbufPos + 1] == before + [input[at - 1]];
        } else {
          status := 0;
        }
        if status != 0 && (decodeTable[inbuf[inbufPos]] != BAD_VALUE || inbuf[inbufPos] == PAD) {
          inbufPos := inbufPos + 1;
        }
      }
      assert input[..at] == input;
      result := Decoding(out, inbufPos);
      AllRead(input, done, inbuf[..inbufPos]);
    }
  }

  lemma NothingLeft(input: seq<Byte>, at: nat, status: nat)
    requires status <= at <= |input| && status != 3 && status == Min(3, |input| - (at - status))
    ensures input[at..] == []
  {
  }

  /** Two bits put above four, and four above two. */
  lemma TwoAndFour(x: Byte, y: Byte)
    requires x < 4 && y < 16
    ensures OrBytes(ShiftLeft(x, 16), y) == x * 16 + y
  {
    hide Or;
    assert Power(4) == 16;
    OrApart(x, y, 4);
  }

  lemma FourAndTwo(x: Byte, y: Byte)
    requires x < 16 && y < 4
    ensures OrBytes(ShiftLeft(x, 4), y) == x * 4 + y
  {
    hide Or;
    assert Power(2) == 4;
    OrApart(x, y, 2);
  }

  lemma StartReading(input: seq<Byte>)
    ensures Significant(input[..0]) == [] && Readable([]) && DecodedGroups([]) == []
  {
  }

  lemma LookedUp(c: Byte)
    requires c < 255
    ensures Counts(c) <==> Looked(c) != BAD_VALUE || c == PAD
    ensures c == PAD ==> Looked(c) == BAD_VALUE
  {
  }

  lemma ReadOne(input: seq<Byte>, k: nat)
    requires k < |input| && Readable(input)
    ensures input[k] < 255
    ensures Significant(input[..k + 1]) ==
      Significant(input[..k]) + if Counts(input[k]) && !(k == 0 && input[k] == PAD) then [input[k]] else []
  {
    assert input[..k + 1][..k] == input[..k];
  }

  lemma GroupDone(done: seq<Byte>, q: seq<Byte>)
    requires |q| == 4 && Readable(done + q)
    ensures Readable(done) && Readable(q)
    ensures DecodedGroups(done + q) == DecodedGroups(done) + DecodedGroup(q)
  {
    forall k | 0 <= k < 4 ensures q[k] < 255 {
      assert (done + q)[|done| + k] == q[k];
    }
    forall k | 0 <= k < |done| ensures done[k] < 255 {
      assert (done + q)[k] == done[k];
    }
    assert (done + q)[..|done + q| - 4] == done && (done + q)[|done + q| - 4..] == q;
  }

  lemma AllRead(input: seq<Byte>, done: seq<Byte>, rest: seq<Byte>)
    requires Significant(input) == done + rest && |done| % 4 == 0 && |rest| < 4 && Readable(done)
    ensures Decoded(input) == Decoding(DecodedGroups(done), |rest|)
  {
    hide DecodedGroups, Readable;
    var s := Significant(input);
    WholeGroups(|done|, |rest|);
    assert s[..|done|] == done;
  }

  lemma WholeGroups(n: nat, m: nat)
    requires n % 4 == 0 && m < 4
    ensures (n + m) / 4 * 4 == n && (n + m) % 4 == m
  {
  }
}
