/**
  The hexadecimal transcription of an image payload that RtfImage.extractImage
  produces: every byte becomes two lower-case, zero-padded hex digits, and a
  line break is written before the digits of byte i whenever i != 0 and
  i % 60 == 0, that is, after every 60 bytes (120 characters).

  The line break is the platform's Environment.NewLine, kept abstract here as
  the parameter `nl`.
*/
module HexPayload {
  import opened Wrappers

  type byte = b: int | 0 <= b < 256

  /** Number of payload bytes written on one line. */
  const BytesPerLine: nat := 60

  const LowerHexDigits: string := "0123456789abcdef"

  predicate IsLowerHexDigit(c: char) {
    c in LowerHexDigits
  }

  /** Value of a hex digit character; upper-case digits are accepted too. */
  function DigitValue(c: char): (r: Option<nat>)
    ensures r.Some? ==> r.value < 16
  {
    if '0' <= c <= '9' then Some(c as int - '0' as int)
    else if 'a' <= c <= 'f' then Some(c as int - 'a' as int + 10)
    else if 'A' <= c <= 'F' then Some(c as int - 'A' as int + 10)
    else None
  }

  function HexDigit(d: nat): char
    requires d < 16
  {
    LowerHexDigits[d]
  }

  lemma HexDigitValue(d: nat)
    requires d < 16
    ensures IsLowerHexDigit(HexDigit(d))
    ensures DigitValue(HexDigit(d)) == Some(d)
  {
  }

  /** The format "{0:x2}" applied to one byte. */
  function ByteHex(v: byte): (r: string)
    ensures |r| == 2
  {
    [HexDigit(v / 16), HexDigit(v % 16)]
  }

  /** Each byte is written as two lower-case digits whose value is the byte. */
  lemma ByteHexDigits(v: byte)
    ensures IsLowerHexDigit(ByteHex(v)[0]) && IsLowerHexDigit(ByteHex(v)[1])
    ensures DigitValue(ByteHex(v)[0]).Some? && DigitValue(ByteHex(v)[1]).Some?
    ensures DigitValue(ByteHex(v)[0]).value * 16 + DigitValue(ByteHex(v)[1]).value == v
  {
    var hi, lo := v / 16, v % 16;
    HexDigitValue(hi);
    HexDigitValue(lo);
    assert hi * 16 + lo == v;
  }

  /** The line break the loop writes before byte i: one at each non-zero multiple of 60. */
  function Break(i: nat, nl: string): string {
    if i != 0 && i % BytesPerLine == 0 then nl else []
  }

  /** What iteration i of the loop appends: an optional break, then the digits of byte i. */
  function Piece(b: seq<byte>, i: nat, nl: string): string
    requires i < |b|
  {
    Break(i, nl) + ByteHex(b[i])
  }

  /** The text built by the first k iterations of the loop in extractImage. */
  function EncodePrefix(b: seq<byte>, k: nat, nl: string): string
    requires k <= |b|
  {
    if k == 0 then [] else EncodePrefix(b, k - 1, nl) + Piece(b, k - 1, nl)
  }

  /** The whole text returned by extractImage. */
  function Encode(b: seq<byte>, nl: string): string {
    EncodePrefix(b, |b|, nl)
  }

  // ---------------------------------------------------------------------------
  // Reference layout: rows of at most 60 bytes, joined by line breaks.

  /** The digits of a byte sequence with no line break at all. */
  function Pairs(b: seq<byte>): (r: string)
    ensures |r| == 2 * |b|
  {
    if b == [] then [] else ByteHex(b[0]) + Pairs(b[1..])
  }

  /** The payload cut into rows of BytesPerLine bytes; only the last row may be shorter. */
  function Rows(b: seq<byte>): seq<seq<byte>> {
    if b == [] then []
    else if |b| <= BytesPerLine then [b]
    else [b[..BytesPerLine]] + Rows(b[BytesPerLine..])
  }

  function Flatten(rows: seq<seq<byte>>): seq<byte> {
    if rows == [] then [] else rows[0] + Flatten(rows[1..])
  }

  /** The rows' digits with one `nl` between consecutive rows and none at either end. */
  function JoinRows(rows: seq<seq<byte>>, nl: string): string {
    if rows == [] then []
    else if |rows| == 1 then Pairs(rows[0])
    else Pairs(rows[0]) + nl + JoinRows(rows[1..], nl)
  }

  // ---------------------------------------------------------------------------
  // Decoding.

  /** Removes every character of the line break from a text. */
  function Strip(s: string, nl: string): (r: string)
    ensures |r| <= |s|
  {
    if s == [] then []
    else (if s[0] in nl then [] else [s[0]]) + Strip(s[1..], nl)
  }

  /** Hex-decodes a text without line breaks; fails on an odd length or a non-digit. */
  function DecodeHex(s: string): Option<seq<byte>> {
    if s == [] then Some([])
    else if |s| == 1 then None
    else
      var hi, lo, rest := DigitValue(s[0]), DigitValue(s[1]), DecodeHex(s[2..]);
      if hi.None? || lo.None? || rest.None? then None
      else Some([hi.value * 16 + lo.value] + rest.value)
  }

  /** A line break that can be told apart from the digits. */
  predicate IsLineBreak(nl: string) {
    forall c :: c in nl ==> DigitValue(c).None?
  }

  // ---------------------------------------------------------------------------
  // Lemmas.

  /** A prefix is the shorter prefix followed by its last element. */
  lemma TakeLast<T>(b: seq<T>, k: nat)
    requires 0 < k <= |b|
    ensures b[..k] == b[..k - 1] + [b[k - 1]]
  {
  }

  /** A non-empty sequence is its first element followed by the rest. */
  lemma ConsFirst<T>(b: seq<T>)
    requires b != []
    ensures [b[0]] + b[1..] == b
  {
  }

  lemma {:induction false} PairsAppend(b: seq<byte>, v: byte)
    ensures Pairs(b + [v]) == Pairs(b) + ByteHex(v)
  {
    if b == [] {
      assert Pairs([v]) == ByteHex(v) + Pairs([]);
    } else {
      assert (b + [v])[1..] == b[1..] + [v];
      PairsAppend(b[1..], v);
    }
  }

  /** Without its line breaks, the first k iterations have written exactly the digits of b[..k]. */
  lemma {:induction false} StripEncodePrefix(b: seq<byte>, k: nat, nl: string)
    requires k <= |b|
    requires IsLineBreak(nl)
    ensures Strip(EncodePrefix(b, k, nl), nl) == Pairs(b[..k])
  {
    if k > 0 {
      StripEncodePrefix(b, k - 1, nl);
      StripConcat(EncodePrefix(b, k - 1, nl), Piece(b, k - 1, nl), nl);
      StripPiece(b, k - 1, nl);
      TakeLast(b, k);
      PairsAppend(b[..k - 1], b[k - 1]);
    }
  }

  /** Without its line breaks, the piece of byte i is just the byte's two digits. */
  lemma StripPiece(b: seq<byte>, i: nat, nl: string)
    requires i < |b|
    requires IsLineBreak(nl)
    ensures Strip(Piece(b, i, nl), nl) == ByteHex(b[i])
  {
    StripConcat(Break(i, nl), ByteHex(b[i]), nl);
    StripBreak(Break(i, nl), nl);
    ByteHexDigits(b[i]);
    StripDigits(ByteHex(b[i]), nl);
  }

  lemma {:induction false} StripConcat(s: string, t: string, nl: string)
    ensures Strip(s + t, nl) == Strip(s, nl) + Strip(t, nl)
  {
    if s == [] {
      assert s + t == t;
    } else {
      assert (s + t)[1..] == s[1..] + t;
      StripConcat(s[1..], t, nl);
    }
  }

  lemma {:induction false} StripBreak(s: string, nl: string)
    requires s == [] || s == nl
    ensures Strip(s, nl) == []
  {
    if s != [] {
      StripOwnChars(nl, nl);
    }
  }

  lemma {:induction false} StripOwnChars(s: string, nl: string)
    requires forall c :: c in s ==> c in nl
    ensures Strip(s, nl) == []
  {
    if s != [] {
      StripOwnChars(s[1..], nl);
    }
  }

  lemma StripDigits(s: string, nl: string)
    requires IsLineBreak(nl)
    requires |s| == 2 && DigitValue(s[0]).Some? && DigitValue(s[1]).Some?
    ensures Strip(s, nl) == s
  {
    assert s[1..][1..] == [];
  }

  /** Decoding a text that starts with two digits: their byte, then the rest decoded. */
  lemma DecodeHexCons(h: string, rest: string, v: nat, t: seq<byte>)
    requires |h| == 2 && DigitValue(h[0]).Some? && DigitValue(h[1]).Some?
    requires DigitValue(h[0]).value * 16 + DigitValue(h[1]).value == v
    requires DecodeHex(rest) == Some(t)
    ensures DecodeHex(h + rest) == Some([v] + t)
  {
    var s := h + rest;
    assert s[0] == h[0] && s[1] == h[1] && s[2..] == rest;
  }

  /** The two digits of a byte decode back to it. */
  lemma DecodeByteHex(v: byte, rest: string, t: seq<byte>)
    requires DecodeHex(rest) == Some(t)
    ensures DecodeHex(ByteHex(v) + rest) == Some([v] + t)
  {
    ByteHexDigits(v);
    DecodeHexCons(ByteHex(v), rest, v, t);
  }

  lemma {:induction false} DecodePairs(b: seq<byte>)
    ensures DecodeHex(Pairs(b)) == Some(b)
  {
    if b != [] {
      assert Pairs(b) == ByteHex(b[0]) + Pairs(b[1..]);
      DecodePairs(b[1..]);
      DecodeByteHex(b[0], Pairs(b[1..]), b[1..]);
      ConsFirst(b);
    }
  }

  /** No break is written inside the first row. */
  lemma NoBreakInFirstRow(i: nat, nl: string)
    requires i < BytesPerLine
    ensures Break(i, nl) == []
  {
    assert i != 0 ==> i % BytesPerLine == i;
  }

  /**
    Round trip: once the line breaks are removed, the text is exactly twice as
    long as the payload and hex-decodes to the payload.
  */
  lemma EncodeRoundTrip(b: seq<byte>, nl: string)
    requires IsLineBreak(nl)
    ensures |Strip(Encode(b, nl), nl)| == 2 * |b|
    ensures DecodeHex(Strip(Encode(b, nl), nl)) == Some(b)
  {
    StripEncodePrefix(b, |b|, nl);
    assert b[..|b|] == b;
    DecodePairs(b);
  }

  /** Every character of the text is a lower-case hex digit or a character of the line break. */
  lemma {:induction false} EncodePrefixAlphabet(b: seq<byte>, k: nat, nl: string)
    requires k <= |b|
    ensures forall c :: c in EncodePrefix(b, k, nl) ==> IsLowerHexDigit(c) || c in nl
  {
    if k > 0 {
      EncodePrefixAlphabet(b, k - 1, nl);
      ByteHexDigits(b[k - 1]);
      var h := ByteHex(b[k - 1]);
      assert forall c :: c in h ==> c == h[0] || c == h[1];
    }
  }

  lemma EncodeAlphabet(b: seq<byte>, nl: string)
    ensures forall c :: c in Encode(b, nl) ==> IsLowerHexDigit(c) || c in nl
  {
    EncodePrefixAlphabet(b, |b|, nl);
  }

  /** Distinct payloads give distinct texts. */
  lemma EncodeInjective(b1: seq<byte>, b2: seq<byte>, nl: string)
    requires IsLineBreak(nl)
    requires Encode(b1, nl) == Encode(b2, nl)
    ensures b1 == b2
  {
    EncodeRoundTrip(b1, nl);
    EncodeRoundTrip(b2, nl);
  }

  lemma EncodeEmpty(nl: string)
    ensures Encode([], nl) == []
  {
  }

  /**
    The total length: two characters per byte plus one break per completed row
    of 60 bytes that is followed by another byte, (n - 1) / 60 breaks in all.
  */
  lemma {:induction false} EncodePrefixLength(b: seq<byte>, k: nat, nl: string)
    requires 0 < k <= |b|
    ensures |EncodePrefix(b, k, nl)| == 2 * k + ((k - 1) / BytesPerLine) * |nl|
  {
    if k > 1 {
      EncodePrefixLength(b, k - 1, nl);
      var i := k - 1;
      assert i % BytesPerLine == 0 ==> (k - 1) / BytesPerLine == (k - 2) / BytesPerLine + 1;
      assert i % BytesPerLine != 0 ==> (k - 1) / BytesPerLine == (k - 2) / BytesPerLine;
    }
  }

  lemma EncodeLength(b: seq<byte>, nl: string)
    ensures b == [] ==> Encode(b, nl) == []
    ensures b != [] ==> |Encode(b, nl)| == 2 * |b| + ((|b| - 1) / BytesPerLine) * |nl|
  {
    if b != [] {
      EncodePrefixLength(b, |b|, nl);
    }
  }

  /** The text never begins or ends with a break: it begins and ends with byte digits. */
  lemma {:induction false} EncodePrefixStarts(b: seq<byte>, k: nat, nl: string)
    requires 0 < k <= |b|
    ensures |EncodePrefix(b, k, nl)| >= 2
    ensures EncodePrefix(b, k, nl)[..2] == ByteHex(b[0])
  {
    if k > 1 {
      EncodePrefixStarts(b, k - 1, nl);
      var p := EncodePrefix(b, k - 1, nl);
      assert (p + Piece(b, k - 1, nl))[..2] == p[..2];
    }
  }

  lemma NoBreakAtEnds(b: seq<byte>, nl: string)
    requires b != []
    ensures |Encode(b, nl)| >= 2
    ensures Encode(b, nl)[..2] == ByteHex(b[0])
    ensures Encode(b, nl)[|Encode(b, nl)| - 2..] == ByteHex(b[|b| - 1])
  {
    EncodePrefixStarts(b, |b|, nl);
    var p := EncodePrefix(b, |b| - 1, nl);
    var q := Break(|b| - 1, nl);
    assert Encode(b, nl) == p + (q + ByteHex(b[|b| - 1]));
  }

  /**
    Where the breaks go, relative to a row boundary m (a multiple of 60): the
    text of the first m + j bytes is the text of the first m bytes, a break
    when both parts are non-empty, and then the text the rest would have on
    its own.
  */
  lemma {:induction false} EncodeSplit(b: seq<byte>, m: nat, j: nat, nl: string)
    requires m % BytesPerLine == 0 && m + j <= |b|
    requires j > 0
    ensures EncodePrefix(b, m + j, nl)
         == EncodePrefix(b, m, nl) + Break(m, nl) + EncodePrefix(b[m..], j, nl)
    decreases j, 1
  {
    if j == 1 {
      EncodeSplitFirst(b, m, nl);
    } else {
      EncodeSplitStep(b, m, j - 1, nl);
    }
  }

  /** A byte past the first of a row-aligned suffix gets the same piece in the suffix. */
  lemma PieceShift(b: seq<byte>, m: nat, j: nat, nl: string)
    requires m % BytesPerLine == 0 && 0 < j && m + j < |b|
    ensures Piece(b, m + j, nl) == Piece(b[m..], j, nl)
  {
    assert b[m..][j] == b[m + j];
    assert (m + j) % BytesPerLine == j % BytesPerLine;
  }

  lemma EncodeSplitFirst(b: seq<byte>, m: nat, nl: string)
    requires m % BytesPerLine == 0 && m < |b|
    ensures EncodePrefix(b, m + 1, nl)
         == EncodePrefix(b, m, nl) + Break(m, nl) + EncodePrefix(b[m..], 1, nl)
  {
    var a, y, h := EncodePrefix(b, m, nl), Break(m, nl), ByteHex(b[m]);
    assert b[m..][0] == b[m];
    assert EncodePrefix(b[m..], 1, nl) == [] + h;
    assert EncodePrefix(b, m + 1, nl) == a + (y + h);
    assert a + (y + h) == a + y + ([] + h);
  }

  /** One more piece on both sides of an equation between texts. */
  lemma AppendBoth(x: string, e: string, p: string, q: string, a: string, a2: string, e2: string)
    requires a == x + e
    requires a2 == a + q
    requires q == p
    requires e2 == e + p
    ensures a2 == x + e2
  {
  }

  lemma {:induction false} EncodeSplitStep(b: seq<byte>, m: nat, i: nat, nl: string)
    requires m % BytesPerLine == 0 && 0 < i && m + i + 1 <= |b|
    ensures EncodePrefix(b, m + i + 1, nl)
         == EncodePrefix(b, m, nl) + Break(m, nl) + EncodePrefix(b[m..], i + 1, nl)
    decreases i + 1, 0
  {
    var x, e := EncodePrefix(b, m, nl) + Break(m, nl), EncodePrefix(b[m..], i, nl);
    var p, q := Piece(b[m..], i, nl), Piece(b, m + i, nl);
    var a, a2, e2 := EncodePrefix(b, m + i, nl), EncodePrefix(b, m + i + 1, nl), EncodePrefix(b[m..], i + 1, nl);
    assert a == x + e by { EncodeSplit(b, m, i, nl); }
    assert q == p by { PieceShift(b, m, i, nl); }
    AppendBoth(x, e, p, q, a, a2, e2);
  }

  /** Fewer than 61 bytes fit on one line: no break at all. */
  lemma {:induction false} EncodePrefixOneRow(b: seq<byte>, k: nat, nl: string)
    requires k <= |b| && k <= BytesPerLine
    ensures EncodePrefix(b, k, nl) == Pairs(b[..k])
  {
    if k > 0 {
      EncodePrefixOneRow(b, k - 1, nl);
      var h := ByteHex(b[k - 1]);
      assert Piece(b, k - 1, nl) == h by {
        NoBreakInFirstRow(k - 1, nl);
        assert [] + h == h;
      }
      TakeLast(b, k);
      PairsAppend(b[..k - 1], b[k - 1]);
    }
  }

  /** The loop's text equals the reference layout: rows of 60 bytes joined by breaks. */
  lemma {:induction false} EncodeIsRows(b: seq<byte>, nl: string)
    ensures Encode(b, nl) == JoinRows(Rows(b), nl)
    decreases |b|
  {
    if b == [] {
    } else if |b| <= BytesPerLine {
      EncodePrefixOneRow(b, |b|, nl);
      assert b[..|b|] == b;
    } else {
      var n := |b| - BytesPerLine;
      EncodeSplit(b, BytesPerLine, n, nl);
      EncodePrefixOneRow(b, BytesPerLine, nl);
      EncodeIsRows(b[BytesPerLine..], nl);
      assert |Rows(b[BytesPerLine..])| > 0;
    }
  }

  /** Rows partition the payload: all rows hold 60 bytes except the last, which holds 1 to 60. */
  lemma {:induction false} RowsShape(b: seq<byte>)
    ensures Flatten(Rows(b)) == b
    ensures |Rows(b)| == (|b| + BytesPerLine - 1) / BytesPerLine
    ensures forall r :: 0 <= r < |Rows(b)| - 1 ==> |Rows(b)[r]| == BytesPerLine
    ensures Rows(b) != [] ==> 0 < |Rows(b)[|Rows(b)| - 1]| <= BytesPerLine
    decreases |b|
  {
    if |b| > BytesPerLine {
      var rest := b[BytesPerLine..];
      RowsShape(rest);
      assert Rows(b)[1..] == Rows(rest);
      assert b[..BytesPerLine] + rest == b;
    }
  }

  /** The example payload [0x01, 0x02, 0x03] is written "010203" without a break. */
  lemma ThreeBytes(nl: string)
    ensures Encode([1, 2, 3], nl) == "010203"
  {
    var b: seq<byte> := [1, 2, 3];
    assert EncodePrefix(b, 1, nl) == "01";
    assert EncodePrefix(b, 2, nl) == "0102";
  }
}
