/**
  JSON as RFC 8259 writes it: characters raw or escaped in any of their forms, numerals, words,
  lists and records, and white space around every token. A spelling has a text and a meaning; the
  parser reads a text as a value exactly when some spelling has that text and that meaning.
*/
module JsonSpelling {
  import opened Bytes
  import opened Json
  import opened JsonStability
  import opened JsonPrinter
  import opened JsonRoundTrip

  // ---- characters

  predicate IsTail(c: byte) { 0x80 <= c < 0xC0 }

  predicate IsScalar(code: nat) { code < 0xD800 || 0xE000 <= code < 0x110000 }

  /** The scalar value these bytes encode, if they are one well-formed sequence (section 3 of RFC 3629). */
  function Decode(b: Octets): (r: Option<nat>)
    ensures r.Some? ==> IsScalar(r.value)
  {
    if |b| == 1 && b[0] < 0x80 then Some(b[0] as nat)
    else if |b| == 2 && 0xC2 <= b[0] < 0xE0 && IsTail(b[1]) then
      Some((b[0] as nat - 0xC0) * 64 + (b[1] as nat - 0x80))
    else if |b| == 3 && 0xE0 <= b[0] < 0xF0 && IsTail(b[1]) && IsTail(b[2]) then
      var code := ((b[0] as nat - 0xE0) * 64 + (b[1] as nat - 0x80)) * 64 + (b[2] as nat - 0x80);
      if 0x800 <= code && IsScalar(code) then Some(code) else None
    else if |b| == 4 && 0xF0 <= b[0] < 0xF8 && IsTail(b[1]) && IsTail(b[2]) && IsTail(b[3]) then
      var code := (((b[0] as nat - 0xF0) * 64 + (b[1] as nat - 0x80)) * 64 + (b[2] as nat - 0x80)) * 64 + (b[3] as nat - 0x80);
      if 0x10000 <= code < 0x110000 then Some(code) else None
    else None
  }

  /** The bytes an escape stands for are the one encoding of its character. */
  lemma Utf8Iff(code: nat, b: Octets)
    requires IsScalar(code)
    ensures b == Utf8(code) <==> Decode(b) == Some(code)
  {
    hide Decode, Utf8;
    Decoded(code);
    if Decode(b) == Some(code) {
      Reencoded(code, b);
    }
  }

  /** Six bits at a time. */
  lemma Sextets(code: nat)
    ensures code == code / 64 * 64 + code % 64
    ensures code / 0x1000 == code / 64 / 64 && code / 0x40000 == code / 64 / 64 / 64
  {}

  lemma Decoded(code: nat)
    requires IsScalar(code)
    ensures Decode(Utf8(code)) == Some(code)
  {
    Sextets(code);
    Sextets(code / 64);
    Sextets(code / 0x1000);
  }

  lemma Reencoded(code: nat, b: Octets)
    requires Decode(b) == Some(code)
    ensures b == Utf8(code)
  {
    hide Utf8;
    if |b| == 1 {
      OneByte(code);
    } else if |b| == 2 {
      TwoBytes(code, b[0] as nat - 0xC0, b[1] as nat - 0x80);
    } else if |b| == 3 {
      ThreeBytes(code, b[0] as nat - 0xE0, b[1] as nat - 0x80, b[2] as nat - 0x80);
    } else {
      FourBytes(code, b[0] as nat - 0xF0, b[1] as nat - 0x80, b[2] as nat - 0x80, b[3] as nat - 0x80);
    }
  }

  lemma OneByte(code: nat)
    requires code < 0x80
    ensures Utf8(code) == [code as byte]
  {}

  lemma TwoBytes(code: nat, c0: nat, c1: nat)
    requires 2 <= c0 < 32 && c1 < 64 && code == c0 * 64 + c1
    ensures Utf8(code) == [(0xC0 + c0) as byte, (0x80 + c1) as byte]
  {
    Unpacked(code, c0, c1);
  }

  lemma ThreeBytes(code: nat, c0: nat, c1: nat, c2: nat)
    requires c0 < 16 && c1 < 64 && c2 < 64 && code == (c0 * 64 + c1) * 64 + c2 && code >= 0x800
    ensures Utf8(code) == [(0xE0 + c0) as byte, (0x80 + c1) as byte, (0x80 + c2) as byte]
  {
    Unpacked(code, c0 * 64 + c1, c2);
    Unpacked(c0 * 64 + c1, c0, c1);
    Sextets(code);
  }

  lemma FourBytes(code: nat, c0: nat, c1: nat, c2: nat, c3: nat)
    requires c0 < 8 && c1 < 64 && c2 < 64 && c3 < 64 && code == ((c0 * 64 + c1) * 64 + c2) * 64 + c3
    requires 0x10000 <= code < 0x110000
    ensures Utf8(code) == [(0xF0 + c0) as byte, (0x80 + c1) as byte, (0x80 + c2) as byte, (0x80 + c3) as byte]
  {
    Unpacked(code, (c0 * 64 + c1) * 64 + c2, c3);
    Unpacked((c0 * 64 + c1) * 64 + c2, c0 * 64 + c1, c2);
    Unpacked(c0 * 64 + c1, c0, c1);
    Sextets(code);
  }

  lemma Unpacked(code: nat, high: nat, low: nat)
    requires low < 64 && code == high * 64 + low
    ensures code / 64 == high && code % 64 == low
  {}

  // ---- strings

  /** One character of a string: as it is, by a letter, or by one or two groups of four hexadecimal digits. */
  datatype Piece =
    | Raw(octet: byte)
    | Short(letter: char)
    | Escape(octets: Octets, upper: seq<bool>)

  function ShortMeaning(letter: char): Option<byte> {
    match letter
    case '\"' => Some(0x22)
    case '\\' => Some(0x5C)
    case '/' => Some(0x2F)
    case 'b' => Some(0x08)
    case 'f' => Some(0x0C)
    case 'n' => Some(0x0A)
    case 'r' => Some(0x0D)
    case 't' => Some(0x09)
    case _ => None
  }

  predicate ValidPiece(p: Piece) {
    match p
    case Raw(octet) => 0x20 <= octet && octet != 0x22 && octet != 0x5C
    case Short(letter) => ShortMeaning(letter).Some?
    case Escape(octets, upper) => Decode(octets).Some? && |upper| == 8
  }

  /** A hexadecimal digit, in either case. */
  function HexLetter(n: nat, upper: bool): byte
    requires n < 16
  {
    (if upper then "0123456789ABCDEF" else "0123456789abcdef")[n] as int as byte
  }

  /** `\u` and four digits. */
  function UnitText(unit: nat, upper: seq<bool>): (r: Octets)
    requires unit < 0x10000 && |upper| == 4
    ensures |r| == 6
  {
    [0x5C, 0x75, HexLetter(unit / 4096, upper[0]), HexLetter(unit / 256 % 16, upper[1]),
     HexLetter(unit / 16 % 16, upper[2]), HexLetter(unit % 16, upper[3])]
  }

  function PieceText(p: Piece): (r: Octets)
    requires ValidPiece(p)
    ensures r != []
  {
    match p
    case Raw(octet) => [octet]
    case Short(letter) => [0x5C, letter as int as byte]
    case Escape(octets, upper) =>
      var code := Decode(octets).value;
      if code < 0x10000 then UnitText(code, upper[..4])
      else UnitText(0xD800 + (code - 0x10000) / 1024, upper[..4]) + UnitText(0xDC00 + (code - 0x10000) % 1024, upper[4..])
  }

  function PieceMeaning(p: Piece): Octets
    requires ValidPiece(p)
  {
    match p
    case Raw(octet) => [octet]
    case Short(letter) => [ShortMeaning(letter).value]
    case Escape(octets, _) => octets
  }

  lemma HexLetterValue(n: nat, upper: bool)
    requires n < 16
    ensures HexValue(HexLetter(n, upper)) == Some(n)
  {
    assert n in [0, 1, 2, 3, 4, 5, 6, 7, 8, 9, 10, 11, 12, 13, 14, 15];
  }

  lemma HexValueLetter(c: byte) returns (upper: bool)
    requires HexValue(c).Some?
    ensures HexValue(c).value < 16 && HexLetter(HexValue(c).value, upper) == c
  {
    upper := c < 0x61;
    var n := HexValue(c).value;
    assert n in [0, 1, 2, 3, 4, 5, 6, 7, 8, 9, 10, 11, 12, 13, 14, 15];
  }

  /** Four spelt digits are read as their number. */
  lemma UnitSpelt(unit: nat, upper: seq<bool>, b: Octets, i: nat)
    requires unit < 0x10000 && |upper| == 4 && Occurs(b, i, UnitText(unit, upper))
    ensures i + 6 <= |b| && b[i] == BACKSLASH && b[i + 1] == 0x75 && Hex4(b, i + 2) == Some(unit)
  {
    hide HexLetter, HexValue, Occurs;
    var text := UnitText(unit, upper);
    OccursSlice(b, i, text);
    assert b[i..i + 6] == text;
    assert text == [b[i], b[i + 1], b[i + 2], b[i + 3], b[i + 4], b[i + 5]];
    assert b[i] == text[0] && b[i + 1] == text[1];
    FourLetters(unit, upper, b[i + 2], b[i + 3], b[i + 4], b[i + 5]);
  }

  lemma FourLetters(unit: nat, upper: seq<bool>, c0: byte, c1: byte, c2: byte, c3: byte)
    requires unit < 0x10000 && |upper| == 4
    requires UnitText(unit, upper) == [0x5C, 0x75, c0, c1, c2, c3]
    ensures HexValue(c0).Some? && HexValue(c1).Some? && HexValue(c2).Some? && HexValue(c3).Some?
    ensures unit == ((HexValue(c0).value * 16 + HexValue(c1).value) * 16 + HexValue(c2).value) * 16 + HexValue(c3).value
  {
    hide HexLetter, HexValue;
    HexLetterValue(unit / 4096, upper[0]);
    HexLetterValue(unit / 256 % 16, upper[1]);
    HexLetterValue(unit / 16 % 16, upper[2]);
    HexLetterValue(unit % 16, upper[3]);
    var text := UnitText(unit, upper);
    assert c0 == text[2] && c1 == text[3] && c2 == text[4] && c3 == text[5];
  }

  lemma SpellUnit(b: Octets, i: nat) returns (upper: seq<bool>)
    requires i + 6 <= |b| && b[i] == BACKSLASH && b[i + 1] == 0x75 && Hex4(b, i + 2).Some?
    ensures |upper| == 4 && Occurs(b, i, UnitText(Hex4(b, i + 2).value, upper))
  {
    hide HexLetter, HexValue, Occurs;
    var u0 := HexValueLetter(b[i + 2]);
    var u1 := HexValueLetter(b[i + 3]);
    var u2 := HexValueLetter(b[i + 4]);
    var u3 := HexValueLetter(b[i + 5]);
    upper := [u0, u1, u2, u3];
    var unit := Hex4(b, i + 2).value;
    Digits16(HexValue(b[i + 2]).value, HexValue(b[i + 3]).value, HexValue(b[i + 4]).value, HexValue(b[i + 5]).value);
    assert b[i..i + 6] == UnitText(unit, upper);
    OccursSlice(b, i, UnitText(unit, upper));
  }

  lemma Digits16(h0: nat, h1: nat, h2: nat, h3: nat)
    requires h0 < 16 && h1 < 16 && h2 < 16 && h3 < 16
    ensures var unit := ((h0 * 16 + h1) * 16 + h2) * 16 + h3;
            unit / 4096 == h0 && unit / 256 % 16 == h1 && unit / 16 % 16 == h2 && unit % 16 == h3
  {
    var unit := ((h0 * 16 + h1) * 16 + h2) * 16 + h3;
    assert unit / 16 == (h0 * 16 + h1) * 16 + h2;
    assert unit / 256 == h0 * 16 + h1;
  }

  lemma PieceSpelt(p: Piece, b: Octets, i: nat)
    requires ValidPiece(p) && Occurs(b, i, PieceText(p))
    ensures i < |b| && b[i] != QUOTE && ParseChar(b, i) == Some((PieceMeaning(p), i + |PieceText(p)|))
  {
    hide Occurs, UnitText, Decode, Utf8, Hex4;
    OccursAt(b, i, PieceText(p), 0);
    match p
    case Raw(octet) =>
    case Short(letter) => OccursAt(b, i, PieceText(p), 1);
    case Escape(octets, upper) => EscapeSpelt(octets, upper, b, i);
  }

  lemma EscapeSpelt(octets: Octets, upper: seq<bool>, b: Octets, i: nat)
    requires ValidPiece(Escape(octets, upper)) && Occurs(b, i, PieceText(Escape(octets, upper)))
    ensures i < |b| && b[i] == BACKSLASH
    ensures ParseEscape(b, i) == Some((octets, i + |PieceText(Escape(octets, upper))|))
  {
    hide Occurs, UnitText, Decode, Utf8, Hex4;
    var code := Decode(octets).value;
    Utf8Iff(code, octets);
    if code < 0x10000 {
      UnitSpelt(code, upper[..4], b, i);
    } else {
      var high, low := 0xD800 + (code - 0x10000) / 1024, 0xDC00 + (code - 0x10000) % 1024;
      OccursSplit(b, i, UnitText(high, upper[..4]), UnitText(low, upper[4..]));
      UnitSpelt(high, upper[..4], b, i);
      UnitSpelt(low, upper[4..], b, i + 6);
    }
  }

  lemma SpellPiece(b: Octets, i: nat) returns (p: Piece)
    requires i < |b| && b[i] != QUOTE && ParseChar(b, i).Some?
    ensures ValidPiece(p) && Occurs(b, i, PieceText(p))
    ensures ParseChar(b, i) == Some((PieceMeaning(p), i + |PieceText(p)|))
  {
    hide Occurs, UnitText, Decode, Utf8, Hex4;
    if b[i] != BACKSLASH {
      p := Raw(b[i]);
      assert b[i..i + 1] == PieceText(p);
    } else if b[i + 1] == 0x75 {
      p := SpellEscape(b, i);
    } else {
      p := Short(b[i + 1] as int as char);
      assert b[i..i + 2] == PieceText(p);
    }
    OccursSlice(b, i, PieceText(p));
  }

  lemma SpellEscape(b: Octets, i: nat) returns (p: Piece)
    requires i + 1 < |b| && b[i] == BACKSLASH && b[i + 1] == 0x75 && ParseEscape(b, i).Some?
    ensures ValidPiece(p) && Occurs(b, i, PieceText(p))
    ensures ParseEscape(b, i) == Some((PieceMeaning(p), i + |PieceText(p)|))
  {
    hide Occurs, UnitText, Decode, Utf8, Hex4;
    var octets := ParseEscape(b, i).value.0;
    var unit := Hex4(b, i + 2).value;
    var upper := SpellUnit(b, i);
    if 0xD800 <= unit < 0xDC00 {
      var low := Hex4(b, i + 8).value;
      var lower := SpellUnit(b, i + 6);
      var code := 0x10000 + (unit - 0xD800) * 0x400 + (low - 0xDC00);
      Utf8Iff(code, octets);
      p := Escape(octets, upper + lower);
      assert (upper + lower)[..4] == upper && (upper + lower)[4..] == lower;
      assert (code - 0x10000) / 1024 == unit - 0xD800;
      OccursSplit(b, i, UnitText(unit, upper), UnitText(low, lower));
    } else {
      Utf8Iff(unit, octets);
      p := Escape(octets, upper + upper);
      assert (upper + upper)[..4] == upper;
    }
  }

  ghost predicate ValidPieces(ps: seq<Piece>) { forall p <- ps :: ValidPiece(p) }

  function PiecesText(ps: seq<Piece>): Octets
    requires forall p <- ps :: ValidPiece(p)
  {
    if ps == [] then [] else PieceText(ps[0]) + PiecesText(ps[1..])
  }

  function PiecesMeaning(ps: seq<Piece>): Octets
    requires forall p <- ps :: ValidPiece(p)
  {
    if ps == [] then [] else PieceMeaning(ps[0]) + PiecesMeaning(ps[1..])
  }

  /** However the characters of a string are spelt, the string is read as what they mean. */
  lemma {:induction false} StringSpelt(ps: seq<Piece>, b: Octets, i: nat)
    requires ValidPieces(ps) && Occurs(b, i, PiecesText(ps) + [0x22])
    ensures ParseString(b, i) == Some((PiecesMeaning(ps), i + |PiecesText(ps)| + 1))
  {
    hide Occurs, ParseChar, PieceText, PieceMeaning, ValidPiece;
    OccursSplit(b, i, PiecesText(ps), [0x22]);
    if ps == [] {
      OccursAt(b, i, [0x22], 0);
    } else {
      assert ps[0] in ps;
      var head, tail := PieceText(ps[0]), PiecesText(ps[1..]);
      OccursSplit(b, i, head, tail);
      PieceSpelt(ps[0], b, i);
      OccursSplit(b, i + |head|, tail, [0x22]);
      StringSpelt(ps[1..], b, i + |head|);
    }
  }

  lemma {:induction false} SpellString(b: Octets, i: nat) returns (ps: seq<Piece>)
    requires i <= |b| && ParseString(b, i).Some?
    ensures ValidPieces(ps) && Occurs(b, i, PiecesText(ps) + [0x22])
    ensures ParseString(b, i) == Some((PiecesMeaning(ps), i + |PiecesText(ps)| + 1))
    decreases |b| - i
  {
    hide Occurs, ParseChar, PieceText, PieceMeaning, ValidPiece;
    if b[i] == QUOTE {
      ps := [];
      assert b[i..i + 1] == [] + [0x22];
      OccursSlice(b, i, [] + [0x22]);
    } else {
      var p := SpellPiece(b, i);
      var rest := SpellString(b, i + |PieceText(p)|);
      ps := [p] + rest;
      assert ps[1..] == rest;
      var head, tail := PieceText(p), PiecesText(rest);
      assert PiecesText(ps) + [0x22] == head + (tail + [0x22]);
      OccursSplit(b, i, head, tail + [0x22]);
    }
  }
}
