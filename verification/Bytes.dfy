/** Raw octets, the unit the configuration files and response bodies are made of. */
module Bytes {

  newtype byte = b: int | 0 <= b < 0x100

  type Octets = seq<byte>

  datatype Option<+T> = None | Some(value: T)

  /** The octets of a plain ASCII text. */
  function Ascii(s: string): (r: Octets)
    requires forall c <- s :: c < 128 as char
    ensures |r| == |s|
  {
    seq(|s|, i requires 0 <= i < |s| => assert s[i] in s; s[i] as int as byte)
  }

  predicate IsDigit(c: byte) { 0x30 <= c <= 0x39 }

  /** Behind the run of digits that begins at `i`. */
  function DigitsEnd(b: Octets, i: nat): (r: nat)
    requires i <= |b|
    ensures i <= r <= |b| && (r < |b| ==> !IsDigit(b[r])) && forall k :: i <= k < r ==> IsDigit(b[k])
    decreases |b| - i
  {
    if i < |b| && IsDigit(b[i]) then DigitsEnd(b, i + 1) else i
  }

  /** The first `c`, or the length when there is none. */
  function IndexOf(b: Octets, c: byte): (r: nat)
    ensures r <= |b| && c !in b[..r] && (r < |b| ==> b[r] == c)
  {
    if b == [] || b[0] == c then 0
    else
      var rest := IndexOf(b[1..], c);
      assert b[..rest + 1] == [b[0]] + b[1..][..rest];
      1 + rest
  }
}

/** Bounds of the fixed-width integers the program computes with. */
module Words {
  const MAX_I64: nat := 0x7FFF_FFFF_FFFF_FFFF
  const MAX_U64: nat := 0xFFFF_FFFF_FFFF_FFFF
  const MAX_U128: nat := 0xFFFF_FFFF_FFFF_FFFF_FFFF_FFFF_FFFF_FFFF
}

/** White space in Unicode text. */
module Texts {
  predicate IsSpace(c: char) {
    var code := c as int;
    || 0x09 <= code <= 0x0D || code == 0x20 || code == 0x85 || code == 0xA0 || code == 0x1680
    || 0x2000 <= code <= 0x200A || code == 0x2028 || code == 0x2029 || code == 0x202F || code == 0x205F || code == 0x3000
  }

  predicate Blank(text: string) { forall k :: 0 <= k < |text| ==> IsSpace(text[k]) }
}
