/** Numbers by the grammar of section 6 of RFC 8259: sign, whole part, fraction, exponent. */
module JsonNumerals {
  import opened Bytes
  import opened Json

  datatype Exponent = Exponent(mark: char, sign: string, digits: Octets)

  datatype Numeral = Numeral(minus: bool, whole: Octets, fraction: Octets, exponent: Option<Exponent>)

  predicate Digits(s: Octets) { forall k :: 0 <= k < |s| ==> '0' as int <= s[k] as int <= '9' as int }

  predicate ValidNumeral(n: Numeral) {
    && n.whole != [] && Digits(n.whole) && (n.whole[0] as int == '0' as int ==> |n.whole| == 1)
    && Digits(n.fraction)
    && (n.exponent.Some? ==>
          && n.exponent.value.mark in "eE" && n.exponent.value.sign in ["", "+", "-"]
          && n.exponent.value.digits != [] && Digits(n.exponent.value.digits))
  }

  function ExponentText(e: Option<Exponent>): Octets
    requires e.Some? ==> e.value.mark in "eE" && e.value.sign in ["", "+", "-"]
  {
    if e.None? then [] else [e.value.mark as int as byte] + Ascii(e.value.sign) + e.value.digits
  }

  function NumeralText(n: Numeral): Octets
    requires ValidNumeral(n)
  {
    MinusText(n.minus) + n.whole + FractionText(n.fraction) + ExponentText(n.exponent)
  }

  function MinusText(minus: bool): Octets { if minus then ['-' as int as byte] else [] }

  function FractionText(fraction: Octets): Octets { if fraction == [] then [] else ['.' as int as byte] + fraction }

  lemma {:induction false} DigitsEndIs(s: Octets, i: nat, r: nat)
    requires i <= r <= |s| && (forall k :: i <= k < r ==> IsDigit(s[k])) && (r < |s| ==> !IsDigit(s[r]))
    ensures DigitsEnd(s, i) == r
    decreases r - i
  {
    if i < r {
      DigitsEndIs(s, i + 1, r);
    }
  }

  lemma ExponentIs(e: Option<Exponent>)
    requires e.Some? ==> e.value.mark in "eE" && e.value.sign in ["", "+", "-"] && e.value.digits != [] && Digits(e.value.digits)
    ensures var t := ExponentText(e);
            && (e.None? <==> t == [])
            && (e.Some? ==> t[0] == 0x65 || t[0] == 0x45)
            && (e.Some? ==>
                  var sign := if 1 < |t| && (t[1] == 0x2B || t[1] == 0x2D) then 2 else 1;
                  sign < |t| && forall k :: sign <= k < |t| ==> IsDigit(t[k]))
            && forall k :: 0 <= k < |t| ==> IsNumberByte(t[k])
  {
    if e.Some? {
      assert e.value.sign == "" || e.value.sign == "+" || e.value.sign == "-";
      assert e.value.mark == 'e' || e.value.mark == 'E';
      var t := ExponentText(e);
      var digits := e.value.digits;
      assert t[|t| - |digits|..] == digits;
      assert forall k :: |t| - |digits| <= k < |t| ==> t[k] == digits[k - (|t| - |digits|)];
    }
  }

  predicate DigitsIn(s: Octets, i: nat, r: nat) {
    i <= r <= |s| && forall k :: i <= k < r ==> IsDigit(s[k])
  }

  function SignEnd(s: Octets, point: nat): nat
    requires point < |s|
  {
    if point + 1 < |s| && (s[point + 1] == 0x2B || s[point + 1] == 0x2D) then point + 2 else point + 1
  }

  /** From `point` on there is an exponent, or nothing. */
  predicate PowerFrom(s: Octets, point: nat) {
    && point <= |s|
    && (point < |s| ==> (s[point] == 0x65 || s[point] == 0x45) && SignEnd(s, point) < |s| && DigitsIn(s, SignEnd(s, point), |s|))
  }

  /** Where the parts of a numeral end. */
  predicate PartsAt(s: Octets, whole: nat, point: nat) {
    && s != []
    && var start := if s[0] == 0x2D then 1 else 0;
    && start < whole && DigitsIn(s, start, whole) && (s[start] == 0x30 ==> whole == start + 1)
    && whole <= point && (whole == point || (whole + 1 < point <= |s| && s[whole] == 0x2E && DigitsIn(s, whole + 1, point)))
    && PowerFrom(s, point)
  }

  lemma PartsMakeNumber(s: Octets, whole: nat, point: nat)
    requires PartsAt(s, whole, point)
    ensures IsNumber(s)
  {
    hide DigitsEnd;
    var start := if s[0] == 0x2D then 1 else 0;
    DigitsEndIs(s, start, whole);
    if whole < point {
      DigitsEndIs(s, whole + 1, point);
    }
    if point < |s| {
      DigitsEndIs(s, SignEnd(s, point), |s|);
    }
  }

  lemma NumberParts(s: Octets) returns (whole: nat, point: nat)
    requires IsNumber(s)
    ensures PartsAt(s, whole, point)
  {
    hide DigitsEnd;
    var start := if s[0] == 0x2D then 1 else 0;
    whole := DigitsEnd(s, start);
    point := if whole < |s| && s[whole] == 0x2E then DigitsEnd(s, whole + 1) else whole;
  }

  /** Where a part of a longer text stands. */
  lemma Within(left: Octets, part: Octets, right: Octets, s: Octets)
    requires s == left + part + right
    ensures forall k :: |left| <= k < |left| + |part| ==> s[k] == part[k - |left|]
    ensures forall k :: |left| + |part| <= k < |s| ==> s[k] == right[k - |left| - |part|]
  {}

  lemma NumeralIsNumber(n: Numeral)
    requires ValidNumeral(n)
    ensures IsNumber(NumeralText(n)) && forall k :: 0 <= k < |NumeralText(n)| ==> IsNumberByte(NumeralText(n)[k])
  {
    hide ExponentText, IsNumber, PartsAt;
    var minus, part, power := MinusText(n.minus), FractionText(n.fraction), ExponentText(n.exponent);
    ExponentIs(n.exponent);
    JoinedParts(minus, n.whole, part, power);
    PartsMakeNumber(NumeralText(n), |minus| + |n.whole|, |minus| + |n.whole| + |part|);
  }

  lemma JoinedParts(minus: Octets, whole: Octets, part: Octets, power: Octets)
    requires (minus == [] || minus == [0x2D]) && whole != [] && Digits(whole) && (whole[0] == 0x30 ==> |whole| == 1)
    requires part == [] || (1 < |part| && part[0] == 0x2E && DigitsIn(part, 1, |part|))
    requires PowerFrom(power, 0) && forall k :: 0 <= k < |power| ==> IsNumberByte(power[k])
    ensures var s := minus + whole + part + power;
            && PartsAt(s, |minus| + |whole|, |minus| + |whole| + |part|)
            && forall k :: 0 <= k < |s| ==> IsNumberByte(s[k])
  {
    var s := minus + whole + part + power;
    var behind := |minus| + |whole|;
    Within(minus, whole, part + power, s) by {
      assert s == minus + whole + (part + power);
    }
    Within(minus + whole, part, power, s);
    assert forall k :: |minus| <= k < behind ==> s[k] == whole[k - |minus|];
    assert forall k :: behind <= k < behind + |part| ==> s[k] == part[k - behind];
    assert forall k :: behind + |part| <= k < |s| ==> s[k] == power[k - behind - |part|];
    PowerMoved(power, s, behind + |part|);
    assert DigitsIn(s, |minus|, behind);
    assert part != [] ==> DigitsIn(s, behind + 1, behind + |part|);
    assert s[0] == 0x2D <==> minus != [];
  }

  lemma PowerMoved(power: Octets, s: Octets, point: nat)
    requires PowerFrom(power, 0) && |s| == point + |power|
    requires forall k :: point <= k < |s| ==> s[k] == power[k - point]
    ensures PowerFrom(s, point)
  {}

  lemma SpellExponent(s: Octets, point: nat) returns (exponent: Option<Exponent>)
    requires PowerFrom(s, point)
    ensures exponent.Some? ==>
              && exponent.value.mark in "eE" && exponent.value.sign in ["", "+", "-"]
              && exponent.value.digits != [] && Digits(exponent.value.digits)
    ensures ExponentText(exponent) == s[point..]
  {
    exponent := None;
    if point < |s| {
      var sign := SignEnd(s, point);
      var text := if sign == point + 1 then "" else if s[point + 1] == 0x2B then "+" else "-";
      exponent := Some(Exponent(s[point] as int as char, text, s[sign..]));
      assert s[point..] == [s[point]] + s[point + 1..sign] + s[sign..];
    }
  }

  lemma Cut4(s: Octets, i: nat, j: nat, k: nat)
    requires i <= j <= k <= |s|
    ensures s == s[..i] + s[i..j] + s[j..k] + s[k..]
  {}

  lemma PartsCut(s: Octets, start: nat, whole: nat, point: nat, fraction: Octets)
    requires PartsAt(s, whole, point) && start == if s[0] == 0x2D then 1 else 0
    requires fraction == if whole < point then s[whole + 1..point] else []
    ensures start < whole <= point <= |s| && Digits(s[start..whole]) && (s[start] == 0x30 ==> whole == start + 1)
    ensures MinusText(start == 1) == s[..start] && FractionText(fraction) == s[whole..point] && Digits(fraction)
  {
  }

  lemma SpellNumber(s: Octets) returns (n: Numeral)
    requires IsNumber(s)
    ensures ValidNumeral(n) && NumeralText(n) == s
  {
    var whole, point := NumberParts(s);
    var start := if s[0] == 0x2D then 1 else 0;
    var fraction := if whole < point then s[whole + 1..point] else [];
    PartsCut(s, start, whole, point, fraction);
    var exponent := SpellExponent(s, point);
    hide PartsAt, IsNumber, ExponentText, PowerFrom, MinusText, FractionText;
    n := Numeral(start == 1, s[start..whole], fraction, exponent);
    Cut4(s, start, whole, point);
  }
}
