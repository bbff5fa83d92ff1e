/** Dollar amounts of a published price list as whole nano dollars, exactly or not at all. */
module CatalogDecimals {
  import opened Bytes
  import opened Words
  import opened Timestamps

  const NANO: nat := 1_000_000_000

  function Whole(text: Octets): Octets { text[..IndexOf(text, DOT)] }

  function Fraction(text: Octets): Octets {
    if IndexOf(text, DOT) < |text| then text[IndexOf(text, DOT) + 1..] else []
  }

  /** Plain decimal notation with at most nine places. */
  predicate Plain(text: Octets) {
    && Whole(text) != [] && AllDigits(Whole(text)) && AllDigits(Fraction(text)) && |Fraction(text)| <= 9
  }

  /** `decimal_nano_usd` on the text of a JSON number. */
  function NanoUsd(text: Octets): Option<nat> {
    if 0x65 in text || 0x45 in text || (text != [] && text[0] == DASH) then None
    else
      var whole, fraction := Whole(text), Fraction(text);
      if DOT in fraction || |fraction| > 9 || !AllDigits(fraction) then None
      else if whole == [] || !AllDigits(whole) || Decimal(whole) > MAX_U64 then None
      else
        var places := if fraction == [] then 0 else Decimal(fraction) * Pow10(9 - |fraction|);
        if Decimal(whole) * NANO > MAX_U64 || Decimal(whole) * NANO + places > MAX_U64 then None
        else if Decimal(whole) * NANO + places > MAX_I64 then None
        else Some(Decimal(whole) * NANO + places)
  }

  lemma {:induction false} DigitsJoin(whole: Octets, fraction: Octets)
    requires AllDigits(whole) && AllDigits(fraction)
    ensures AllDigits(whole + fraction)
    ensures Decimal(whole + fraction) == Decimal(whole) * Pow10(|fraction|) + Decimal(fraction)
    decreases |fraction|
  {
    hide Decimal, Pow10;
    var all := whole + fraction;
    if fraction == [] {
      assert all == whole;
      NothingBehind();
    } else {
      var front, d := fraction[..|fraction| - 1], fraction[|fraction| - 1] as nat - 0x30;
      DigitsJoin(whole, front);
      assert all[..|all| - 1] == whole + front;
      LastDigit(all);
      LastDigit(fraction);
      JoinDigit(Decimal(whole), Pow10(|front|), Decimal(front), d);
    }
  }

  lemma NothingBehind()
    ensures Decimal([]) == 0 && Pow10(0) == 1
  {}

  lemma JoinDigit(w: nat, p: nat, f: nat, d: nat)
    ensures (w * p + f) * 10 + d == w * (10 * p) + (f * 10 + d)
  {
    assert w * (10 * p) == 10 * (w * p);
  }

  lemma Regroup(x: nat, y: nat, z: nat)
    ensures x * y * z == x * (y * z)
  {}

  lemma {:induction false} PowersAdd(a: nat, b: nat)
    ensures Pow10(a) * Pow10(b) == Pow10(a + b)
  {
    if a > 0 {
      PowersAdd(a - 1, b);
      var p, q := Pow10(a - 1), Pow10(b);
      Regroup(10, p, q);
      assert Pow10(a) == 10 * p && Pow10(a + b) == 10 * Pow10(a - 1 + b);
    }
  }

  /** All digits read as one number, counting in units of the last place. */
  function Unscaled(text: Octets): nat
    requires Plain(text)
  {
    DigitsJoin(Whole(text), Fraction(text));
    Decimal(Whole(text) + Fraction(text))
  }

  lemma NanoIsPower()
    ensures Pow10(9) == NANO
  {
    assert Pow10(5) == 100_000;
    PowersAdd(4, 5);
    assert Pow10(4) == 10_000;
  }

  /**
    A plain decimal is converted exactly (no place is lost or invented), and refused exactly when
    the amount does not fit; nothing else is accepted.
  */
  lemma NanoUsdIsExact(text: Octets)
    ensures NanoUsd(text).Some? ==> Plain(text)
    ensures Plain(text) ==>
              && (NanoUsd(text).Some? ==> NanoUsd(text).value * Pow10(|Fraction(text)|) == Unscaled(text) * NANO)
              && (NanoUsd(text).None? <==> Unscaled(text) * NANO > MAX_I64 * Pow10(|Fraction(text)|))
  {
    hide Decimal, Pow10;
    if Plain(text) {
      PlainHasNoOther(text);
      var whole, fraction := Whole(text), Fraction(text);
      var n := |fraction|;
      DigitsJoin(whole, fraction);
      PowersAdd(9 - n, n);
      NanoIsPower();
      Pow10IsWhole(n);
      NothingBehind();
      var w, f, p, q := Decimal(whole), Decimal(fraction), Pow10(n), Pow10(9 - n);
      Scaled(w, f, p, q);
      Compare(w * NANO + f * q, MAX_I64, p);
      assert NanoUsd(text) == if w * NANO + f * q > MAX_I64 then None else Some(w * NANO + f * q) by {
        if fraction == [] {
          assert f * q == 0;
        }
      }
    }
  }

  lemma Scaled(w: nat, f: nat, p: nat, q: nat)
    requires q * p == NANO
    ensures (w * NANO + f * q) * p == (w * p + f) * NANO
  {
    assert (w * NANO + f * q) * p == w * NANO * p + f * (q * p);
    assert w * NANO * p == w * p * NANO;
  }

  lemma Compare(a: nat, b: nat, p: nat)
    requires p > 0
    ensures a > b <==> a * p > b * p
  {}

  lemma PlainHasNoOther(text: Octets)
    requires Plain(text)
    ensures 0x65 !in text && 0x45 !in text && text != [] && text[0] != DASH && DOT !in Fraction(text)
  {
    var whole, fraction := Whole(text), Fraction(text);
    forall c | c in text ensures c == DOT || IsDigit(c) {
      var k :| 0 <= k < |text| && text[k] == c;
      if k < |whole| {
        assert whole[k] == c;
      } else if k > |whole| {
        assert fraction[k - |whole| - 1] == c;
      }
    }
    assert text[0] == whole[0];
  }
}
