/**
  RFC 3339 timestamps, section 5.6: the text of a timestamp, the instant it names, and the scanner
  that accepts exactly the texts of timestamps and returns exactly their instants.
*/
module Timestamps {
  import opened Bytes
  import opened Words
  import opened Calendar

  const DASH: byte := 0x2D
  const COLON: byte := 0x3A
  const DOT: byte := 0x2E
  const PLUS: byte := 0x2B
  const ZERO: byte := 0x30

  predicate AllDigits(s: Octets) { forall k :: 0 <= k < |s| ==> IsDigit(s[k]) }

  datatype Zone = Zulu(letter: byte) | Offset(sign: byte, hours: nat, minutes: nat)

  datatype Timestamp = Timestamp(
    date: Date, mark: byte, hour: nat, minute: nat, second: nat, fraction: Octets, zone: Zone)

  predicate ValidZone(zone: Zone) {
    match zone
    case Zulu(letter) => letter == 0x5A || letter == 0x7A
    case Offset(sign, hours, minutes) => (sign == PLUS || sign == DASH) && hours <= 23 && minutes <= 59
  }

  /** The timestamps the service reads: a four-digit year, and no leap seconds. */
  predicate Valid(t: Timestamp) {
    && IsDate(t.date) && 0 <= t.date.year <= 9999
    && (t.mark == 0x54 || t.mark == 0x74)
    && t.hour <= 23 && t.minute <= 59 && t.second <= 59
    && AllDigits(t.fraction) && ValidZone(t.zone)
  }

  // ---- text

  function Two(n: nat): (r: Octets)
    requires n < 100
    ensures |r| == 2
  {
    [(0x30 + n / 10) as byte, (0x30 + n % 10) as byte]
  }

  function Four(n: nat): (r: Octets)
    requires n < 10_000
    ensures |r| == 4
  {
    Two(n / 100) + Two(n % 100)
  }

  function ZoneText(zone: Zone): Octets
    requires ValidZone(zone)
  {
    match zone
    case Zulu(letter) => [letter]
    case Offset(sign, hours, minutes) => [sign] + Two(hours) + [COLON] + Two(minutes)
  }

  function Text(t: Timestamp): Octets
    requires Valid(t)
  {
    Four(t.date.year) + [DASH] + Two(t.date.month) + [DASH] + Two(t.date.day) + [t.mark]
    + Two(t.hour) + [COLON] + Two(t.minute) + [COLON] + Two(t.second)
    + (if t.fraction == [] then [] else [DOT] + t.fraction) + ZoneText(t.zone)
  }

  // ---- instants

  function OffsetSeconds(zone: Zone): int {
    match zone
    case Zulu(_) => 0
    case Offset(sign, hours, minutes) => if sign == PLUS then hours * 3600 + minutes * 60 else -(hours * 3600 + minutes * 60)
  }

  /** Whole seconds since the epoch, in UTC. */
  function Seconds(t: Timestamp): int {
    DaysFromCivil(t.date) * 86_400 + t.hour * 3600 + t.minute * 60 + t.second - OffsetSeconds(t.zone)
  }

  function DigitAt(s: Octets, k: nat): (r: nat)
    requires AllDigits(s)
    ensures r <= 9
  {
    if k < |s| then s[k] as nat - 0x30 else 0
  }

  /** The fraction in whole milliseconds. */
  function Millis(fraction: Octets): (r: nat)
    requires AllDigits(fraction)
    ensures r <= 999
  {
    DigitAt(fraction, 0) * 100 + DigitAt(fraction, 1) * 10 + DigitAt(fraction, 2)
  }

  function Decimal(s: Octets): nat
    requires AllDigits(s)
  {
    if s == [] then 0 else Decimal(s[..|s| - 1]) * 10 + (s[|s| - 1] as nat - 0x30)
  }

  function Pow10(n: nat): nat { if n == 0 then 1 else 10 * Pow10(n - 1) }

  /** `value` units of which `p` make a whole come to `m` wholes and a rest. */
  ghost predicate CutsTo(m: nat, p: nat, value: nat) { m * p <= value < (m + 1) * p }

  /** Milliseconds are cut off, not rounded, however many digits the fraction has. */
  lemma {:induction false} MillisAreTruncated(fraction: Octets)
    requires AllDigits(fraction)
    ensures CutsTo(Millis(fraction), Pow10(|fraction|), Decimal(fraction) * 1000)
  {
    hide CutsTo, Pow10, Decimal;
    if |fraction| <= 3 {
      ShortFraction(fraction);
      Pow10IsWhole(|fraction|);
      ExactCuts(Millis(fraction), Pow10(|fraction|));
    } else {
      var front := fraction[..|fraction| - 1];
      MillisAreTruncated(front);
      Pow10IsWhole(|front|);
      LastDigit(fraction);
      OneMoreDigit(Millis(front), Pow10(|front|), Decimal(front), fraction[|fraction| - 1] as nat - 0x30);
    }
  }

  lemma LastDigit(fraction: Octets)
    requires AllDigits(fraction) && fraction != []
    ensures Decimal(fraction) == Decimal(fraction[..|fraction| - 1]) * 10 + (fraction[|fraction| - 1] as nat - 0x30)
    ensures Pow10(|fraction|) == 10 * Pow10(|fraction| - 1)
  {}

  lemma ExactCuts(m: nat, p: nat)
    requires p > 0
    ensures CutsTo(m, p, m * p)
  {
    assert (m + 1) * p == m * p + p;
  }

  lemma {:induction false} Pow10IsWhole(n: nat)
    ensures Pow10(n) > 0 && (n >= 3 ==> Pow10(n) >= 1000 && Pow10(n) % 1000 == 0)
  {
    if n == 3 {
      assert Pow10(2) == 100;
    } else if n > 0 {
      Pow10IsWhole(n - 1);
    }
  }

  lemma OneMoreDigit(m: nat, p: nat, v: nat, d: nat)
    requires CutsTo(m, p, v * 1000) && d <= 9 && p >= 1000 && p % 1000 == 0
    ensures CutsTo(m, 10 * p, (v * 10 + d) * 1000)
  {
    assert m * (10 * p) == 10 * (m * p) && (m + 1) * (10 * p) == 10 * ((m + 1) * p);
    var k := p / 1000;
    assert p == 1000 * k;
    assert (m + 1) * p == 1000 * ((m + 1) * k);
    assert v < (m + 1) * k;
    assert v * 10 + d < 10 * ((m + 1) * k);
  }

  lemma ShortFraction(fraction: Octets)
    requires AllDigits(fraction) && |fraction| <= 3
    ensures Millis(fraction) * Pow10(|fraction|) == Decimal(fraction) * 1000
  {
    assert Pow10(1) == 10 && Pow10(2) == 100 && Pow10(3) == 1000;
    if |fraction| == 1 {
      assert fraction[..0] == [];
    } else if |fraction| == 2 {
      assert fraction[..1][..0] == [] && fraction[..1][0] == fraction[0];
    } else if |fraction| == 3 {
      var two := fraction[..2];
      assert two[..1][..0] == [] && two[..1][0] == fraction[0] && two[1] == fraction[1];
    }
  }

  /** The instant a timestamp names, in milliseconds; negative ones are not accepted. */
  function Instant(t: Timestamp): Option<nat>
    requires Valid(t)
  {
    if Seconds(t) < 0 then None else Some(Seconds(t) * 1000 + Millis(t.fraction))
  }

  /** Seconds since the midnight, in UTC, that began the day the timestamp tells; negative or beyond a day with an offset. */
  function DaySeconds(t: Timestamp): int { t.hour * 3600 + t.minute * 60 + t.second - OffsetSeconds(t.zone) }

  /**
    Two timestamps on dates `n` days apart, told in any two zones, name the same instant exactly when
    their clocks, offsets removed, are `n` days apart too and their fractions cut to the same millisecond.
  */
  lemma EquivalentOffsets(a: Timestamp, b: Timestamp, n: nat)
    requires Valid(a) && Valid(b) && b.date == DateFrom(a.date, n)
    ensures Seconds(b) - Seconds(a) == n * 86_400 + DaySeconds(b) - DaySeconds(a)
    ensures Instant(a).Some? || Instant(b).Some? ==>
              (Instant(a) == Instant(b)
               <==> DaySeconds(a) == DaySeconds(b) + n * 86_400 && Millis(a.fraction) == Millis(b.fraction))
  {
    hide DaysFromCivil, DateFrom, Millis, IsDate, AllDigits;
    CountIsTrue(a.date, n);
  }

  // ---- the clock

  /** One second later, on the clock and, past midnight, on the calendar. */
  function NextSecond(t: Timestamp): Timestamp {
    if t.second < 59 then t.(second := t.second + 1)
    else if t.minute < 59 then t.(second := 0, minute := t.minute + 1)
    else if t.hour < 23 then t.(second := 0, minute := 0, hour := t.hour + 1)
    else t.(second := 0, minute := 0, hour := 0, date := NextDate(t.date))
  }

  /** Every second counts one more than the second before it, over minutes, hours, days and years. */
  lemma NextSecondCountsOneMore(t: Timestamp)
    requires Valid(t)
    ensures Seconds(NextSecond(t)) == Seconds(t) + 1
  {
    hide DaysFromCivil, IsDate;
    NextCountsOneMore(t.date);
  }

  /** The epoch is the midnight of 1970 in UTC, and an hour told east of it is reached earlier, one told west of it later. */
  lemma ZonesTell(t: Timestamp, hours: nat, minutes: nat)
    requires Valid(t) && t.zone.Zulu?
    ensures Seconds(t.(date := Date(1970, 1, 1), hour := 0, minute := 0, second := 0)) == 0
    ensures Seconds(t.(zone := Offset(Character('+'), hours, minutes))) == Seconds(t) - (hours * 60 + minutes) * 60
    ensures Seconds(t.(zone := Offset(Character('-'), hours, minutes))) == Seconds(t) + (hours * 60 + minutes) * 60
  {
    EpochIsZero();
  }

  function Character(c: char): byte
    requires c < 128 as char
  {
    c as int as byte
  }

  /** The number that digits standing here make. */
  function Figure(b: Octets, i: nat, n: nat): int
    requires i + n <= |b|
  {
    if n == 0 then 0 else Figure(b, i, n - 1) * 10 + (b[i + n - 1] as int - '0' as int)
  }

  /** The shape of a timestamp: YYYY-MM-DDTHH:MM:SS, a fraction behind a point, and Z or the offset as +HH:MM or -HH:MM. */
  ghost predicate Looks(b: Octets, t: Timestamp) {
    && |b| >= 20
    && Figure(b, 0, 4) == t.date.year && b[4] == Character('-') && Figure(b, 5, 2) == t.date.month && b[7] == Character('-')
    && Figure(b, 8, 2) == t.date.day && b[10] == t.mark && t.mark in {Character('T'), Character('t')}
    && Figure(b, 11, 2) == t.hour && b[13] == Character(':') && Figure(b, 14, 2) == t.minute && b[16] == Character(':')
    && Figure(b, 17, 2) == t.second
    && var end := if t.fraction == [] then 19 else 20 + |t.fraction|;
    && end <= |b| && (t.fraction != [] ==> b[19] == Character('.') && b[20..end] == t.fraction)
    && ZoneLooks(b[end..], t.zone)
  }

  ghost predicate ZoneLooks(b: Octets, zone: Zone) {
    match zone
    case Zulu(letter) => b == [letter] && letter in {Character('Z'), Character('z')}
    case Offset(sign, hours, minutes) =>
      && |b| == 6 && b[0] == sign && sign in {Character('+'), Character('-')}
      && Figure(b, 1, 2) == hours && b[3] == Character(':') && Figure(b, 4, 2) == minutes
  }

  lemma TwoFigures(b: Octets, i: nat, n: nat)
    requires i + 2 <= |b| && n < 100 && b[i] == Two(n)[0] && b[i + 1] == Two(n)[1]
    ensures Figure(b, i, 2) == n
  {
    assert Figure(b, i, 1) == n / 10;
  }

  lemma FourFigures(b: Octets, i: nat, n: nat)
    requires i + 4 <= |b| && n < 10_000 && b[i..i + 4] == Four(n)
    ensures Figure(b, i, 4) == n
  {
    hide Two;
    var c := b[i..i + 4];
    assert c[..2] == Two(n / 100) && c[2..] == Two(n % 100);
    assert b[i] == c[0] && b[i + 1] == c[1] && b[i + 2] == c[2] && b[i + 3] == c[3];
    TwoFigures(b, i, n / 100);
    TwoFigures(b, i + 2, n % 100);
    assert Figure(b, i + 2, 1) == b[i + 2] as int - '0' as int;
    assert Figure(b, i, 3) == Figure(b, i, 2) * 10 + (b[i + 2] as int - '0' as int);
  }

  lemma ZoneTextLooks(zone: Zone)
    requires ValidZone(zone)
    ensures ZoneLooks(ZoneText(zone), zone)
  {
    hide Two;
    if zone.Offset? {
      TwoFigures(ZoneText(zone), 1, zone.hours);
      TwoFigures(ZoneText(zone), 4, zone.minutes);
    }
  }

  /** The text of a timestamp has that shape, its fields where they belong. */
  lemma TextLooks(t: Timestamp)
    requires Valid(t)
    ensures Looks(Text(t), t)
  {
    hide Two, Four, FrontText, ZoneText, ZoneLooks;
    var b, f, end := Text(t), FrontText(t), if t.fraction == [] then 19 else 20 + |t.fraction|;
    TextSplits(t);
    ZoneTextLooks(t.zone);
    ZoneStarts(t.zone);
    assert b[..19] == f && b[end..] == ZoneText(t.zone);
    FrontLooks(t, b);
  }

  lemma FrontLooks(t: Timestamp, b: Octets)
    requires Valid(t) && |b| >= 19 && b[..19] == FrontText(t)
    ensures Figure(b, 0, 4) == t.date.year && b[4] == Character('-') && Figure(b, 5, 2) == t.date.month && b[7] == Character('-')
    ensures Figure(b, 8, 2) == t.date.day && b[10] == t.mark && Figure(b, 11, 2) == t.hour && b[13] == Character(':')
    ensures Figure(b, 14, 2) == t.minute && b[16] == Character(':') && Figure(b, 17, 2) == t.second
  {
    hide Two, Four, Figure;
    var f := FrontText(t);
    assert forall k :: 0 <= k < 19 ==> b[k] == f[k];
    assert b[0..4] == f[0..4] == Four(t.date.year);
    FourFigures(b, 0, t.date.year);
    TwoFigures(b, 5, t.date.month);
    TwoFigures(b, 8, t.date.day);
    TwoFigures(b, 11, t.hour);
    TwoFigures(b, 14, t.minute);
    TwoFigures(b, 17, t.second);
  }

  // ---- reading

  /** `n` digits from position `i`; `None` when something else stands there. */
  function NumberAt(b: Octets, i: nat, n: nat): Option<nat>
    requires i + n <= |b|
  {
    if n == 0 then Some(0)
    else
      match NumberAt(b, i, n - 1)
      case None => None
      case Some(value) =>
        if IsDigit(b[i + n - 1]) then Some(value * 10 + (b[i + n - 1] as nat - 0x30)) else None
  }

  /** Two digits are read exactly where two digits were written. */
  lemma TwoRead(b: Octets, i: nat)
    requires i + 2 <= |b|
    ensures match NumberAt(b, i, 2)
            case Some(n) => n < 100 && b[i] == Two(n)[0] && b[i + 1] == Two(n)[1]
            case None => !IsDigit(b[i]) || !IsDigit(b[i + 1])
  {
    assert NumberAt(b, i, 1) == if IsDigit(b[i]) then Some(b[i] as nat - 0x30) else None;
  }

  lemma TwoWritten(b: Octets, i: nat, n: nat)
    requires i + 2 <= |b| && n < 100 && b[i] == Two(n)[0] && b[i + 1] == Two(n)[1]
    ensures NumberAt(b, i, 2) == Some(n)
  {
    assert NumberAt(b, i, 1) == Some(n / 10);
  }

  lemma FourSplits(b: Octets, i: nat)
    requires i + 4 <= |b|
    ensures var high, low := NumberAt(b, i, 2), NumberAt(b, i + 2, 2);
            NumberAt(b, i, 4) == if high.Some? && low.Some? then Some(high.value * 100 + low.value) else None
  {
    assert NumberAt(b, i + 2, 1) == if IsDigit(b[i + 2]) then Some(b[i + 2] as nat - 0x30) else None;
    assert NumberAt(b, i, 3) == if NumberAt(b, i, 2).Some? && IsDigit(b[i + 2])
                                then Some(NumberAt(b, i, 2).value * 10 + (b[i + 2] as nat - 0x30)) else None;
  }

  function ReadZone(b: Octets, i: nat): Option<Zone>
    requires i <= |b|
  {
    if i + 1 == |b| && (b[i] == 0x5A || b[i] == 0x7A) then Some(Zulu(b[i]))
    else if i + 6 == |b| && (b[i] == PLUS || b[i] == DASH) && b[i + 3] == COLON then
      match NumberAt(b, i + 1, 2)
      case None => None
      case Some(hours) =>
        match NumberAt(b, i + 4, 2)
        case None => None
        case Some(minutes) => if hours <= 23 && minutes <= 59 then Some(Offset(b[i], hours, minutes)) else None
    else None
  }

  lemma ZoneRead(b: Octets, i: nat)
    requires i <= |b|
    ensures match ReadZone(b, i)
            case Some(zone) => ValidZone(zone) && b[i..] == ZoneText(zone)
            case None => forall zone :: ValidZone(zone) ==> ZoneText(zone) != b[i..]
  {
    hide NumberAt;
    if i + 6 <= |b| {
      TwoRead(b, i + 1);
      TwoRead(b, i + 4);
    }
    if ReadZone(b, i).None? {
      forall zone | ValidZone(zone) ensures ZoneText(zone) != b[i..] {
        if ZoneText(zone) == b[i..] {
          ZoneWritten(b, i, zone);
          assert false;
        }
      }
    }
  }

  lemma ZoneWritten(b: Octets, i: nat, zone: Zone)
    requires i <= |b| && ValidZone(zone) && ZoneText(zone) == b[i..]
    ensures ReadZone(b, i) == Some(zone)
  {
    hide NumberAt, Two;
    var text := ZoneText(zone);
    assert |b| == i + |text| && forall k :: 0 <= k < |text| ==> b[i + k] == text[k];
    if zone.Offset? {
      TwoWritten(b, i + 1, zone.hours);
      TwoWritten(b, i + 4, zone.minutes);
    }
  }

  /** The date and time of day, position by position, and the separators between them. */
  function ReadFront(b: Octets): Option<Timestamp>
    requires |b| >= 19
  {
    var year, month, day := NumberAt(b, 0, 4), NumberAt(b, 5, 2), NumberAt(b, 8, 2);
    var hour, minute, second := NumberAt(b, 11, 2), NumberAt(b, 14, 2), NumberAt(b, 17, 2);
    if b[4] != DASH || b[7] != DASH || b[13] != COLON || b[16] != COLON || (b[10] != 0x54 && b[10] != 0x74)
       || year.None? || month.None? || day.None? || hour.None? || minute.None? || second.None?
    then None
    else
      var date := Date(year.value, month.value, day.value);
      if IsDate(date) && hour.value <= 23 && minute.value <= 59 && second.value <= 59
      then Some(Timestamp(date, b[10], hour.value, minute.value, second.value, [], Zulu(0x5A)))
      else None
  }

  /** The whole text. */
  function Read(b: Octets): Option<Timestamp> {
    if |b| < 20 then None
    else
      match ReadFront(b)
      case None => None
      case Some(front) =>
        var end := if b[19] == DOT then DigitsEnd(b, 20) else 19;
        if b[19] == DOT && end == 20 then None
        else
          match ReadZone(b, end)
          case None => None
          case Some(zone) => Some(front.(fraction := if b[19] == DOT then b[20..end] else [], zone := zone))
  }

  /** The first nineteen bytes of a text. */
  function FrontText(t: Timestamp): (r: Octets)
    requires IsDate(t.date) && 0 <= t.date.year <= 9999 && t.hour <= 23 && t.minute <= 59 && t.second <= 59
    ensures |r| == 19
  {
    Four(t.date.year) + [DASH] + Two(t.date.month) + [DASH] + Two(t.date.day) + [t.mark]
    + Two(t.hour) + [COLON] + Two(t.minute) + [COLON] + Two(t.second)
  }

  lemma FrontRead(b: Octets)
    requires |b| >= 19 && ReadFront(b).Some?
    ensures var t := ReadFront(b).value; Valid(t) && b[..19] == FrontText(t)
  {
    hide NumberAt, Two;
    FourSplits(b, 0);
    TwoRead(b, 0);
    TwoRead(b, 2);
    TwoRead(b, 5);
    TwoRead(b, 8);
    TwoRead(b, 11);
    TwoRead(b, 14);
    TwoRead(b, 17);
  }

  lemma FrontWritten(b: Octets, t: Timestamp)
    requires |b| >= 19 && Valid(t) && b[..19] == FrontText(t)
    ensures ReadFront(b) == Some(t.(fraction := [], zone := Zulu(0x5A)))
  {
    hide NumberAt, Two;
    var f := FrontText(t);
    assert forall k :: 0 <= k < 19 ==> b[k] == f[k];
    TwoWritten(b, 0, t.date.year / 100);
    TwoWritten(b, 2, t.date.year % 100);
    FourSplits(b, 0);
    TwoWritten(b, 5, t.date.month);
    TwoWritten(b, 8, t.date.day);
    TwoWritten(b, 11, t.hour);
    TwoWritten(b, 14, t.minute);
    TwoWritten(b, 17, t.second);
  }

  function FractionText(fraction: Octets): Octets { if fraction == [] then [] else [DOT] + fraction }

  /** What is read is what is written: reading and writing are inverse. */
  lemma ReadIsText(b: Octets, t: Timestamp)
    requires Read(b) == Some(t)
    ensures Valid(t) && Text(t) == b
  {
    hide NumberAt, Two, FrontText, ReadFront, ReadZone, ZoneText;
    FrontRead(b);
    var end := if b[19] == DOT then DigitsEnd(b, 20) else 19;
    ZoneRead(b, end);
    var front := ReadFront(b).value;
    assert FrontText(front) == FrontText(t) by { FrontOnly(front, t); }
    assert b == b[..19] + b[19..end] + b[end..];
    assert b[19..end] == FractionText(t.fraction);
    TextSplits(t);
  }

  lemma FrontOnly(a: Timestamp, t: Timestamp)
    requires Valid(a) && Valid(t) && a.(fraction := t.fraction, zone := t.zone) == t
    ensures FrontText(a) == FrontText(t)
  {}

  lemma TextSplits(t: Timestamp)
    requires Valid(t)
    ensures Text(t) == FrontText(t) + FractionText(t.fraction) + ZoneText(t.zone)
  {
    hide Two, Four, ZoneText;
  }

  lemma ZoneStarts(zone: Zone)
    requires ValidZone(zone)
    ensures ZoneText(zone) != [] && !IsDigit(ZoneText(zone)[0]) && ZoneText(zone)[0] != DOT
  {}

  lemma {:induction false} DigitsEndIs(b: Octets, i: nat, r: nat)
    requires i <= r <= |b| && (r < |b| ==> !IsDigit(b[r])) && forall k :: i <= k < r ==> IsDigit(b[k])
    ensures DigitsEnd(b, i) == r
    decreases r - i
  {
    if i < r {
      DigitsEndIs(b, i + 1, r);
    }
  }

  lemma TextIsRead(t: Timestamp)
    requires Valid(t)
    ensures Read(Text(t)) == Some(t)
  {
    hide NumberAt, Two, FrontText, ReadFront, ReadZone, ZoneText, DigitsEnd;
    TextSplits(t);
    ZoneStarts(t.zone);
    var b, end := Text(t), 19 + |FractionText(t.fraction)|;
    assert b[..19] == FrontText(t) && b[end..] == ZoneText(t.zone);
    FrontWritten(b, t);
    ZoneWritten(b, end, t.zone);
    assert b[end] == ZoneText(t.zone)[0];
    if t.fraction != [] {
      assert b[19] == DOT && forall k :: 20 <= k < end ==> b[k] == t.fraction[k - 20];
      DigitsEndIs(b, 20, end);
      assert b[20..end] == t.fraction;
    }
  }

  // ---- the scanner

  /** `parse_digits`. */
  method ParseDigits(b: Octets, i: nat, n: nat) returns (r: Option<nat>)
    requires i + n <= |b|
    ensures r == NumberAt(b, i, n)
  {
    var value := 0;
    for k := 0 to n
      invariant NumberAt(b, i, k) == Some(value)
    {
      if !IsDigit(b[i + k]) {
        NotANumber(b, i, k + 1, n);
        return None;
      }
      value := value * 10 + (b[i + k] as nat - 0x30);
    }
    r := Some(value);
  }

  lemma {:induction false} NotANumber(b: Octets, i: nat, k: nat, n: nat)
    requires k <= n && i + n <= |b| && NumberAt(b, i, k).None?
    ensures NumberAt(b, i, n).None?
  {
    if k < n {
      NotANumber(b, i, k, n - 1);
    }
  }

  /** Nineteen bytes of date and time. */
  method ParseFront(b: Octets) returns (r: Option<Timestamp>)
    requires |b| >= 19
    ensures r == ReadFront(b)
  {
    hide NumberAt, IsDate;
    if b[4] != DASH || b[7] != DASH {
      return None;
    }
    var year := ParseDigits(b, 0, 4);
    var month := ParseDigits(b, 5, 2);
    var day := ParseDigits(b, 8, 2);
    if year.None? || month.None? || day.None? {
      return None;
    }
    if b[10] != 0x54 && b[10] != 0x74 {
      return None;
    }
    var hour := ParseDigits(b, 11, 2);
    var minute := ParseDigits(b, 14, 2);
    var second := ParseDigits(b, 17, 2);
    if hour.None? || minute.None? || second.None? {
      return None;
    }
    var date := Date(year.value, month.value, day.value);
    if b[13] != COLON || b[16] != COLON || !IsDate(date) || hour.value > 23 || minute.value > 59 || second.value > 59 {
      return None;
    }
    r := Some(Timestamp(date, b[10], hour.value, minute.value, second.value, [], Zulu(0x5A)));
  }

  method ParseZone(b: Octets, cursor: nat) returns (r: Option<Zone>)
    requires cursor <= |b|
    ensures r == ReadZone(b, cursor)
  {
    hide NumberAt;
    if cursor == |b| {
      return None;
    }
    if (b[cursor] == 0x5A || b[cursor] == 0x7A) && cursor + 1 == |b| {
      return Some(Zulu(b[cursor]));
    }
    if !((b[cursor] == PLUS || b[cursor] == DASH) && cursor + 6 == |b|) {
      return None;
    }
    var hours := ParseDigits(b, cursor + 1, 2);
    if hours.None? {
      return None;
    }
    var minutes := ParseDigits(b, cursor + 4, 2);
    if minutes.None? || b[cursor + 3] != COLON || hours.value > 23 || minutes.value > 59 {
      return None;
    }
    r := Some(Offset(b[cursor], hours.value, minutes.value));
  }

  /** Neither the signed nor the unsigned arithmetic of the scanner can overflow. */
  lemma SecondsInRange(t: Timestamp)
    requires Valid(t)
    ensures -1_000_000 < DaysFromCivil(t.date) < 4_000_000
    ensures -100_000_000_000 < Seconds(t) < 400_000_000_000
  {
    CountIs(t.date);
  }

  /** A checked operation on signed 64-bit integers. */
  function Checked(value: int): Option<int> { if -0x8000_0000_0000_0000 <= value <= MAX_I64 then Some(value) else None }

  /**
    `parse_rfc3339_ms`: for the text of a timestamp its exact instant, cut to milliseconds, and
    nothing for an instant before the epoch or for any other text.
  */
  method ParseRfc3339Ms(b: Octets) returns (r: Option<nat>)
    ensures forall t: Timestamp :: Valid(t) && Text(t) == b ==> r == Instant(t)
    ensures r.Some? ==> exists t: Timestamp :: Valid(t) && Text(t) == b && Instant(t) == r
  {
    hide NumberAt, ReadFront, ReadZone, DaysFromCivil, Text, FrontText;
    ReadDetermines(b);
    if |b| < 20 {
      return None;
    }
    var front := ParseFront(b);
    if front.None? {
      return None;
    }
    var cursor := 19;
    var fraction: Octets := [];
    if b[cursor] == DOT {
      cursor := cursor + 1;
      var start := cursor;
      while cursor < |b| && IsDigit(b[cursor])
        invariant start <= cursor <= |b| && DigitsEnd(b, start) == DigitsEnd(b, cursor)
        invariant forall k :: start <= k < cursor ==> IsDigit(b[k])
      {
        cursor := cursor + 1;
      }
      if cursor == start {
        return None;
      }
      fraction := b[start..cursor];
    }
    var zone := ParseZone(b, cursor);
    if zone.None? {
      return None;
    }
    ghost var t := front.value.(fraction := fraction, zone := zone.value);
    assert Read(b) == Some(t);
    ReadIsText(b, t);
    SecondsInRange(t);
    var f := front.value;
    var days := Checked(DaysFromCivil(f.date) * 86_400);
    if days.None? {
      return None;
    }
    var local := Checked(days.value + (f.hour * 3600 + f.minute * 60 + f.second));
    if local.None? {
      return None;
    }
    var seconds := Checked(local.value - OffsetSeconds(zone.value));
    if seconds.None? || seconds.value < 0 {
      return None;
    }
    var millis := Millis(fraction);
    if seconds.value * 1000 > MAX_U64 || seconds.value * 1000 + millis > MAX_U64 {
      return None;
    }
    r := Some(seconds.value * 1000 + millis);
  }

  /** A text is that of at most one timestamp, and `Read` finds it. */
  lemma ReadDetermines(b: Octets)
    ensures forall t: Timestamp :: Valid(t) && Text(t) == b ==> Read(b) == Some(t)
  {
    hide Read, Text;
    forall t: Timestamp | Valid(t) && Text(t) == b ensures Read(b) == Some(t) {
      TextIsRead(t);
    }
  }
}
