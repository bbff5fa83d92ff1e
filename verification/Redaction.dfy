/**
  Redaction of recorded error payloads. A secret free of the masks' own bytes never shows in the
  result, whatever else is redacted; and those are exactly the secrets one can rely on.
*/
module Redaction {
  import opened Bytes

  const STAR: byte := 0x2A
  const OPEN: byte := 0x5B
  const CLOSE: byte := 0x5D
  const REDACTED: Octets := [0x5B, 0x52, 0x45, 0x44, 0x41, 0x43, 0x54, 0x45, 0x44, 0x5D]
  const MAX_ERROR_PAYLOAD_BYTES: nat := 65_536

  function Stars(n: nat): (r: Octets)
    ensures |r| == n && forall k :: 0 <= k < n ==> r[k] == STAR
  {
    seq(n, _ => STAR)
  }

  /** What replaces a secret of length `n`. */
  function Mask(n: nat): (r: Octets)
    ensures |r| == n
  {
    if n >= 10 then REDACTED + Stars(n - 10) else Stars(n)
  }

  predicate OccursAt(text: Octets, secret: Octets, i: nat) {
    i + |secret| <= |text| && forall p :: i <= p < i + |secret| ==> text[p] == secret[p - i]
  }

  predicate NoneEmpty(secrets: seq<Octets>) { forall k :: 0 <= k < |secrets| ==> secrets[k] != [] }

  ghost predicate Contains(text: Octets, secret: Octets) { exists i: nat :: OccursAt(text, secret, i) }

  /** The first occurrence at or behind `offset`. */
  function FindFrom(text: Octets, secret: Octets, offset: nat): (r: Option<nat>)
    ensures r.Some? ==> offset <= r.value && OccursAt(text, secret, r.value)
    ensures forall i: nat :: offset <= i && OccursAt(text, secret, i) ==> r.Some? && r.value <= i
    decreases |text| - offset
  {
    if offset + |secret| > |text| then None
    else if OccursAt(text, secret, offset) then Some(offset)
    else FindFrom(text, secret, offset + 1)
  }

  function Masked(text: Octets, i: nat, n: nat): (r: Octets)
    requires i + n <= |text|
    ensures |r| == |text|
    ensures forall k :: 0 <= k < |text| ==> r[k] == if i <= k < i + n then Mask(n)[k - i] else text[k]
  {
    text[..i] + Mask(n) + text[i + n..]
  }

  /** One secret, from left to right, never inside what was just replaced. */
  function Pass(text: Octets, secret: Octets, offset: nat): (r: Octets)
    requires secret != []
    ensures |r| == |text|
    decreases |text| - offset
  {
    match FindFrom(text, secret, offset)
    case None => text
    case Some(i) => Pass(Masked(text, i, |secret|), secret, i + |secret|)
  }

  /** All secrets in the order given. */
  function Passes(text: Octets, ordered: seq<Octets>): (r: Octets)
    requires NoneEmpty(ordered)
    ensures |r| == |text|
    decreases |ordered|
  {
    if ordered == [] then text else Passes(Pass(text, ordered[0], 0), ordered[1..])
  }

  /** Stable insertion behind everything at least as long. */
  function Inserted(ordered: seq<Octets>, secret: Octets): seq<Octets> {
    if ordered == [] || |ordered[0]| < |secret| then [secret] + ordered
    else [ordered[0]] + Inserted(ordered[1..], secret)
  }

  /** The secrets that are not empty, longest first, equal lengths in their old order. */
  function LongestFirst(secrets: seq<Octets>): seq<Octets> {
    if secrets == [] then []
    else
      var last := secrets[|secrets| - 1];
      var front := LongestFirst(secrets[..|secrets| - 1]);
      if last == [] then front else Inserted(front, last)
  }

  ghost predicate Descending(ordered: seq<Octets>) {
    forall j, k :: 0 <= j < k < |ordered| ==> |ordered[j]| >= |ordered[k]|
  }

  lemma {:induction false} InsertedKeepsOrder(ordered: seq<Octets>, secret: Octets)
    requires Descending(ordered) && NoneEmpty(ordered) && secret != []
    ensures Descending(Inserted(ordered, secret)) && NoneEmpty(Inserted(ordered, secret))
    ensures forall s :: s in Inserted(ordered, secret) <==> s in ordered || s == secret
  {
    if ordered != [] && |ordered[0]| >= |secret| {
      InsertedKeepsOrder(ordered[1..], secret);
      var rest := Inserted(ordered[1..], secret);
      forall k | 0 <= k < |rest| ensures |ordered[0]| >= |rest[k]| {
        assert rest[k] in rest;
      }
    }
  }

  lemma {:induction false} LongestFirstOrders(secrets: seq<Octets>)
    ensures Descending(LongestFirst(secrets)) && NoneEmpty(LongestFirst(secrets))
    ensures forall s :: s in LongestFirst(secrets) <==> s in secrets && s != []
  {
    if secrets != [] {
      var last := secrets[|secrets| - 1];
      var before := secrets[..|secrets| - 1];
      LongestFirstOrders(before);
      assert secrets == before + [last];
      if last != [] {
        InsertedKeepsOrder(LongestFirst(before), last);
      }
    }
  }

  /** `redact` as a function. */
  function Redacted(input: Octets, secrets: seq<Octets>): (r: Octets)
    ensures |r| == |input|
  {
    LongestFirstOrders(secrets);
    Passes(input, LongestFirst(secrets))
  }

  /** The outer loop, longest secret first. */
  method Redact(input: Octets, secrets: seq<Octets>) returns (redacted: Octets)
    ensures redacted == Redacted(input, secrets)
  {
    LongestFirstOrders(secrets);
    redacted := input;
    var ordered := LongestFirst(secrets);
    for j := 0 to |ordered|
      invariant Passes(input, ordered) == Passes(redacted, ordered[j..])
    {
      assert ordered[j..][1..] == ordered[j + 1..];
      redacted := SpliceAll(redacted, ordered[j]);
    }
  }

  /** The inner loop: the buffer is spliced in place, one match after the other. */
  method SpliceAll(input: Octets, secret: Octets) returns (redacted: Octets)
    requires secret != []
    ensures redacted == Pass(input, secret, 0)
  {
    hide OccursAt;
    redacted := input;
    var offset: nat := 0;
    var found := FindFrom(redacted, secret, offset);
    while found.Some?
      invariant found == FindFrom(redacted, secret, offset)
      invariant Pass(input, secret, 0) == Pass(redacted, secret, offset)
      decreases |redacted| - offset
    {
      var start := found.value;
      OccurrenceFits(redacted, secret, start);
      redacted := Masked(redacted, start, |secret|);
      offset := start + |secret|;
      found := FindFrom(redacted, secret, offset);
    }
  }

  // ---- what a pass does

  /** The mask, letter by letter. */
  lemma MaskTells(n: nat, k: nat)
    requires k < n
    ensures Mask(n)[k] as int == (if n >= 10 && k < 10 then "[REDACTED]"[k] else '*') as int
  {
    assert "[REDACTED]" == ['[', 'R', 'E', 'D', 'A', 'C', 'T', 'E', 'D', ']'];
  }

  lemma FindShift(front: Octets, text: Octets, secret: Octets, offset: nat)
    requires offset <= |text|
    ensures FindFrom(front + text, secret, |front| + offset)
            == match FindFrom(text, secret, offset)
               case None => None
               case Some(i) => Some(|front| + i)
  {
    forall i: nat | i >= offset ensures OccursAt(front + text, secret, |front| + i) <==> OccursAt(text, secret, i) {
      OccursShift(front, text, secret, i);
    }
    var there := FindFrom(front + text, secret, |front| + offset);
    if there.Some? {
      assert OccursAt(text, secret, there.value - |front|);
    }
  }

  lemma OccursShift(front: Octets, text: Octets, secret: Octets, i: nat)
    ensures OccursAt(front + text, secret, |front| + i) <==> OccursAt(text, secret, i)
  {
    var both := front + text;
    if i + |secret| <= |text| {
      assert forall p :: i <= p < i + |secret| ==> both[|front| + p] == text[p];
      if OccursAt(both, secret, |front| + i) {
        forall p | i <= p < i + |secret| ensures text[p] == secret[p - i] {
          assert both[|front| + p] == secret[|front| + p - (|front| + i)];
        }
      }
    }
  }

  lemma MaskedShift(front: Octets, text: Octets, i: nat, n: nat)
    requires i + n <= |text|
    ensures Masked(front + text, |front| + i, n) == front + Masked(text, i, n)
  {
    var there := Masked(front + text, |front| + i, n);
    assert there[..|front|] == front && there[|front|..] == Masked(text, i, n);
  }

  lemma PassNext(text: Octets, secret: Octets, offset: nat)
    requires secret != []
    ensures FindFrom(text, secret, offset).None? ==> Pass(text, secret, offset) == text
    ensures FindFrom(text, secret, offset).Some? ==>
              var i := FindFrom(text, secret, offset).value;
              && i + |secret| <= |text|
              && Pass(text, secret, offset) == Pass(Masked(text, i, |secret|), secret, i + |secret|)
  {
    hide FindFrom, Masked;
  }

  /** What stands before the offset is left alone. */
  lemma {:induction false} PassShift(front: Octets, text: Octets, secret: Octets, offset: nat)
    requires secret != [] && offset <= |text|
    ensures Pass(front + text, secret, |front| + offset) == front + Pass(text, secret, offset)
    decreases |text| - offset
  {
    hide *;
    FindShift(front, text, secret, offset);
    PassNext(text, secret, offset);
    PassNext(front + text, secret, |front| + offset);
    if FindFrom(text, secret, offset).Some? {
      var i := FindFrom(text, secret, offset).value;
      PassShift(front, Masked(text, i, |secret|), secret, i + |secret|);
      MaskedShift(front, text, i, |secret|);
    }
  }

  /** A pass replaces the first occurrence by its mask and goes on behind it; a text without one it leaves alone. */
  lemma PassTells(before: Octets, secret: Octets, behind: Octets)
    requires secret != []
    ensures !Contains(behind, secret) ==> Pass(behind, secret, 0) == behind
    ensures (forall i: nat :: i < |before| ==> !OccursAt(before + secret + behind, secret, i)) ==>
              Pass(before + secret + behind, secret, 0) == before + Mask(|secret|) + Pass(behind, secret, 0)
  {
    hide Masked, OccursAt;
    var text := before + secret + behind;
    OccursBetween(before, secret, behind);
    if forall i: nat :: i < |before| ==> !OccursAt(text, secret, i) {
      assert FindFrom(text, secret, 0) == Some(|before|);
      MaskedTells(before, secret, behind);
      PassShift(before + Mask(|secret|), behind, secret, 0);
    }
  }

  lemma OccursBetween(before: Octets, secret: Octets, behind: Octets)
    ensures OccursAt(before + secret + behind, secret, |before|)
  {}

  lemma MaskedTells(before: Octets, secret: Octets, behind: Octets)
    ensures Masked(before + secret + behind, |before|, |secret|) == before + Mask(|secret|) + behind
  {}

  // ---- which secrets can be relied on

  /** Shifting `[REDACTED]` by `d` over the secret, the overlapping bytes agree. */
  ghost predicate TouchesAt(secret: Octets, d: int) {
    -10 < d < |secret| && forall k :: 0 <= k < 10 && 0 <= d + k < |secret| ==> secret[d + k] == REDACTED[k]
  }

  /** Masks can neither contain the secret nor complete it. */
  ghost predicate Unforgeable(secret: Octets) {
    STAR !in secret && (|secret| >= 10 ==> forall d :: !TouchesAt(secret, d))
  }

  predicate MarkerFree(secret: Octets) { STAR !in secret && OPEN !in secret && CLOSE !in secret }

  lemma MarkerFreeIsUnforgeable(secret: Octets)
    requires MarkerFree(secret)
    ensures Unforgeable(secret)
  {
    if |secret| >= 10 {
      forall d ensures !TouchesAt(secret, d) {
        if -10 < d < |secret| {
          if 0 <= d {
            assert secret[d] != REDACTED[0];
          } else {
            assert secret[d + 9] != REDACTED[9];
          }
        }
      }
    }
  }

  /** An occurrence that overlaps a mask shares a star with it or touches `[REDACTED]`. */
  lemma OverlapTouches(text: Octets, secret: Octets, q: nat, i: nat, n: nat)
    requires OccursAt(text, secret, q) && OccursAt(text, Mask(n), i) && 0 < n <= |secret|
    requires i < q + |secret| && q < i + n
    ensures STAR in secret || (|secret| >= 10 && TouchesAt(secret, i - q))
  {
    if n < 10 {
      var p := if i < q then q else i;
      assert text[p] == Mask(n)[p - i] == secret[p - q];
    } else if i + 10 <= q {
      assert text[q] == Mask(n)[q - i] == secret[0];
    } else {
      MarkerTouches(text, secret, q, i, n);
    }
  }

  lemma MarkerTouches(text: Octets, secret: Octets, q: nat, i: nat, n: nat)
    requires OccursAt(text, secret, q) && OccursAt(text, Mask(n), i) && 10 <= n <= |secret|
    requires i < q + |secret| && q < i + 10
    ensures TouchesAt(secret, i - q)
  {
    var d, mask := i - q, Mask(n);
    assert mask[..10] == REDACTED;
    hide Mask, REDACTED;
    forall k | 0 <= k < 10 && 0 <= d + k < |secret| ensures secret[d + k] == REDACTED[k] {
      assert text[i + k] == mask[k] == mask[..10][k];
      assert text[q + (d + k)] == secret[d + k];
    }
  }

  /** No occurrence of an unforgeable secret overlaps a mask that is no longer than the secret. */
  lemma MaskBlocks(text: Octets, secret: Octets, q: nat, i: nat, n: nat)
    requires Unforgeable(secret) && OccursAt(text, secret, q) && OccursAt(text, Mask(n), i) && 0 < n <= |secret|
    ensures q + |secret| <= i || i + n <= q
  {
    hide OccursAt, TouchesAt;
    if i < q + |secret| && q < i + n {
      OverlapTouches(text, secret, q, i, n);
    }
  }

  /** Masking something no longer creates no new occurrence, and removes those it overlaps. */
  lemma MaskingCreatesNone(text: Octets, i: nat, n: nat, secret: Octets, q: nat)
    requires i + n <= |text| && 0 < n <= |secret| && Unforgeable(secret)
    requires OccursAt(Masked(text, i, n), secret, q)
    ensures OccursAt(text, secret, q) && (q + |secret| <= i || i + n <= q)
  {
    MaskBlocks(Masked(text, i, n), secret, q, i, n);
  }

  /** The pass of another secret that is no longer leaves no new occurrence. */
  lemma {:induction false} PassCreatesNone(text: Octets, other: Octets, offset: nat, secret: Octets, q: nat)
    requires other != [] && |other| <= |secret| && Unforgeable(secret)
    requires OccursAt(Pass(text, other, offset), secret, q)
    ensures OccursAt(text, secret, q)
    decreases |text| - offset
  {
    if FindFrom(text, other, offset).Some? {
      var i := FindFrom(text, other, offset).value;
      PassCreatesNone(Masked(text, i, |other|), other, i + |other|, secret, q);
      MaskingCreatesNone(text, i, |other|, secret, q);
    }
  }

  lemma OccurrenceFits(text: Octets, secret: Octets, i: nat)
    requires OccursAt(text, secret, i)
    ensures i + |secret| <= |text|
  {}

  /** A secret's own pass leaves no occurrence at all. */
  lemma {:induction false} OwnPassRemoves(text: Octets, secret: Octets, offset: nat, q: nat)
    requires secret != [] && Unforgeable(secret)
    requires forall i: nat :: i < offset ==> !OccursAt(text, secret, i)
    ensures !OccursAt(Pass(text, secret, offset), secret, q)
    decreases |text| - offset
  {
    hide OccursAt, Masked, Unforgeable;
    if FindFrom(text, secret, offset).Some? {
      var i := FindFrom(text, secret, offset).value;
      assert i + |secret| <= |text| by { OccurrenceFits(text, secret, i); }
      var next := Masked(text, i, |secret|);
      forall p: nat | p < i + |secret| ensures !OccursAt(next, secret, p) {
        if OccursAt(next, secret, p) {
          MaskingCreatesNone(text, i, |secret|, secret, p);
        }
      }
      OwnPassRemoves(next, secret, i + |secret|, q);
    }
  }

  lemma {:induction false} PassesCreateNone(text: Octets, ordered: seq<Octets>, secret: Octets, q: nat)
    requires NoneEmpty(ordered) && forall k :: 0 <= k < |ordered| ==> |ordered[k]| <= |secret|
    requires Unforgeable(secret) && OccursAt(Passes(text, ordered), secret, q)
    ensures OccursAt(text, secret, q)
    decreases |ordered|
  {
    hide Unforgeable, OccursAt;
    if ordered != [] {
      PassesCreateNone(Pass(text, ordered[0], 0), ordered[1..], secret, q);
      PassCreatesNone(text, ordered[0], 0, secret, q);
    }
  }

  lemma {:induction false} PassesRemove(text: Octets, ordered: seq<Octets>, secret: Octets, q: nat)
    requires NoneEmpty(ordered) && Descending(ordered) && secret in ordered && Unforgeable(secret)
    ensures !OccursAt(Passes(text, ordered), secret, q)
    decreases |ordered|
  {
    hide Unforgeable, OccursAt;
    if ordered[0] == secret {
      if OccursAt(Passes(text, ordered), secret, q) {
        PassesCreateNone(Pass(text, secret, 0), ordered[1..], secret, q);
        OwnPassRemoves(text, secret, 0, q);
      }
    } else {
      PassesRemove(Pass(text, ordered[0], 0), ordered[1..], secret, q);
    }
  }

  /** An unforgeable secret does not show in the result, whatever the input and the other secrets. */
  lemma NoSecretRemains(input: Octets, secrets: seq<Octets>, secret: Octets)
    requires secret in secrets && secret != [] && Unforgeable(secret)
    ensures !Contains(Redacted(input, secrets), secret)
  {
    hide Unforgeable, OccursAt;
    LongestFirstOrders(secrets);
    forall q: nat ensures !OccursAt(Redacted(input, secrets), secret, q) {
      PassesRemove(input, LongestFirst(secrets), secret, q);
    }
  }
}
