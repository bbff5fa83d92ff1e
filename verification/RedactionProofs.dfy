/**
  The other half of what redaction guarantees: every other secret can be forged, and nothing outside
  the secrets is touched.
*/
module RedactionProofs {
  import opened Bytes
  import opened Redaction

  // ---- a secret that is not unforgeable can be made to appear

  /** Where the pieces of a forged input stand. */
  lemma {:induction false} NothingToFind(text: Octets, secret: Octets, offset: nat)
    requires forall i: nat :: offset <= i ==> !OccursAt(text, secret, i)
    ensures FindFrom(text, secret, offset).None?
    decreases |text| - offset
  {}

  /** Looking for a run of `n` bytes `x` that stands at `i` and nowhere else. */
  lemma RunFound(text: Octets, x: byte, i: nat, n: nat)
    requires 0 < n && i + n <= |text|
    requires forall p :: 0 <= p < |text| ==> (text[p] == x <==> i <= p < i + n)
    ensures FindFrom(text, Run(x, n), 0) == Some(i)
  {
    var run := Run(x, n);
    assert OccursAt(text, run, i);
    var found := FindFrom(text, run, 0).value;
    assert text[found] == run[0] && text[found + (n - 1)] == run[n - 1];
  }

  function Run(x: byte, n: nat): (r: Octets)
    ensures |r| == n && forall k :: 0 <= k < n ==> r[k] == x
  {
    seq(n, _ => x)
  }

  lemma RunStarts(text: Octets, x: byte, n: nat, q: nat)
    requires OccursAt(text, Run(x, n), q) && 0 < n
    ensures q < |text| && text[q] == x
  {
    assert text[q] == Run(x, n)[0];
  }

  /** Redacting such a run masks it and nothing else. */
  lemma RunMasked(text: Octets, x: byte, i: nat, n: nat)
    requires 0 < n && i + n <= |text| && x != STAR && x !in REDACTED
    requires forall p :: 0 <= p < |text| ==> (text[p] == x <==> i <= p < i + n)
    ensures Pass(text, Run(x, n), 0) == Masked(text, i, n)
  {
    RunFound(text, x, i, n);
    var next := Masked(text, i, n);
    forall q: nat | i + n <= q ensures !OccursAt(next, Run(x, n), q) {
      if OccursAt(next, Run(x, n), q) {
        RunStarts(next, x, n, q);
        assert false;
      }
    }
    NothingToFind(next, Run(x, n), i + n);
  }

  /** The text around a run forges the secret where the mask completes it. */
  lemma Forged(input: Octets, secret: Octets, x: byte, i: nat, n: nat, q: nat)
    requires 0 < n <= |secret| && i + n <= |input| && q + |secret| <= |input|
    requires x !in secret && x != STAR && x !in REDACTED
    requires forall p :: 0 <= p < |input| ==> (input[p] == x <==> i <= p < i + n)
    requires i < |secret| && |input| - (i + n) < |secret|
    requires OccursAt(Masked(input, i, n), secret, q)
    ensures Contains(Redacted(input, [secret, Run(x, n)]), secret)
  {
    var run := Run(x, n);
    TwoSecrets(secret, run);
    forall p: nat ensures !OccursAt(input, secret, p) {
      if OccursAt(input, secret, p) {
        RunIsInside(input, secret, x, i, n, p);
        assert false;
      }
    }
    NothingToFind(input, secret, 0);
    assert Pass(input, secret, 0) == input;
    RunMasked(input, x, i, n);
    assert [secret, run][1..] == [run] && [run][1..] == [];
    assert Passes(input, [secret, run]) == Passes(Pass(input, run, 0), []);
    assert OccursAt(Redacted(input, [secret, run]), secret, q);
  }

  /** An occurrence too long to miss the run would contain its byte. */
  lemma RunIsInside(input: Octets, secret: Octets, x: byte, i: nat, n: nat, p: nat)
    requires OccursAt(input, secret, p) && 0 < n && i + n <= |input|
    requires forall k :: i <= k < i + n ==> input[k] == x
    requires i < |secret| && |input| - (i + n) < |secret|
    ensures x in secret
  {
    var at := if p < i then i else p;
    assert input[at] == secret[at - p];
  }

  lemma TwoSecrets(first: Octets, second: Octets)
    requires first != [] && second != [] && |second| <= |first|
    ensures LongestFirst([first, second]) == [first, second]
  {
    assert [first, second][..1] == [first] && [first][..0] == [] && [first][1..] == [];
    assert LongestFirst([]) == [] && Inserted([], first) == [first] && Inserted([], second) == [second];
    assert LongestFirst([first]) == [first];
    assert Inserted([first], second) == [first] + Inserted([first][1..], second);
  }

  /** A secret with a star: a one-byte secret supplies it. */
  lemma StarForged(secret: Octets, x: byte) returns (input: Octets, other: Octets)
    requires STAR in secret && x !in secret && x != STAR && x !in REDACTED
    ensures other != [] && Contains(Redacted(input, [secret, other]), secret)
  {
    var k: nat :| k < |secret| && secret[k] == STAR;
    input := secret[..k] + [x] + secret[k + 1..];
    other := Run(x, 1);
    forall p | 0 <= p < |input| ensures input[p] == x <==> k <= p < k + 1 {
      if p != k {
        assert input[p] == secret[p];
        assert secret[p] in secret;
      }
    }
    Forged(input, secret, x, k, 1, 0);
  }

  /** The secret laid over ten bytes `x` that take the place of `[REDACTED]`, shifted by `d`. */
  ghost function Laid(secret: Octets, d: int, x: byte): (r: Octets)
    requires |secret| >= 10 && -10 < d < |secret|
    ensures var q, i := if d < 0 then -d else 0, if d < 0 then 0 else d;
            && |r| == (if q + |secret| < i + 10 then i + 10 else q + |secret|)
            && forall p :: 0 <= p < |r| ==> r[p] == if i <= p < i + 10 then x else secret[p - q]
  {
    var q, i := if d < 0 then -d else 0, if d < 0 then 0 else d;
    seq(if q + |secret| < i + 10 then i + 10 else q + |secret|,
        p requires 0 <= p < (if q + |secret| < i + 10 then i + 10 else q + |secret|) =>
          if i <= p < i + 10 then x else secret[p - q])
  }

  /** Masking the ten bytes completes the secret. */
  lemma LaidCompletes(secret: Octets, d: int, x: byte, q: nat, i: nat)
    requires |secret| >= 10 && TouchesAt(secret, d)
    requires q == (if d < 0 then -d else 0) && i == if d < 0 then 0 else d
    ensures OccursAt(Masked(Laid(secret, d, x), i, 10), secret, q)
  {
    var masked := Masked(Laid(secret, d, x), i, 10);
    forall p | q <= p < q + |secret| ensures masked[p] == secret[p - q] {
      if i <= p < i + 10 {
        var k := p - i;
        assert d + k == p - q;
        assert Mask(10)[k] == REDACTED[k] == secret[d + k];
      }
    }
  }

  /** A secret that touches `[REDACTED]`: ten other bytes supply the overlap. */
  lemma MarkerForged(secret: Octets, d: int, x: byte) returns (input: Octets, other: Octets)
    requires |secret| >= 10 && TouchesAt(secret, d) && x !in secret && x != STAR && x !in REDACTED
    ensures other != [] && Contains(Redacted(input, [secret, other]), secret)
  {
    hide Redacted, Contains, TouchesAt, OccursAt, Laid, Masked;
    assert -10 < d < |secret| by { TouchesWithin(secret, d); }
    var q: nat := if d < 0 then -d else 0;
    var i: nat := if d < 0 then 0 else d;
    input, other := Laid(secret, d, x), Run(x, 10);
    forall p | 0 <= p < |input| ensures input[p] == x <==> i <= p < i + 10 {
      if !(i <= p < i + 10) {
        assert secret[p - q] in secret;
      }
    }
    LaidCompletes(secret, d, x, q, i);
    Forged(input, secret, x, i, 10, q);
  }

  lemma TouchesWithin(secret: Octets, d: int)
    requires TouchesAt(secret, d)
    ensures -10 < d < |secret|
  {}

  /** A byte that neither the secret nor the masks use. */
  predicate Spare(x: byte, secret: Octets) { x !in secret && x != STAR && x !in REDACTED }

  /**
    Exactly the unforgeable secrets are safe: every other one shows in the result for some input and
    some further secret (provided there is a byte value it does not use).
  */
  lemma SafeIffUnforgeable(secret: Octets, x: byte)
    requires secret != [] && Spare(x, secret)
    ensures Unforgeable(secret)
            <==> forall input: Octets, others: seq<Octets> ::
                   !Contains(Redacted(input, [secret] + others), secret)
  {
    hide OccursAt, Redacted, Contains, TouchesAt;
    if Unforgeable(secret) {
      forall input: Octets, others: seq<Octets> ensures !Contains(Redacted(input, [secret] + others), secret) {
        NoSecretRemains(input, [secret] + others, secret);
      }
    } else if STAR in secret {
      var input, other := StarForged(secret, x);
      assert [secret] + [other] == [secret, other];
    } else {
      var d :| TouchesAt(secret, d);
      var input, other := MarkerForged(secret, d, x);
      assert [secret] + [other] == [secret, other];
    }
  }

  // ---- nothing else is touched

  /** Position `p` of the input lies in an occurrence of some secret. */
  ghost predicate Covered(input: Octets, secrets: seq<Octets>, p: nat) {
    exists j: nat, i: nat :: j < |secrets| && OccursAt(input, secrets[j], i) && i <= p < i + |secrets[j]|
  }

  predicate IsMarker(c: byte) { c == STAR || c == OPEN || c == CLOSE }

  /** Position `p` lies between two markers, with nothing but marked positions from one to the other. */
  ghost predicate Fenced(text: Octets, marked: set<nat>, p: nat) {
    exists a: nat, b: nat ::
      a < p < b < |text| && IsMarker(text[a]) && IsMarker(text[b]) && forall k: nat :: a <= k <= b ==> k in marked
  }

  /** Only marked positions differ from the input; marked letters are fenced in by markers. */
  ghost predicate Faithful(input: Octets, text: Octets, secrets: seq<Octets>, marked: set<nat>) {
    && |text| == |input|
    && (forall p: nat :: p < |text| && p !in marked ==> text[p] == input[p])
    && (forall p: nat :: p in marked ==> p < |text| && Covered(input, secrets, p))
    && (forall p: nat :: p in marked && p < |text| && !IsMarker(text[p]) ==> Fenced(text, marked, p))
  }

  function Window(i: nat, n: nat): (r: set<nat>)
    ensures forall p: nat :: p in r <==> i <= p < i + n
  {
    if n == 0 then {} else Window(i, n - 1) + {i + n - 1}
  }

  lemma NoMarkerInside(text: Octets, secret: Octets, i: nat)
    requires OccursAt(text, secret, i) && MarkerFree(secret)
    ensures forall k :: i <= k < i + |secret| ==> !IsMarker(text[k])
  {
    forall k | i <= k < i + |secret| ensures !IsMarker(text[k]) {
      assert text[k] == secret[k - i] && secret[k - i] in secret;
    }
  }

  /** An occurrence without markers is all marked or not marked at all. */
  lemma AllOrNothing(input: Octets, text: Octets, secrets: seq<Octets>, marked: set<nat>, secret: Octets, i: nat, p: nat)
    requires Faithful(input, text, secrets, marked) && MarkerFree(secret) && OccursAt(text, secret, i)
    requires p in marked && i <= p < i + |secret|
    ensures Window(i, |secret|) <= marked
  {
    NoMarkerInside(text, secret, i);
    assert Fenced(text, marked, p);
    var a: nat, b: nat :| a < p < b < |text| && IsMarker(text[a]) && IsMarker(text[b]) && forall k: nat :: a <= k <= b ==> k in marked;
    assert a < i && i + |secret| <= b;
  }

  /** Only the word between the brackets of a mask is not made of markers. */
  lemma MaskLetters(n: nat, k: nat)
    requires k < n && !IsMarker(Mask(n)[k])
    ensures n >= 10 && 0 < k < 9
  {}

  /** Letters inside a fresh mask are fenced in by its brackets. */
  lemma MaskFences(text: Octets, marked: set<nat>, i: nat, n: nat, p: nat)
    requires i + n <= |text| && (forall k: nat :: i <= k < i + n ==> text[k] == Mask(n)[k - i])
    requires Window(i, n) <= marked && i <= p < i + n && !IsMarker(text[p])
    ensures Fenced(text, marked, p)
  {
    MaskLetters(n, p - i);
    assert text[i] == Mask(n)[0] == OPEN && text[i + 9] == Mask(n)[9] == CLOSE;
    assert forall k: nat :: i <= k <= i + 9 ==> k in Window(i, n);
  }

  /** An old fence survives a mask put elsewhere or strictly inside it. */
  lemma FenceSurvives(text: Octets, marked: set<nat>, more: set<nat>, i: nat, secret: Octets, p: nat)
    requires OccursAt(text, secret, i) && MarkerFree(secret) && marked <= more
    requires Fenced(text, marked, p) && !(i <= p < i + |secret|)
    ensures Fenced(Masked(text, i, |secret|), more, p)
  {
    var a: nat, b: nat :| a < p < b < |text| && IsMarker(text[a]) && IsMarker(text[b]) && forall k: nat :: a <= k <= b ==> k in marked;
    var next := Masked(text, i, |secret|);
    NoMarkerInside(text, secret, i);
    assert next[a] == text[a] && next[b] == text[b];
  }

  /** One replacement keeps the text faithful. */
  lemma MaskingFaithful(input: Octets, text: Octets, secrets: seq<Octets>, marked: set<nat>, j: nat, i: nat)
    returns (more: set<nat>)
    requires Faithful(input, text, secrets, marked) && j < |secrets| && secrets[j] != []
    requires MarkerFree(secrets[j]) && OccursAt(text, secrets[j], i)
    ensures Faithful(input, Masked(text, i, |secrets[j]|), secrets, more)
  {
    hide Fenced, MarkerFree, Covered;
    var secret := secrets[j];
    var n := |secret|;
    var next := Masked(text, i, n);
    more := marked + Window(i, n);
    WindowCovered(input, text, secrets, marked, j, i);
    forall p: nat | p in more && p < |next| && !IsMarker(next[p]) ensures Fenced(next, more, p) {
      if i <= p < i + n {
        MaskFences(next, more, i, n, p);
      } else {
        FenceSurvives(text, marked, more, i, secret, p);
      }
    }
  }

  /** What is replaced was an occurrence in the input, or lies in what was covered before. */
  lemma WindowCovered(input: Octets, text: Octets, secrets: seq<Octets>, marked: set<nat>, j: nat, i: nat)
    requires Faithful(input, text, secrets, marked) && j < |secrets|
    requires MarkerFree(secrets[j]) && OccursAt(text, secrets[j], i)
    ensures forall p: nat :: p in Window(i, |secrets[j]|) ==> p < |text| && Covered(input, secrets, p)
  {
    var secret := secrets[j];
    if p: nat :| p in marked && i <= p < i + |secret| {
      AllOrNothing(input, text, secrets, marked, secret, i, p);
    } else {
      assert OccursAt(input, secret, i);
    }
  }

  lemma {:induction false} PassFaithful(input: Octets, text: Octets, secrets: seq<Octets>, marked: set<nat>, j: nat, offset: nat)
    returns (more: set<nat>)
    requires Faithful(input, text, secrets, marked) && j < |secrets| && secrets[j] != [] && MarkerFree(secrets[j])
    ensures Faithful(input, Pass(text, secrets[j], offset), secrets, more)
    decreases |text| - offset
  {
    hide Faithful, OccursAt, MarkerFree;
    more := marked;
    if FindFrom(text, secrets[j], offset).Some? {
      var i := FindFrom(text, secrets[j], offset).value;
      OccurrenceFits(text, secrets[j], i);
      more := MaskingFaithful(input, text, secrets, marked, j, i);
      more := PassFaithful(input, Masked(text, i, |secrets[j]|), secrets, more, j, i + |secrets[j]|);
    }
  }

  lemma {:induction false} PassesFaithful(input: Octets, text: Octets, secrets: seq<Octets>, marked: set<nat>, ordered: seq<Octets>)
    returns (more: set<nat>)
    requires Faithful(input, text, secrets, marked) && NoneEmpty(ordered)
    requires forall k :: 0 <= k < |ordered| ==> ordered[k] in secrets && MarkerFree(ordered[k])
    ensures Faithful(input, Passes(text, ordered), secrets, more)
    decreases |ordered|
  {
    hide Faithful, MarkerFree;
    more := marked;
    if ordered != [] {
      var j: nat :| j < |secrets| && secrets[j] == ordered[0];
      more := PassFaithful(input, text, secrets, marked, j, 0);
      more := PassesFaithful(input, Pass(text, ordered[0], 0), secrets, more, ordered[1..]);
    }
  }

  /** With secrets free of markers, only positions inside an occurrence of a secret can change. */
  lemma OnlySecretsChange(input: Octets, secrets: seq<Octets>, p: nat)
    requires forall k :: 0 <= k < |secrets| ==> MarkerFree(secrets[k])
    requires p < |input| && Redacted(input, secrets)[p] != input[p]
    ensures Covered(input, secrets, p)
  {
    hide MarkerFree, Covered;
    LongestFirstOrders(secrets);
    var ordered := LongestFirst(secrets);
    forall k | 0 <= k < |ordered| ensures ordered[k] in secrets && MarkerFree(ordered[k]) {
      assert ordered[k] in ordered;
      var j :| 0 <= j < |secrets| && secrets[j] == ordered[k];
    }
    var marked := PassesFaithful(input, input, secrets, {}, ordered);
  }

  /** The smallest such secret: two stars, which a mask of length two is made of. */
  lemma StarsLeak()
    ensures !Unforgeable([STAR, STAR])
    ensures exists input: Octets, other: Octets :: other != [] && Contains(Redacted(input, [[STAR, STAR], other]), [STAR, STAR])
  {
    assert [STAR, STAR][0] in [STAR, STAR];
    var input, other := StarForged([STAR, STAR], 0x61);
  }
}
