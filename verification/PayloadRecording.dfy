/** Recording the payload of a failed response: how it is captured, cut and redacted. */
module PayloadRecording {
  import opened Bytes
  import opened Redaction
  import opened RedactionProofs

  function Min(a: nat, b: nat): nat { if a < b then a else b }

  function LongestOf(secrets: seq<Octets>): (r: nat)
    ensures forall k :: 0 <= k < |secrets| ==> |secrets[k]| <= r
  {
    if secrets == [] then 0
    else
      var rest := LongestOf(secrets[..|secrets| - 1]);
      var last := |secrets[|secrets| - 1]|;
      if rest < last then last else rest
  }

  /** How much more a buffer with a limit takes. */
  function Room(kept: Octets, limit: nat): nat { if |kept| < limit then limit - |kept| else 0 }

  function Appended(kept: Octets, bytes: Octets, limit: nat): Octets { kept + bytes[..Min(|bytes|, Room(kept, limit))] }

  lemma AppendedKeepsBeginning(seen: Octets, bytes: Octets, limit: nat)
    ensures Appended(seen[..Min(|seen|, limit)], bytes, limit) == (seen + bytes)[..Min(|seen + bytes|, limit)]
    ensures |seen| > limit || |bytes| > Room(seen[..Min(|seen|, limit)], limit) <==> |seen + bytes| > limit
  {}

  const MAX_USAGE_EVENT_BYTES: nat := 256 * 1024
  const MAX_COMPRESSED_OBSERVATION_BYTES: nat := 1024 * 1024

  /** What a gzip decoder makes of some bytes: all it yields, and whether it came to a proper end. */
  type Inflate = Octets -> (Octets, bool)

  class ResponseObservation {
    var usage: Octets                // what the usage parser was given
    var capture: bool
    var errorPayload: Octets
    var limit: nat
    var truncated: bool
    var redactions: seq<Octets>
    var gzip: bool
    var compressed: Octets
    var compressedTruncated: bool
    ghost var seen: Octets           // everything observed, in order

    /** The limit leaves room for every secret behind the part that is kept. */
    ghost predicate Valid()
      reads this
    {
      && 65_536 <= limit
      && forall k :: 0 <= k < |redactions| ==> 65_536 + |redactions[k]| <= limit
    }

    /** What is captured is the beginning of what was observed, as far as its limit allows. */
    ghost predicate Whole()
      reads this
    {
      && compressed == (if gzip then seen[..Min(|seen|, 1_048_576)] else [])
      && (compressedTruncated <==> gzip && |seen| > 1_048_576)
      && errorPayload == (if capture && !gzip then seen[..Min(|seen|, limit)] else [])
      && (truncated <==> capture && !gzip && |seen| > limit)
      && usage == if capture || gzip then [] else seen
    }

    constructor (redactions: seq<Octets>)
      ensures Valid() && Whole() && seen == [] && this.redactions == redactions
      ensures limit == 65_536 + LongestOf(redactions) && !capture && !gzip
    {
      this.usage := [];
      this.capture := false;
      this.errorPayload := [];
      this.limit := MAX_ERROR_PAYLOAD_BYTES + LongestOf(redactions);
      this.truncated := false;
      this.redactions := redactions;
      this.gzip := false;
      this.compressed := [];
      this.compressedTruncated := false;
      this.seen := [];
    }

    /** `configure`, before anything is observed: only the payload of a failed response is captured. */
    method Configure(success: bool, gzip: bool)
      requires Valid()
      modifies this
      ensures Valid() && seen == old(seen) && redactions == old(redactions) && limit == old(limit)
      ensures capture == !success && this.gzip == gzip && usage == []
      ensures old(Whole()) && seen == [] ==> Whole()
    {
      usage := [];
      capture := !success;
      this.gzip := gzip;
    }

    /**
      `add_redaction`, one variant at a time. Raising the limit after payload bytes were already
      dropped would leave a gap in the capture; as long as none was dropped it stays whole.
    */
    method AddRedaction(variant: Octets)
      requires Valid()
      modifies this
      ensures Valid() && redactions == old(redactions) + [variant] && seen == old(seen) && errorPayload == old(errorPayload)
      ensures capture == old(capture) && gzip == old(gzip)
      ensures limit == old(if limit < 65_536 + |variant| then 65_536 + |variant| else limit)
      ensures old(Whole()) ==> (Whole() <==> !capture || gzip || |seen| <= old(limit) || limit == old(limit))
    {
      if limit < MAX_ERROR_PAYLOAD_BYTES + |variant| {
        limit := MAX_ERROR_PAYLOAD_BYTES + |variant|;
      }
      redactions := redactions + [variant];
    }

    /** `observe`. */
    method Observe(bytes: Octets)
      requires Valid()
      modifies this
      ensures Valid() && seen == old(seen) + bytes && redactions == old(redactions) && limit == old(limit)
      ensures capture == old(capture) && gzip == old(gzip)
      ensures old(Whole()) ==> Whole()
      ensures capture && !gzip ==> errorPayload == Appended(old(errorPayload), bytes, limit)
    {
      hide Appended, Min, Room;
      AppendedKeepsBeginning(seen, bytes, if gzip then MAX_COMPRESSED_OBSERVATION_BYTES else limit);
      seen := seen + bytes;
      if gzip {
        if |bytes| > Room(compressed, MAX_COMPRESSED_OBSERVATION_BYTES) {
          compressedTruncated := true;
        }
        compressed := Appended(compressed, bytes, MAX_COMPRESSED_OBSERVATION_BYTES);
      } else if !capture {
        usage := usage + bytes;
      } else {
        if |bytes| > Room(errorPayload, limit) {
          truncated := true;
        }
        errorPayload := Appended(errorPayload, bytes, limit);
      }
    }

    /** The end of a gzip body: it is inflated, no further than needed, into the payload or the usage parser. */
    method FinishGzip(inflate: Inflate)
      requires Valid() && gzip
      modifies this
      ensures Valid() && redactions == old(redactions) && seen == old(seen) && capture == old(capture) && gzip && limit == old(limit)
      ensures old(Whole()) ==>
                var (all, complete) := inflate(seen[..Min(|seen|, 1_048_576)]);
                if capture then
                  && errorPayload == all[..Min(|all|, limit + 1)] && usage == []
                  && (truncated <==> |seen| > 1_048_576 || !complete || |all| > limit)
                else
                  && errorPayload == [] && !truncated
                  && usage == if |seen| <= 1_048_576 && complete && |all| <= 262_144 then all else []
    {
      var most := if capture then limit else MAX_USAGE_EVENT_BYTES;
      var (all, complete) := inflate(compressed);
      var decoded := all[..Min(|all|, most + 1)];
      var decodedComplete := complete || |all| > most;
      if capture {
        if decoded != [] || decodedComplete {
          errorPayload := decoded;
        }
        truncated := truncated || compressedTruncated || !decodedComplete || |errorPayload| > most;
      } else if decodedComplete && !compressedTruncated && |decoded| <= most {
        usage := usage + decoded;
        assert decoded == all;
      }
    }

    /** What of the payload there is to store, and whether it is less than there was. */
    ghost function Payload(inflate: Inflate): (Octets, bool)
      reads this
    {
      if !capture then ([], false)
      else if !gzip then (seen[..Min(|seen|, limit)], |seen| > 65_536)
      else
        var (all, complete) := inflate(seen[..Min(|seen|, 1_048_576)]);
        (all[..Min(|all|, limit + 1)],
         |seen| > 1_048_576 || !complete || |all| > 65_536)
    }

    /** `finish`: the payload to store, if the response failed, and whether it was cut. */
    method Finish(upstreamError: bool, inflate: Inflate) returns (payload: Option<Octets>, cut: bool)
      requires Valid()
      modifies this
      ensures seen == old(seen)
      ensures payload.Some? <==> upstreamError
      ensures payload.None? ==> !cut
      ensures old(Whole()) && !old(capture) && !old(gzip) ==> usage == old(seen)
      ensures payload.Some? && old(Whole()) ==>
                && payload.value == Stored(old(Payload(inflate)).0, old(redactions))
                && cut == old(Payload(inflate)).1
      ensures payload.Some? ==>
                && |payload.value| <= 65_536
                && forall k :: 0 <= k < |old(redactions)| && old(redactions)[k] != [] && Unforgeable(old(redactions)[k])
                               ==> !Contains(payload.value, old(redactions)[k])
      ensures payload.Some? && !old(gzip) ==> payload.value == Stored(old(errorPayload), old(redactions))
    {
      hide Unforgeable, Redacted;
      ghost var secrets := redactions;
      if gzip {
        FinishGzip(inflate);
      }
      if !upstreamError {
        return None, false;
      }
      var stored := Redact(errorPayload, redactions);
      if |stored| > MAX_ERROR_PAYLOAD_BYTES {
        stored := stored[..MAX_ERROR_PAYLOAD_BYTES];
      }
      cut := truncated || |errorPayload| > MAX_ERROR_PAYLOAD_BYTES;
      payload := Some(stored);
      assert stored == Stored(errorPayload, secrets);
      forall k | 0 <= k < |secrets| && secrets[k] != [] && Unforgeable(secrets[k])
        ensures !Contains(stored, secrets[k])
      {
        StoredHasNoSecret(errorPayload, secrets, secrets[k]);
      }
    }
  }

  function Stored(captured: Octets, secrets: seq<Octets>): Octets {
    var redacted := Redacted(captured, secrets);
    redacted[..Min(|redacted|, MAX_ERROR_PAYLOAD_BYTES)]
  }

  /** Cutting cannot bring a secret back. */
  lemma StoredHasNoSecret(captured: Octets, secrets: seq<Octets>, secret: Octets)
    requires secret in secrets && secret != [] && Unforgeable(secret)
    ensures !Contains(Stored(captured, secrets), secret)
  {
    hide Unforgeable, Redacted, Contains;
    NoSecretRemains(captured, secrets, secret);
    PrefixContains(Redacted(captured, secrets), Min(|captured|, MAX_ERROR_PAYLOAD_BYTES), secret);
  }

  lemma PrefixContains(text: Octets, n: nat, secret: Octets)
    requires n <= |text|
    ensures Contains(text[..n], secret) ==> Contains(text, secret)
  {
    if Contains(text[..n], secret) {
      var i: nat :| OccursAt(text[..n], secret, i);
      assert OccursAt(text, secret, i);
    }
  }

  /** Every occurrence that begins in the part that is kept was captured to its end. */
  lemma SecretsAreCapturedWhole(seen: Octets, limit: nat, secret: Octets, i: nat)
    requires 65_536 + |secret| <= limit && OccursAt(seen, secret, i) && i < 65_536
    ensures OccursAt(seen[..Min(|seen|, limit)], secret, i)
  {}

  /** The record does not depend on how the payload was cut into pieces. */
  method ObserveAll(observation: ResponseObservation, chunks: seq<Octets>)
    requires observation.Valid() && observation.Whole()
    modifies observation
    ensures observation.Valid() && observation.Whole() && observation.redactions == old(observation.redactions)
    ensures observation.seen == old(observation.seen) + Joined(chunks) && observation.limit == old(observation.limit)
    ensures observation.capture == old(observation.capture) && observation.gzip == old(observation.gzip)
  {
    hide ResponseObservation.Whole, ResponseObservation.Valid;
    assert chunks[..0] == [];
    for i := 0 to |chunks|
      invariant observation.Valid() && observation.Whole() && observation.redactions == old(observation.redactions)
      invariant observation.seen == old(observation.seen) + Joined(chunks[..i]) && observation.limit == old(observation.limit)
      invariant observation.capture == old(observation.capture) && observation.gzip == old(observation.gzip)
    {
      observation.Observe(chunks[i]);
      assert chunks[..i + 1][..i] == chunks[..i];
    }
    assert chunks[..|chunks|] == chunks;
  }

  function Joined(chunks: seq<Octets>): Octets {
    if chunks == [] then [] else Joined(chunks[..|chunks| - 1]) + chunks[|chunks| - 1]
  }

  // ---- a redaction that comes too late

  const SECRET: Octets := [0x73, 0x74]

  /** Bytes `a`, none of which belongs to the secret. */
  function Filler(n: nat): (r: Octets)
    ensures |r| == n && forall k :: 0 <= k < n ==> r[k] == 0x61
  {
    seq(n, _ => 0x61)
  }

  /** With a gap where the secret went on, its beginning stays as it is. */
  lemma BeginningStays(captured: Octets)
    requires captured == Filler(MAX_ERROR_PAYLOAD_BYTES - 1) + [0x73, 0x78]
    ensures Stored(captured, [SECRET])[MAX_ERROR_PAYLOAD_BYTES - 1] == 0x73
  {
    hide Redacted, Filler;
    var p := MAX_ERROR_PAYLOAD_BYTES - 1;
    NotCovered(captured);
    if Redacted(captured, [SECRET])[p] != captured[p] {
      OnlySecretsChange(captured, [SECRET], p);
      assert false;
    }
  }

  lemma NotCovered(captured: Octets)
    requires captured == Filler(MAX_ERROR_PAYLOAD_BYTES - 1) + [0x73, 0x78]
    ensures !Covered(captured, [SECRET], MAX_ERROR_PAYLOAD_BYTES - 1)
  {
    forall i: nat | i < MAX_ERROR_PAYLOAD_BYTES ensures !OccursAt(captured, SECRET, i) {
      if i + 1 < |captured| {
        assert captured[i + 1] != SECRET[1];
      }
    }
  }

  /**
    A run with a gap: the beginning of the secret is captured, the rest is dropped, then the secret is
    added as a redaction and the limit with it, and later bytes close up behind the gap. The beginning
    of the secret shows in the record; added in time, the redaction would have covered it.
  */
  method LateRedaction(inflate: Inflate) returns (observation: ResponseObservation, payload: Octets)
    ensures fresh(observation) && OccursAt(observation.seen, SECRET, MAX_ERROR_PAYLOAD_BYTES - 1)
    ensures |payload| == MAX_ERROR_PAYLOAD_BYTES && payload[MAX_ERROR_PAYLOAD_BYTES - 1] == SECRET[0]
    ensures Stored(observation.seen, [SECRET]) != payload
  {
    hide Redacted, Filler;
    observation := new ResponseObservation([]);
    observation.Configure(false, false);
    var first := Filler(MAX_ERROR_PAYLOAD_BYTES - 1) + SECRET;
    observation.Observe(first);
    observation.AddRedaction(SECRET);
    assert observation.redactions == [SECRET];
    assert observation.errorPayload == first[..MAX_ERROR_PAYLOAD_BYTES] == Filler(MAX_ERROR_PAYLOAD_BYTES - 1) + [0x73];
    observation.Observe([0x78]);
    ghost var captured := observation.errorPayload;
    ghost var seen := observation.seen;
    assert captured == Filler(MAX_ERROR_PAYLOAD_BYTES - 1) + [0x73, 0x78];
    BeginningStays(captured);
    var stored, cut := observation.Finish(true, inflate);
    payload := stored.value;
    BeginningCovered(seen);
  }

  /** In time, the redaction covers the secret. */
  lemma BeginningCovered(seen: Octets)
    requires seen == Filler(MAX_ERROR_PAYLOAD_BYTES - 1) + SECRET + [0x78]
    ensures Stored(seen, [SECRET])[MAX_ERROR_PAYLOAD_BYTES - 1] == STAR
  {
    hide Filler, Pass;
    var p := MAX_ERROR_PAYLOAD_BYTES - 1;
    assert OccursAt(seen, SECRET, p);
    assert FindFrom(seen, SECRET, 0) == Some(p) by {
      var i := FindFrom(seen, SECRET, 0).value;
      assert seen[i] == SECRET[0];
    }
    var masked := Masked(seen, p, 2);
    PassIs(seen, SECRET, 0);
    PassKeepsFront(masked, SECRET, p + 2, p);
    assert Mask(2)[0] == STAR;
    SingleSecret(seen, SECRET);
  }

  lemma PassIs(text: Octets, secret: Octets, offset: nat)
    requires secret != []
    ensures Pass(text, secret, offset) == match FindFrom(text, secret, offset)
                                          case None => text
                                          case Some(i) => Pass(Masked(text, i, |secret|), secret, i + |secret|)
  {}

  /** What lies before the offset is left alone. */
  lemma {:induction false} PassKeepsFront(text: Octets, secret: Octets, offset: nat, k: nat)
    requires secret != [] && k < offset && k < |text|
    ensures Pass(text, secret, offset)[k] == text[k]
    decreases |text| - offset
  {
    hide OccursAt, Mask;
    var found := FindFrom(text, secret, offset);
    if found.Some? {
      OccurrenceFits(text, secret, found.value);
      PassKeepsFront(Masked(text, found.value, |secret|), secret, found.value + |secret|, k);
    }
  }

  lemma SingleSecret(text: Octets, secret: Octets)
    requires secret != []
    ensures Redacted(text, [secret]) == Pass(text, secret, 0)
  {
    assert [secret][..0] == [];
    assert LongestFirst([secret][..0]) == [];
    assert LongestFirst([secret]) == [secret];
    assert [secret][1..] == [];
    assert Passes(Pass(text, secret, 0), []) == Pass(text, secret, 0);
  }
}
