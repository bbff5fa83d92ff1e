/**
  Commitment: reading the beginning of a successful response until it is clear that it is one, and
  handing the response on with everything that was read put back in front.
*/
module Commitment {
  import opened Bytes
  import opened Json
  import opened Sse

  const PRIMING_BYTE_LIMIT: nat := 1024 * 1024

  /** What the body stream yields. */
  datatype Item = Chunk(bytes: Octets) | Broken

  datatype Primed = Committed | CommittedFailure | Retry

  /** The bytes of a body up to the first error, which ends it. */
  function Flatten(body: seq<Item>): Octets {
    if body == [] || body[0].Broken? then [] else body[0].bytes + Flatten(body[1..])
  }

  predicate Clean(body: seq<Item>) { forall item <- body :: item.Chunk? }

  // ---- the verdict of a text, and of a stream

  /** The class of the first event in `b` behind `from` that decides anything, if there is one. */
  function Decisive(b: Octets, from: nat, dialect: Dialect, convertible: bool): Option<EventClass>
    decreases |b| - from
  {
    match NextEvent(b, from)
    case None => None
    case Some((end, separator)) =>
      var kind := EventClassOf(b[from..end], dialect, convertible);
      if kind != Lifecycle then Some(kind) else Decisive(b, end + separator, dialect, convertible)
  }

  function PrimedBy(kind: EventClass): Primed {
    match kind
    case Productive => Committed
    case NonFailureTerminal => Committed
    case ConvertibleFailure => CommittedFailure
    case Failure => Retry
    case Malformed => Retry
    case Lifecycle => Retry
  }

  /** `classify_complete_sse` as a function: what is left over behind the last event is malformed. */
  function CompleteClass(b: Octets, from: nat, dialect: Dialect, convertible: bool): EventClass
    requires from <= |b|
    decreases |b| - from
  {
    match NextEvent(b, from)
    case None => if from == |b| then Lifecycle else Malformed
    case Some((end, separator)) =>
      var kind := EventClassOf(b[from..end], dialect, convertible);
      if kind != Lifecycle then kind else CompleteClass(b, end + separator, dialect, convertible)
  }

  lemma {:induction false} CompleteIsDecisive(b: Octets, from: nat, dialect: Dialect, convertible: bool)
    requires from <= |b|
    ensures match Decisive(b, from, dialect, convertible)
            case Some(kind) => kind != Lifecycle && CompleteClass(b, from, dialect, convertible) == kind
            case None => PrimedBy(CompleteClass(b, from, dialect, convertible)) == Retry
    decreases |b| - from
  {
    hide EventClassOf;
    if NextEvent(b, from).Some? {
      var (end, separator) := NextEvent(b, from).value;
      if EventClassOf(b[from..end], dialect, convertible) == Lifecycle {
        CompleteIsDecisive(b, end + separator, dialect, convertible);
      }
    }
  }

  /** A decision once made stands, whatever bytes follow. */
  lemma {:induction false} DecisiveStable(b: Octets, more: Octets, from: nat, dialect: Dialect, convertible: bool)
    requires Decisive(b, from, dialect, convertible).Some?
    ensures Decisive(b + more, from, dialect, convertible) == Decisive(b, from, dialect, convertible)
    decreases |b| - from
  {
    hide EventClassOf, NextEvent;
    NextEventStable(b, more, from);
    var (end, separator) := NextEvent(b, from).value;
    assert from <= end ==> (b + more)[from..end] == b[from..end];
    if EventClassOf(b[from..end], dialect, convertible) == Lifecycle {
      DecisiveStable(b, more, end + separator, dialect, convertible);
    }
  }

  /**
    The verdict on a stream, each time judging from scratch all the bytes seen so far. `patience` is
    the number of items the timer allows for.
  */
  function StreamVerdict(seen: Octets, body: seq<Item>, patience: nat, dialect: Dialect, convertible: bool): Primed
    decreases |body|
  {
    if patience == 0 then Committed
    else if body == [] || body[0].Broken? then Retry
    else
      var now := seen + body[0].bytes;
      if |now| > PRIMING_BYTE_LIMIT then Committed
      else
        match Decisive(now, 0, dialect, convertible)
        case Some(kind) => PrimedBy(kind)
        case None => StreamVerdict(now, body[1..], patience - 1, dialect, convertible)
  }

  /** How a stream is cut into chunks does not matter. */
  lemma {:induction false} ChunkingDoesNotMatter(seen: Octets, body: seq<Item>, patience: nat, dialect: Dialect, convertible: bool)
    requires Clean(body) && |body| < patience && |seen + Flatten(body)| <= 1024 * 1024
    requires Decisive(seen, 0, dialect, convertible).None?
    ensures StreamVerdict(seen, body, patience, dialect, convertible)
            == PrimedBy(CompleteClass(seen + Flatten(body), 0, dialect, convertible))
    decreases |body|
  {
    hide Decisive, CompleteClass;
    CompleteIsDecisive(seen + Flatten(body), 0, dialect, convertible);
    if body == [] {
      assert seen + Flatten(body) == seen;
    } else {
      assert body[0] in body;
      var now := seen + body[0].bytes;
      assert seen + Flatten(body) == now + Flatten(body[1..]);
      if Decisive(now, 0, dialect, convertible).Some? {
        DecisiveStable(now, Flatten(body[1..]), 0, dialect, convertible);
      } else {
        ChunkingDoesNotMatter(now, body[1..], patience - 1, dialect, convertible);
      }
    }
  }

  /** Two cuts of the same bytes get the same verdict. */
  lemma SameBytesSameVerdict(one: seq<Item>, other: seq<Item>, patience: nat, dialect: Dialect, convertible: bool)
    requires Clean(one) && Clean(other) && |one| < patience && |other| < patience
    requires Flatten(one) == Flatten(other) && |Flatten(one)| <= 1024 * 1024
    ensures StreamVerdict([], one, patience, dialect, convertible) == StreamVerdict([], other, patience, dialect, convertible)
  {
    hide StreamVerdict, CompleteClass;
    ChunkingDoesNotMatter([], one, patience, dialect, convertible);
    ChunkingDoesNotMatter([], other, patience, dialect, convertible);
  }

  // ---- the incremental scan

  /** Scanning may go on where it stopped: the events before stay the same events. */
  lemma ScannedStays(b: Octets, more: Octets, parsed: nat, dialect: Dialect, convertible: bool)
    requires Reached(b, 0, parsed, dialect, convertible)
    ensures Reached(b + more, 0, parsed, dialect, convertible)
  {
    ReachedStays(b, more, 0, parsed, dialect, convertible);
  }

  /** From `from` on, `parsed` is reached by lifecycle events only. */
  ghost predicate Reached(b: Octets, from: nat, parsed: nat, dialect: Dialect, convertible: bool)
    decreases |b| - from
  {
    && parsed <= |b|
    && (from == parsed
        || match NextEvent(b, from)
           case None => false
           case Some((end, separator)) =>
             EventClassOf(b[from..end], dialect, convertible) == Lifecycle && Reached(b, end + separator, parsed, dialect, convertible))
  }

  lemma {:induction false} ReachedStays(b: Octets, more: Octets, from: nat, parsed: nat, dialect: Dialect, convertible: bool)
    requires Reached(b, from, parsed, dialect, convertible)
    ensures Reached(b + more, from, parsed, dialect, convertible)
    decreases |b| - from
  {
    hide EventClassOf, NextEvent;
    if from != parsed {
      NextEventStable(b, more, from);
      var (end, separator) := NextEvent(b, from).value;
      assert (b + more)[from..end] == b[from..end];
      ReachedStays(b, more, end + separator, parsed, dialect, convertible);
    }
  }

  lemma {:induction false} ReachedDecides(b: Octets, from: nat, parsed: nat, dialect: Dialect, convertible: bool)
    requires Reached(b, from, parsed, dialect, convertible)
    ensures Decisive(b, from, dialect, convertible) == Decisive(b, parsed, dialect, convertible)
    decreases |b| - from
  {
    hide EventClassOf, NextEvent;
    if from != parsed {
      var (end, separator) := NextEvent(b, from).value;
      ReachedDecides(b, end + separator, parsed, dialect, convertible);
    }
  }

  lemma {:induction false} ReachedFurther(b: Octets, from: nat, parsed: nat, dialect: Dialect, convertible: bool)
    requires Reached(b, from, parsed, dialect, convertible) && NextEvent(b, parsed).Some?
    requires EventClassOf(b[parsed..NextEvent(b, parsed).value.0], dialect, convertible) == Lifecycle
    ensures var (end, separator) := NextEvent(b, parsed).value;
            Reached(b, from, end + separator, dialect, convertible)
    decreases |b| - from
  {
    hide EventClassOf;
    if from != parsed {
      var (end, separator) := NextEvent(b, from).value;
      ReachedFurther(b, end + separator, parsed, dialect, convertible);
    }
  }

  /** How collecting a body ends when `size` bytes have been read: all of it, an error in it, or time or the limit run out. */
  datatype Ending = AllRead | BodyBroken | RanOut

  function EndingOf(size: nat, body: seq<Item>, patience: nat): Ending
    decreases patience
  {
    if patience == 0 then RanOut
    else if body == [] then AllRead
    else if body[0].Broken? then BodyBroken
    else if size + |body[0].bytes| > PRIMING_BYTE_LIMIT then RanOut
    else EndingOf(size + |body[0].bytes|, body[1..], patience - 1)
  }

  /** A body is collected whole exactly when it is without error, in time, and within the limit. */
  lemma {:induction false} AllReadIff(size: nat, body: seq<Item>, patience: nat)
    requires size <= 1024 * 1024
    ensures EndingOf(size, body, patience).AllRead?
            <==> Clean(body) && |body| < patience && size + |Flatten(body)| <= 1024 * 1024
    decreases patience
  {
    if patience > 0 && body != [] && body[0].Chunk? {
      assert Clean(body) <==> Clean(body[1..]) by {
        assert body == [body[0]] + body[1..];
      }
      if size + |body[0].bytes| <= PRIMING_BYTE_LIMIT {
        AllReadIff(size + |body[0].bytes|, body[1..], patience - 1);
      }
    } else if body != [] && body[0].Broken? {
      assert body[0] in body;
    }
  }

  /** The verdict on a body that is judged as a whole: what `judge` says, if all of it was read. */
  function WholeVerdict(body: seq<Item>, patience: nat, judge: Octets -> Primed): Primed {
    match EndingOf(0, body, patience)
    case RanOut => Committed
    case BodyBroken => Retry
    case AllRead => judge(Flatten(body))
  }

  /** The judgement on a compressed stream. */
  function StreamJudge(inflate: Octets -> Option<Octets>, dialect: Dialect, convertible: bool): Octets -> Primed {
    bytes => match inflate(bytes)
             case None => Retry
             case Some(decoded) => PrimedBy(CompleteClass(decoded, 0, dialect, convertible))
  }

  /** The judgement on a JSON body. */
  function JsonJudge(decode: Octets -> Option<Octets>, dialect: Dialect): Octets -> Primed {
    bytes => if decode(bytes).Some? && ValidResult(decode(bytes).value, dialect) then Committed else Retry
  }

  function AsIs(): Octets -> Option<Octets> { bytes => Some(bytes) }

  /** The response under way: the rest of its body. */
  class Response {
    var body: seq<Item>

    constructor (body: seq<Item>)
      ensures this.body == body
    {
      this.body := body;
    }

    /** `committed_with_prefix`: what was read goes in front of what was not. */
    method PutBack(prefix: seq<Item>)
      modifies this
      ensures body == prefix + old(body)
    {
      body := prefix + body;
    }

    /** The next item, which is gone from the body then. */
    method Take() returns (item: Item)
      requires body != []
      modifies this
      ensures item == old(body)[0] && body == old(body)[1..]
    {
      item := body[0];
      body := body[1..];
    }

    /** The loop over the complete events at the end of what has been read. */
    method ScanEvents(semantic: Octets, start: nat, dialect: Dialect, convertible: bool)
      returns (parsed: nat, decided: Option<EventClass>)
      requires Reached(semantic, 0, start, dialect, convertible)
      ensures decided == Decisive(semantic, 0, dialect, convertible)
      ensures decided.None? ==> Reached(semantic, 0, parsed, dialect, convertible)
    {
      hide EventClassOf, NextEvent;
      parsed := start;
      var next := ScanNextEvent(semantic, parsed);
      while next.Some?
        invariant Reached(semantic, 0, parsed, dialect, convertible) && next == NextEvent(semantic, parsed)
        decreases |semantic| - parsed
      {
        ReachedDecides(semantic, 0, parsed, dialect, convertible);
        var (end, separator) := next.value;
        var kind := ClassifySseEvent(semantic[parsed..end], dialect, convertible);
        if kind != Lifecycle {
          return parsed, Some(kind);
        }
        ReachedFurther(semantic, 0, parsed, dialect, convertible);
        parsed := end + separator;
        next := ScanNextEvent(semantic, parsed);
      }
      ReachedDecides(semantic, 0, parsed, dialect, convertible);
      decided := None;
    }

    /**
      `prime_sse` on an uncompressed stream. The verdict is that of the stream; unless the response
      is given up, its body is afterwards what it was before, item by item.
    */
    method PrimeSse(patience: nat, dialect: Dialect, convertible: bool) returns (primed: Primed)
      modifies this
      ensures primed == StreamVerdict([], old(body), patience, dialect, convertible)
      ensures primed != Retry ==> body == old(body)
    {
      hide Decisive, EventClassOf, Reached;
      var buffered: seq<Item> := [];
      var semantic: Octets := [];
      var parsed := 0;
      var left := patience;
      assert Reached(semantic, 0, parsed, dialect, convertible) by { StartReached(dialect, convertible); }
      while left > 0
        invariant buffered + body == old(body)
        invariant Reached(semantic, 0, parsed, dialect, convertible)
        invariant StreamVerdict([], old(body), patience, dialect, convertible)
                  == StreamVerdict(semantic, body, left, dialect, convertible)
        decreases left
      {
        if body == [] {
          return Retry;
        }
        ghost var before := body;
        var item := Take();
        assert before == [item] + body;
        if item.Broken? {
          return Retry;
        }
        buffered := buffered + [item];
        assert buffered + body == old(body);
        if |semantic| + |item.bytes| > PRIMING_BYTE_LIMIT {
          PutBack(buffered);
          return Committed;
        }
        ScannedStays(semantic, item.bytes, parsed, dialect, convertible);
        semantic := semantic + item.bytes;
        var decided;
        parsed, decided := ScanEvents(semantic, parsed, dialect, convertible);
        if decided.Some? {
          match decided.value {
            case Productive =>
              PutBack(buffered);
              return Committed;
            case NonFailureTerminal =>
              PutBack(buffered);
              return Committed;
            case ConvertibleFailure =>
              PutBack(buffered);
              return CommittedFailure;
            case _ =>
              return Retry;
          }
        }
        left := left - 1;
      }
      PutBack(buffered);
      primed := Committed;
    }

    /** `collect_bounded`: the whole body, or as much of it as time and the limit allow. */
    method CollectBounded(patience: nat) returns (r: Collected)
      modifies this
      ensures r.Complete? ==> Clean(old(body)) && r.bytes == Flatten(old(body)) && body == []
      ensures r.Commit? ==> r.prefix + body == old(body)
      ensures EndingOf(0, old(body), patience)
              == match r case Complete(_) => AllRead case Commit(_) => RanOut case Failed => BodyBroken
    {
      var bytes: Octets := [];
      var chunks: seq<Item> := [];
      var left := patience;
      while left > 0
        invariant chunks + body == old(body) && Clean(chunks) && bytes == Flatten(chunks)
        invariant EndingOf(0, old(body), patience) == EndingOf(|bytes|, body, left)
        decreases left
      {
        if body == [] {
          assert chunks == old(body);
          return Complete(bytes);
        }
        ghost var rest := body;
        var item := Take();
        assert rest == [item] + body;
        if item.Broken? {
          return Failed;
        }
        if |bytes| + |item.bytes| > PRIMING_BYTE_LIMIT {
          assert (chunks + [item]) + body == old(body);
          return Commit(chunks + [item]);
        }
        FlattenJoin(chunks, [item]);
        assert Flatten([item]) == item.bytes + Flatten([]);
        bytes := bytes + item.bytes;
        chunks := chunks + [item];
        assert chunks + body == old(body);
        left := left - 1;
      }
      r := Commit(chunks);
    }

    /** `prime_compressed_sse`: the whole stream is inflated and classified at once. */
    method PrimeCompressedSse(inflate: Octets -> Option<Octets>, patience: nat, dialect: Dialect, convertible: bool)
      returns (primed: Primed)
      modifies this
      ensures primed != Retry ==> Replays(body, old(body))
      ensures primed == WholeVerdict(old(body), patience, StreamJudge(inflate, dialect, convertible))
    {
      hide CompleteClass, EndingOf;
      var collected := CollectBounded(patience);
      match collected {
        case Failed =>
          primed := Retry;
        case Commit(prefix) =>
          PutBack(prefix);
          primed := Committed;
        case Complete(bytes) =>
          var decoded := inflate(bytes);
          if decoded.None? {
            return Retry;
          }
          var kind := ClassifyCompleteSse(decoded.value, dialect, convertible);
          match kind {
            case ConvertibleFailure =>
              primed := CommittedFailure;
            case Productive =>
              primed := Committed;
            case NonFailureTerminal =>
              primed := Committed;
            case _ =>
              return Retry;
          }
          PutBack([Chunk(bytes)]);
      }
    }

    /** `prime_json` and its compressed form; an uncompressed body is its own decoding. */
    method PrimeJson(decode: Octets -> Option<Octets>, patience: nat, dialect: Dialect) returns (primed: Primed)
      modifies this
      ensures primed != Retry ==> Replays(body, old(body))
      ensures primed == WholeVerdict(old(body), patience, JsonJudge(decode, dialect))
    {
      hide EndingOf;
      var collected := CollectBounded(patience);
      match collected {
        case Failed =>
          primed := Retry;
        case Commit(prefix) =>
          PutBack(prefix);
          primed := Committed;
        case Complete(bytes) =>
          var decoded := decode(bytes);
          if decoded.None? || !ValidResult(decoded.value, dialect) {
            return Retry;
          }
          PutBack([Chunk(bytes)]);
          primed := Committed;
      }
    }

    /**
      `prime_response`, by content type and encoding. A stream is judged chunk by chunk as far as it
      is readable, and taken as it is in an unknown encoding; everything else is judged as a whole.
    */
    method PrimeResponse(contentType: Option<string>, encoding: Option<string>, inflate: Octets -> Option<Octets>,
                         patience: nat, dialect: Dialect, convertible: bool)
      returns (primed: Primed)
      modifies this
      ensures primed != Retry ==> Replays(body, old(body))
      ensures contentType == Some("text/event-stream") && encoding in {None, Some("identity")}
              ==> primed == StreamVerdict([], old(body), patience, dialect, convertible)
      ensures contentType == Some("text/event-stream") && encoding in {Some("gzip"), Some("x-gzip")}
              ==> primed == WholeVerdict(old(body), patience, StreamJudge(inflate, dialect, convertible))
      ensures contentType == Some("text/event-stream") && encoding !in {None, Some("identity"), Some("gzip"), Some("x-gzip")}
              ==> primed == Committed
      ensures contentType.Some? && (contentType.value == "application/json"
                                    || (|contentType.value| >= 5 && contentType.value[|contentType.value| - 5..] == "+json"))
              ==> primed == WholeVerdict(old(body), patience,
                                         JsonJudge(if encoding in {Some("gzip"), Some("x-gzip")} then inflate else AsIs(), dialect))
      ensures contentType.None? || (contentType.value != "text/event-stream" && contentType.value != "application/json"
                                    && !(|contentType.value| >= 5 && contentType.value[|contentType.value| - 5..] == "+json"))
              ==> primed == Retry
    {
      hide StreamVerdict, WholeVerdict;
      if contentType.None? {
        return Retry;
      }
      if contentType.value == EVENT_STREAM {
        if Gzipped(encoding) {
          primed := PrimeCompressedSse(inflate, patience, dialect, convertible);
        } else if encoding.Some? && encoding.value != "identity" {
          primed := Committed;
        } else {
          primed := PrimeSse(patience, dialect, convertible);
        }
      } else if IsJson(contentType.value) {
        if Gzipped(encoding) {
          primed := PrimeJson(inflate, patience, dialect);
        } else {
          primed := PrimeJson(AsIs(), patience, dialect);
        }
      } else {
        primed := Retry;
      }
    }
  }

  const EVENT_STREAM := "text/event-stream"

  predicate Gzipped(encoding: Option<string>) { encoding == Some("gzip") || encoding == Some("x-gzip") }

  predicate IsJson(contentType: string) { contentType == "application/json" || EndsWith(contentType, "+json") }

  predicate EndsWith(text: string, tail: string) { |tail| <= |text| && text[|text| - |tail|..] == tail }

  datatype Collected = Complete(bytes: Octets) | Commit(prefix: seq<Item>) | Failed

  /** The body carries on as it was: item by item, or all its bytes in one piece. */
  ghost predicate Replays(now: seq<Item>, before: seq<Item>) {
    now == before || (Clean(before) && now == [Chunk(Flatten(before))])
  }

  lemma {:induction false} FlattenJoin(first: seq<Item>, rest: seq<Item>)
    requires Clean(first)
    ensures Flatten(first + rest) == Flatten(first) + Flatten(rest)
    decreases |first|
  {
    if first == [] {
      assert first + rest == rest;
    } else {
      assert first[0] in first;
      assert (first + rest)[1..] == first[1..] + rest;
      FlattenJoin(first[1..], rest);
    }
  }

  /** Replaying loses, repeats and reorders no byte, and ends in an error exactly when the body did. */
  lemma ReplayConservesBytes(now: seq<Item>, before: seq<Item>)
    requires Replays(now, before)
    ensures Flatten(now) == Flatten(before) && (Clean(now) <==> Clean(before))
  {
    if now != before {
      assert now[1..] == [];
      assert Flatten([]) == [];
    }
  }

  const ERROR_KEY: Octets := Ascii("error")
  const STATUS_KEY: Octets := Ascii("status")
  const FAILED: Octets := Ascii("failed")
  const INCOMPLETE: Octets := Ascii("incomplete")

  function TextAt(fields: map<Octets, Value>, key: Octets): Option<Octets> {
    if key in fields && fields[key].Str? then Some(fields[key].text) else None
  }

  /** `valid_nonstreaming_value` of a JSON text. */
  predicate ValidResult(text: Octets, dialect: Dialect) {
    match ParseDocument(text)
    case None => false
    case Some(value) =>
      && value.Object?
      && ERROR_KEY !in value.fields && TextAt(value.fields, TYPE) != Some(ERROR_KEY)
      && (dialect.CodexDialect? ==>
            TextAt(value.fields, STATUS_KEY) != Some(FAILED) && TextAt(value.fields, STATUS_KEY) != Some(INCOMPLETE))
  }

  /** `classify_complete_sse`. */
  method ClassifyCompleteSse(b: Octets, dialect: Dialect, convertible: bool) returns (r: EventClass)
    ensures r == CompleteClass(b, 0, dialect, convertible)
  {
    hide EventClassOf, NextEvent;
    var parsed := 0;
    r := Lifecycle;
    var next := ScanNextEvent(b, parsed);
    while next.Some?
      invariant parsed <= |b| && next == NextEvent(b, parsed) && r == Lifecycle
      invariant CompleteClass(b, 0, dialect, convertible) == CompleteClass(b, parsed, dialect, convertible)
      decreases |b| - parsed
    {
      var (end, separator) := next.value;
      r := ClassifySseEvent(b[parsed..end], dialect, convertible);
      if r != Lifecycle {
        return;
      }
      parsed := end + separator;
      next := ScanNextEvent(b, parsed);
    }
    if parsed != |b| {
      r := Malformed;
    }
  }

  lemma StartReached(dialect: Dialect, convertible: bool)
    ensures Reached([], 0, 0, dialect, convertible)
  {}
}
