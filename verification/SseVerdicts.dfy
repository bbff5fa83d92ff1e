/**
  The verdict on a stream, from the events in it: how many there are before the one that decides,
  how they are spelt and how the bytes are cut into chunks does not matter.
*/
module SseVerdicts {
  import opened Bytes
  import opened Json
  import opened JsonReading
  import opened Sse
  import opened SseText
  import opened SseEvents
  import opened Commitment

  // ---- events in a row

  /** Searching a text from some position on is searching what is left of it. */
  lemma {:induction false} NextEventShift(b: Octets, from: nat)
    requires from <= |b|
    ensures NextEvent(b, from) == match NextEvent(b[from..], 0)
                                  case None => None
                                  case Some((end, n)) => Some((from + end, n))
  {
    SearchShift(b, from, 0);
  }

  lemma {:induction false} SearchShift(b: Octets, from: nat, k: nat)
    requires from <= |b|
    ensures NextEvent(b, from + k) == match NextEvent(b[from..], k)
                                      case None => None
                                      case Some((end, n)) => Some((from + end, n))
    decreases |b| - k
  {
    var c := b[from..];
    if k < |c| {
      assert LongSeparatorAt(b, from + k) <==> LongSeparatorAt(c, k);
      assert ShortSeparatorAt(b, from + k) <==> ShortSeparatorAt(c, k);
      SearchShift(b, from, k + 1);
    }
  }

  lemma {:induction false} DecisiveShift(b: Octets, from: nat, dialect: Dialect, convertible: bool)
    requires from <= |b|
    ensures Decisive(b, from, dialect, convertible) == Decisive(b[from..], 0, dialect, convertible)
    decreases |b| - from
  {
    hide EventClassOf, NextEvent;
    NextEventShift(b, from);
    var c := b[from..];
    if NextEvent(c, 0).Some? {
      var (end, n) := NextEvent(c, 0).value;
      assert b[from..from + end] == c[0..end];
      assert b[from + end + n..] == c[end + n..];
      if EventClassOf(c[0..end], dialect, convertible) == Lifecycle {
        DecisiveShift(b, from + end + n, dialect, convertible);
        DecisiveShift(c, end + n, dialect, convertible);
      }
    }
  }

  /** No separator begins inside a line. */
  lemma {:induction false} PastLine(b: Octets, from: nat, upto: nat)
    requires from <= upto <= |b| && forall k :: from <= k < upto ==> b[k] != LF && b[k] != CR
    ensures NextEvent(b, from) == NextEvent(b, upto)
    decreases upto - from
  {
    if from < upto {
      PastLine(b, from + 1, upto);
    }
  }

  /** Nor at a break with another line behind it. */
  lemma PastBreak(b: Octets, from: nat, crlf: bool)
    requires from + |Break(crlf)| < |b| && b[from..from + |Break(crlf)|] == Break(crlf)
    requires b[from + |Break(crlf)|] != LF && b[from + |Break(crlf)|] != CR
    ensures NextEvent(b, from) == NextEvent(b, from + |Break(crlf)|)
  {
    var cut := b[from..from + |Break(crlf)|];
    assert b[from] == cut[0];
    if crlf {
      assert b[from + 1] == cut[1];
    }
  }

  /** The bytes of an event with its separator. */
  ghost function EventText(e: Event): Octets { Body(e) + Break(e.crlf) + Break(e.crlf) }

  lemma {:induction false} SeparatorFound(lines: seq<string>, crlf: bool, b: Octets, from: nat, more: Octets)
    requires lines != [] && forall k :: 0 <= k < |lines| ==> IsLine(lines[k])
    requires from <= |b| && b[from..] == Joined(lines, crlf) + Break(crlf) + Break(crlf) + more
    ensures NextEvent(b, from) == Some((from + |Joined(lines, crlf)|, 2 * |Break(crlf)|))
    decreases |lines|
  {
    hide Encoded, NextEvent, IsLine, Break;
    var line := Encoded(lines[0]);
    LineBytes(lines[0]);
    if |lines| == 1 {
      LastPassed(line, crlf, b, from, more);
    } else {
      var inner := Joined(lines[1..], crlf);
      var rest := inner + Break(crlf) + Break(crlf) + more;
      Regroup(line, Break(crlf), inner, Break(crlf), Break(crlf), more);
      LineBytes(lines[1]);
      JoinedBegins(lines[1..], crlf);
      assert rest[0] == inner[0];
      LinePassed(line, crlf, rest, b, from);
      SeparatorFound(lines[1..], crlf, b, from + |line| + |Break(crlf)|, more);
    }
  }

  lemma Regroup(u: Octets, v: Octets, w: Octets, x: Octets, y: Octets, z: Octets)
    ensures (u + v + w) + x + y + z == u + v + (w + x + y + z)
  {}

  lemma LinePassed(line: Octets, crlf: bool, rest: Octets, b: Octets, from: nat)
    requires from <= |b| && b[from..] == line + Break(crlf) + rest
    requires rest != [] && rest[0] != LF && rest[0] != CR
    requires forall k :: 0 <= k < |line| ==> line[k] != LF && line[k] != CR
    ensures var next := from + |line| + |Break(crlf)|;
            next <= |b| && b[next..] == rest && NextEvent(b, from) == NextEvent(b, next)
  {
    hide NextEvent;
    var next := from + |line| + |Break(crlf)|;
    assert line <= b[from..];
    LineStands(b, from, line);
    PastLine(b, from, from + |line|);
    Cut(b, from, line, Break(crlf), rest);
    assert b[next] == b[next..][0];
    PastBreak(b, from + |line|, crlf);
  }

  /** Three parts of what is left of a text, each where it stands. */
  lemma Cut(b: Octets, from: nat, x: Octets, y: Octets, z: Octets)
    requires from <= |b| && b[from..] == x + y + z
    ensures from + |x| + |y| <= |b| && b[from + |x|..from + |x| + |y|] == y && b[from + |x| + |y|..] == z
  {
    var c := b[from..];
    assert |c| == |b| - from;
    assert c[|x|..|x| + |y|] == y && c[|x| + |y|..] == z;
    assert b[from + |x|..from + |x| + |y|] == c[|x|..|x| + |y|];
    assert b[from + |x| + |y|..] == c[|x| + |y|..];
  }

  lemma LastPassed(line: Octets, crlf: bool, b: Octets, from: nat, more: Octets)
    requires from <= |b| && b[from..] == line + Break(crlf) + Break(crlf) + more
    requires forall k :: 0 <= k < |line| ==> line[k] != LF && line[k] != CR
    ensures NextEvent(b, from) == Some((from + |line|, 2 * |Break(crlf)|))
  {
    hide NextEvent;
    assert line <= b[from..];
    LineStands(b, from, line);
    PastLine(b, from, from + |line|);
    assert b[from + |line|..] == b[from..][|line|..] == Break(crlf) + Break(crlf) + more;
    BlankLine(b, from + |line|, crlf, more);
  }

  lemma LineBytes(s: string)
    requires IsLine(s)
    ensures var line := Encoded(s); line != [] && forall k :: 0 <= k < |line| ==> line[k] != LF && line[k] != CR
  {
    hide Encoded;
    NoBreaks(s);
  }

  lemma JoinedBegins(lines: seq<string>, crlf: bool)
    requires lines != [] && Encoded(lines[0]) != []
    ensures Joined(lines, crlf) != [] && Joined(lines, crlf)[0] == Encoded(lines[0])[0]
  {
    hide Encoded;
  }

  lemma LineStands(b: Octets, from: nat, line: Octets)
    requires from <= |b| && line <= b[from..] && forall k :: 0 <= k < |line| ==> line[k] != LF && line[k] != CR
    ensures from + |line| <= |b| && forall k :: from <= k < from + |line| ==> b[k] != LF && b[k] != CR
  {
    assert forall k :: from <= k < from + |line| ==> b[k] == b[from..][k - from] == line[k - from];
  }

  lemma BlankLine(b: Octets, at: nat, crlf: bool, more: Octets)
    requires at <= |b| && b[at..] == Break(crlf) + Break(crlf) + more
    ensures NextEvent(b, at) == Some((at, 2 * |Break(crlf)|))
  {
    var c := b[at..];
    assert b[at] == c[0] && b[at + 1] == c[1];
    if crlf {
      assert b[at + 2] == c[2] && b[at + 3] == c[3];
    }
  }

  ghost function StreamText(events: seq<Event>): Octets {
    if events == [] then [] else EventText(events[0]) + StreamText(events[1..])
  }

  /** Where the first event of a text ends. */
  lemma EventEnds(e: Event, more: Octets)
    requires ValidEvent(e)
    ensures NextEvent(EventText(e) + more, 0) == Some((|Body(e)|, 2 * |Break(e.crlf)|))
    ensures (EventText(e) + more)[0..|Body(e)|] == Body(e)
    ensures (EventText(e) + more)[|Body(e)| + 2 * |Break(e.crlf)|..] == more
  {
    hide NextEvent, Joined, Break, Carries, ValidLine;
    var b := EventText(e) + more;
    AreLines(e.lines);
    assert b[0..] == b;
    SeparatorFound(LineTexts(e.lines), e.crlf, b, 0, more);
  }

  /** An event decides by its effect, or leaves the decision to what follows it. */
  lemma EventDecides(e: Event, more: Octets, dialect: Dialect, convertible: bool)
    requires ValidEvent(e)
    ensures var decided, effect := Decisive(EventText(e) + more, 0, dialect, convertible), EventEffect(e, dialect, convertible);
            if effect == Passes then decided == Decisive(more, 0, dialect, convertible)
            else decided.Some? && EffectOf(decided.value) == effect
  {
    hide EventClassOf, NextEvent, ValidEvent, EventEffect, Body, EventText;
    var b := EventText(e) + more;
    EventEnds(e, more);
    EventTells(e, dialect, convertible);
    DecisiveShift(b, |Body(e)| + 2 * |Break(e.crlf)|, dialect, convertible);
  }

  ghost predicate AllPass(events: seq<Event>, dialect: Dialect, convertible: bool) {
    forall e <- events :: ValidEvent(e) && EventEffect(e, dialect, convertible) == Passes
  }

  lemma {:induction false} PassedOver(events: seq<Event>, more: Octets, dialect: Dialect, convertible: bool)
    requires AllPass(events, dialect, convertible)
    ensures Decisive(StreamText(events) + more, 0, dialect, convertible) == Decisive(more, 0, dialect, convertible)
    decreases |events|
  {
    hide Decisive, ValidEvent, EventEffect, EventText;
    if events == [] {
      assert StreamText(events) + more == more;
    } else {
      assert events[0] in events;
      forall e <- events[1..] ensures ValidEvent(e) && EventEffect(e, dialect, convertible) == Passes {
        assert e in events;
      }
      EventDecides(events[0], StreamText(events[1..]) + more, dialect, convertible);
      assert StreamText(events) + more == EventText(events[0]) + (StreamText(events[1..]) + more);
      PassedOver(events[1..], more, dialect, convertible);
    }
  }

  /** What the effect of the deciding event makes of the response. */
  function PrimedFor(effect: Effect): Primed {
    match effect
    case Commits => Committed
    case CommitsFailure => CommittedFailure
    case Passes => Retry
    case Retries => Retry
  }

  lemma PrimedTells(kind: EventClass)
    ensures PrimedBy(kind) == PrimedFor(EffectOf(kind))
  {}

  lemma EventsDecide(before: seq<Event>, e: Event, behind: Octets, dialect: Dialect, convertible: bool)
    requires AllPass(before, dialect, convertible) && ValidEvent(e) && EventEffect(e, dialect, convertible) != Passes
    ensures var decided := Decisive(StreamText(before) + EventText(e) + behind, 0, dialect, convertible);
            decided.Some? && PrimedBy(decided.value) == PrimedFor(EventEffect(e, dialect, convertible))
  {
    hide Decisive, ValidEvent, EventEffect, EventText, StreamText, PrimedBy, PrimedFor;
    EventDecides(e, behind, dialect, convertible);
    PassedOver(before, EventText(e) + behind, dialect, convertible);
    assert StreamText(before) + EventText(e) + behind == StreamText(before) + (EventText(e) + behind);
    PrimedTells(Decisive(StreamText(before) + EventText(e) + behind, 0, dialect, convertible).value);
  }

  // ---- streams

  lemma {:induction false} DecidedInTime(seen: Octets, body: seq<Item>, n: nat, patience: nat, dialect: Dialect, convertible: bool)
    requires n <= |body| && n <= patience && Clean(body[..n]) && |seen + Flatten(body[..n])| <= 1_048_576
    requires Decisive(seen, 0, dialect, convertible).None? && Decisive(seen + Flatten(body[..n]), 0, dialect, convertible).Some?
    ensures StreamVerdict(seen, body, patience, dialect, convertible)
            == PrimedBy(Decisive(seen + Flatten(body[..n]), 0, dialect, convertible).value)
    decreases n
  {
    hide Decisive, PrimedBy;
    NothingMore(seen);
    assert body[..0] == [];
    if n > 0 {
      var now, rest := seen + body[0].bytes, body[1..];
      assert body[..n][1..] == rest[..n - 1];
      assert body[..n][0] in body[..n];
      assert seen + Flatten(body[..n]) == now + Flatten(rest[..n - 1]);
      forall item <- rest[..n - 1] ensures item.Chunk? {
        assert item in body[..n];
      }
      if Decisive(now, 0, dialect, convertible).Some? {
        DecisiveStable(now, Flatten(rest[..n - 1]), 0, dialect, convertible);
      } else {
        DecidedInTime(now, rest, n - 1, patience - 1, dialect, convertible);
      }
    }
  }

  lemma NothingMore(seen: Octets)
    ensures seen + Flatten([]) == seen
  {}

  /**
    The first event that does not merely announce a response decides on it: events that pass before
    it, anything behind it, and any cut into chunks, as long as it arrives in time and within 1 MiB.
  */
  lemma FirstEventDecides(before: seq<Event>, e: Event, behind: Octets, body: seq<Item>, n: nat, patience: nat,
                          dialect: Dialect, convertible: bool)
    requires AllPass(before, dialect, convertible) && ValidEvent(e) && EventEffect(e, dialect, convertible) != Passes
    requires n <= |body| && n <= patience && Clean(body[..n])
    requires Flatten(body[..n]) == StreamText(before) + EventText(e) + behind && |Flatten(body[..n])| <= 1024 * 1024
    ensures StreamVerdict([], body, patience, dialect, convertible) == PrimedFor(EventEffect(e, dialect, convertible))
  {
    hide Decisive, ValidEvent, EventEffect, EventText, StreamText, PrimedBy, PrimedFor, StreamVerdict, Flatten;
    EventsDecide(before, e, behind, dialect, convertible);
    NothingYet(dialect, convertible);
    assert [] + Flatten(body[..n]) == Flatten(body[..n]);
    DecidedInTime([], body, n, patience, dialect, convertible);
  }

  lemma NothingYet(dialect: Dialect, convertible: bool)
    ensures Decisive([], 0, dialect, convertible).None?
  {}

  /** A stream in which nothing decides is given up when it ends, and taken as it is when time or room run out first. */
  lemma {:induction false} UndecidedVerdict(seen: Octets, body: seq<Item>, patience: nat, dialect: Dialect, convertible: bool)
    requires Decisive(seen + Flatten(body), 0, dialect, convertible).None?
    ensures StreamVerdict(seen, body, patience, dialect, convertible)
            == if EndingOf(|seen|, body, patience).RanOut? then Committed else Retry
    decreases |body|
  {
    hide Decisive;
    if patience > 0 && body != [] && body[0].Chunk? {
      var now := seen + body[0].bytes;
      assert seen + Flatten(body) == now + Flatten(body[1..]);
      if Decisive(now, 0, dialect, convertible).Some? {
        DecisiveStable(now, Flatten(body[1..]), 0, dialect, convertible);
      }
      if |now| <= PRIMING_BYTE_LIMIT {
        UndecidedVerdict(now, body[1..], patience - 1, dialect, convertible);
      }
    }
  }

  /** No separator in these bytes. */
  ghost predicate Unseparated(b: Octets) { forall i, n :: !SeparatorAt(b, i, n) }

  /** Events that all pass, and an unfinished one behind them, decide nothing. */
  lemma NothingDecides(events: seq<Event>, behind: Octets, body: seq<Item>, patience: nat, dialect: Dialect, convertible: bool)
    requires AllPass(events, dialect, convertible) && Unseparated(behind) && Flatten(body) == StreamText(events) + behind
    ensures StreamVerdict([], body, patience, dialect, convertible)
            == if EndingOf(0, body, patience).RanOut? then Committed else Retry
  {
    hide StreamVerdict, EndingOf, Flatten, StreamText, AllPass, SeparatorAt, EventClassOf;
    PassedOver(events, behind, dialect, convertible);
    if NextEvent(behind, 0).Some? {
      var (end, n) := NextEvent(behind, 0).value;
      NextEventIff(behind, 0, end, n);
    }
    assert [] + Flatten(body) == Flatten(body);
    UndecidedVerdict([], body, patience, dialect, convertible);
  }

  /** After `k` pieces, none of them an error, the timer fires or more than 1 MiB came. */
  ghost predicate OutAfter(size: nat, body: seq<Item>, patience: nat, k: nat) {
    k <= |body| && k <= patience && Clean(body[..k]) && (k == patience || size + |Flatten(body[..k])| > 1024 * 1024)
  }

  lemma OutOneLater(size: nat, body: seq<Item>, patience: nat, k: nat)
    requires body != [] && body[0].Chunk? && patience > 0
    ensures OutAfter(size, body, patience, k + 1) <==> OutAfter(size + |body[0].bytes|, body[1..], patience - 1, k)
  {
    if k + 1 <= |body| {
      var c := body[..k + 1];
      assert c[1..] == body[1..][..k];
      assert c == [body[0]] + c[1..];
      assert Clean(c) <==> Clean(c[1..]);
    }
  }

  /** Collecting runs out exactly when that happens before an error or the end. */
  lemma {:induction false} RanOutIff(size: nat, body: seq<Item>, patience: nat)
    requires size <= 1024 * 1024
    ensures EndingOf(size, body, patience).RanOut? <==> exists k: nat :: OutAfter(size, body, patience, k)
    decreases |body|
  {
    hide OutAfter;
    OutAtOnce(size, body, patience);
    if patience > 0 && body != [] && body[0].Chunk? {
      var larger, rest, less := size + |body[0].bytes|, body[1..], patience - 1;
      OutAtOnce(larger, rest, less);
      if larger <= 1024 * 1024 {
        RanOutIff(larger, rest, less);
      }
      if k: nat :| OutAfter(larger, rest, less, k) {
        OutOneLater(size, body, patience, k);
        assert OutAfter(size, body, patience, k + 1);
      }
      if k: nat :| OutAfter(size, body, patience, k) {
        assert k > 0;
        OutOneLater(size, body, patience, k - 1);
      }
    }
  }

  lemma OutAtOnce(size: nat, body: seq<Item>, patience: nat)
    ensures OutAfter(size, body, patience, 0) <==> patience == 0 || size > 1024 * 1024
    ensures body == [] || body[0].Broken? ==> forall k: nat | k > 0 :: !OutAfter(size, body, patience, k)
  {
    assert body[..0] == [];
    forall k: nat | k > 0 && OutAfter(size, body, patience, k) ensures body != [] && body[0].Chunk? {
      assert body[..k][0] == body[0];
      assert body[..k][0] in body[..k];
    }
  }

  // ---- bodies judged as a whole

  /** A compressed stream gets the verdict of the events in it. */
  lemma CompressedTells(inflate: Octets -> Option<Octets>, bytes: Octets, before: seq<Event>, e: Event, behind: Octets,
                        dialect: Dialect, convertible: bool)
    requires AllPass(before, dialect, convertible) && ValidEvent(e) && EventEffect(e, dialect, convertible) != Passes
    requires inflate(bytes) == Some(StreamText(before) + EventText(e) + behind)
    ensures StreamJudge(inflate, dialect, convertible)(bytes) == PrimedFor(EventEffect(e, dialect, convertible))
  {
    hide Decisive, ValidEvent, EventEffect, EventText, StreamText, CompleteClass, PrimedFor;
    EventsDecide(before, e, behind, dialect, convertible);
    CompleteIsDecisive(inflate(bytes).value, 0, dialect, convertible);
  }

  /** One in which every event passes is given up, and so is one that does not inflate. */
  lemma CompressedUndecided(inflate: Octets -> Option<Octets>, bytes: Octets, events: seq<Event>, behind: Octets,
                            dialect: Dialect, convertible: bool)
    requires AllPass(events, dialect, convertible) && Unseparated(behind)
    requires inflate(bytes).Some? ==> inflate(bytes).value == StreamText(events) + behind
    ensures StreamJudge(inflate, dialect, convertible)(bytes) == Retry
  {
    hide EndingOf, StreamText, AllPass, SeparatorAt, EventClassOf, CompleteClass;
    PassedOver(events, behind, dialect, convertible);
    if NextEvent(behind, 0).Some? {
      var (end, n) := NextEvent(behind, 0).value;
      NextEventIff(behind, 0, end, n);
    }
    CompleteIsDecisive(StreamText(events) + behind, 0, dialect, convertible);
  }

  /** A JSON result: an object without `error`, not of type `error`, and for Codex neither failed nor incomplete. */
  ghost predicate IsResult(v: Value, dialect: Dialect) {
    && v.Object? && Ascii("error") !in v.fields
    && (Ascii("type") in v.fields ==> v.fields[Ascii("type")] != Str(Ascii("error")))
    && (dialect == CodexDialect && Ascii("status") in v.fields ==>
          v.fields[Ascii("status")] != Str(Ascii("failed")) && v.fields[Ascii("status")] != Str(Ascii("incomplete")))
  }

  /** A JSON body is committed to exactly when it spells a result. */
  lemma JsonTells(decode: Octets -> Option<Octets>, bytes: Octets, dialect: Dialect)
    ensures JsonJudge(decode, dialect)(bytes)
            == if decode(bytes).Some? && exists v :: Spells(decode(bytes).value, v) && IsResult(v, dialect) then Committed else Retry
  {
    hide Spells, ParseDocument, Ascii;
    if decode(bytes).Some? {
      var text := decode(bytes).value;
      var parsed := ParseDocument(text);
      if parsed.Some? {
        ReadIffSpelt(text, parsed.value);
        ResultTells(text, parsed.value, dialect);
      }
      forall v | Spells(text, v) ensures parsed == Some(v) {
        ReadIffSpelt(text, v);
      }
    }
  }

  lemma ResultTells(text: Octets, v: Value, dialect: Dialect)
    requires ParseDocument(text) == Some(v)
    ensures ValidResult(text, dialect) <==> IsResult(v, dialect)
  {
    hide ParseDocument, Ascii;
  }
}
