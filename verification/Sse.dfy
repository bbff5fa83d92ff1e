/**
  Server-sent events inside a byte stream: where an event ends, and what an event says about the
  response it belongs to.
*/
module Sse {
  import opened Bytes
  import opened Json

  const LF: byte := 0x0A
  const CR: byte := 0x0D

  // ---- separators

  predicate LongSeparatorAt(b: Octets, i: nat) {
    i + 4 <= |b| && b[i] == CR && b[i + 1] == LF && b[i + 2] == CR && b[i + 3] == LF
  }

  predicate ShortSeparatorAt(b: Octets, i: nat) {
    i + 2 <= |b| && b[i] == LF && b[i + 1] == LF
  }

  /** The first separator at or behind `from`, and its length. */
  function NextEvent(b: Octets, from: nat): (r: Option<(nat, nat)>)
    ensures r.Some? ==> from <= r.value.0 && 0 < r.value.1 && r.value.0 + r.value.1 <= |b|
    decreases |b| - from
  {
    if from >= |b| then None
    else if LongSeparatorAt(b, from) then Some((from, 4))
    else if ShortSeparatorAt(b, from) then Some((from, 2))
    else NextEvent(b, from + 1)
  }

  /** A separator that has been seen stays the first one, whatever bytes follow. */
  lemma {:induction false} NextEventStable(b: Octets, more: Octets, from: nat)
    requires NextEvent(b, from).Some?
    ensures NextEvent(b + more, from) == NextEvent(b, from)
    decreases |b| - from
  {
    var c := b + more;
    if !LongSeparatorAt(b, from) && !ShortSeparatorAt(b, from) {
      NextEventStable(b, more, from + 1);
      if LongSeparatorAt(c, from) {
        NoLaterStart(b, more, from);
      }
    }
  }

  /** A long separator cut off by the end of the text has nothing complete behind its start. */
  lemma NoLaterStart(b: Octets, more: Octets, from: nat)
    requires from < |b| && LongSeparatorAt(b + more, from) && !LongSeparatorAt(b, from)
    ensures NextEvent(b, from + 1).None?
  {
    var c := b + more;
    assert |b| < from + 4;
    forall k: nat | from < k ensures !LongSeparatorAt(b, k) && !ShortSeparatorAt(b, k) {
      if ShortSeparatorAt(b, k) {
        assert false;
      }
    }
    NothingFound(b, from + 1);
  }

  lemma {:induction false} NothingFound(b: Octets, from: nat)
    requires forall k: nat | from <= k :: !LongSeparatorAt(b, k) && !ShortSeparatorAt(b, k)
    ensures NextEvent(b, from).None?
    decreases |b| - from
  {
    if from < |b| {
      NothingFound(b, from + 1);
    }
  }

  /** `next_event`: the scan over every index of the tail. */
  method ScanNextEvent(b: Octets, from: nat) returns (r: Option<(nat, nat)>)
    requires from <= |b|
    ensures r == NextEvent(b, from)
  {
    for index := 0 to |b| - from
      invariant NextEvent(b, from) == NextEvent(b, from + index)
    {
      if LongSeparatorAt(b, from + index) {
        return Some((from + index, 4));
      }
      if ShortSeparatorAt(b, from + index) {
        return Some((from + index, 2));
      }
    }
    return None;
  }

  // ---- text

  predicate Continues(b: Octets, i: nat) { i < |b| && 0x80 <= b[i] <= 0xBF }

  /** Length of the well-formed UTF-8 character at `i`, or 0. */
  function CharLength(b: Octets, i: nat): (n: nat)
    requires i < |b|
    ensures n > 0 ==> i + n <= |b|
  {
    var c := b[i];
    if c < 0x80 then 1
    else if 0xC2 <= c <= 0xDF && Continues(b, i + 1) then 2
    else if 0xE0 <= c <= 0xEF && Continues(b, i + 1) && Continues(b, i + 2)
            && (c == 0xE0 ==> b[i + 1] >= 0xA0) && (c == 0xED ==> b[i + 1] <= 0x9F) then 3
    else if 0xF0 <= c <= 0xF4 && Continues(b, i + 1) && Continues(b, i + 2) && Continues(b, i + 3)
            && (c == 0xF0 ==> b[i + 1] >= 0x90) && (c == 0xF4 ==> b[i + 1] <= 0x8F) then 4
    else 0
  }

  predicate ValidUtf8(b: Octets, i: nat)
    requires i <= |b|
    decreases |b| - i
  {
    i == |b| || (CharLength(b, i) > 0 && ValidUtf8(b, i + CharLength(b, i)))
  }

  /** Length of the white-space character at `i`, or 0. */
  function SpaceLength(b: Octets, i: nat): (n: nat)
    requires i < |b|
    ensures n > 0 ==> i + n <= |b|
  {
    var c := b[i];
    if 0x09 <= c <= 0x0D || c == 0x20 then 1
    else if c == 0xC2 && i + 1 < |b| && (b[i + 1] == 0x85 || b[i + 1] == 0xA0) then 2
    else if i + 2 < |b| && IsWideSpace(c, b[i + 1], b[i + 2]) then 3
    else 0
  }

  predicate IsWideSpace(c: byte, d: byte, e: byte) {
    || (c == 0xE1 && d == 0x9A && e == 0x80)
    || (c == 0xE2 && d == 0x80 && (0x80 <= e <= 0x8A || e == 0xA8 || e == 0xA9 || e == 0xAF))
    || (c == 0xE2 && d == 0x81 && e == 0x9F)
    || (c == 0xE3 && d == 0x80 && e == 0x80)
  }

  function TrimStart(b: Octets): Octets
    decreases |b|
  {
    if b == [] || SpaceLength(b, 0) == 0 then b else TrimStart(b[SpaceLength(b, 0)..])
  }

  /** Removes white space at the end: a space character that ends where the text ends. */
  function TrimEnd(b: Octets): Octets
    decreases |b|
  {
    if |b| >= 1 && SpaceLength(b, |b| - 1) == 1 then TrimEnd(b[..|b| - 1])
    else if |b| >= 2 && SpaceLength(b, |b| - 2) == 2 then TrimEnd(b[..|b| - 2])
    else if |b| >= 3 && SpaceLength(b, |b| - 3) == 3 then TrimEnd(b[..|b| - 3])
    else b
  }

  /** The lines of a text, without their line ends; a final line end starts no further line. */
  function Lines(b: Octets): seq<Octets>
    decreases |b|
  {
    if b == [] then []
    else
      var end := IndexOf(b, LF);
      var line := b[..end];
      if end == |b| then [line]
      else
        var bare := if end > 0 && line[end - 1] == CR then line[..end - 1] else line;
        [bare] + Lines(b[end + 1..])
  }

  // ---- one event

  datatype EventClass = Lifecycle | Productive | NonFailureTerminal | ConvertibleFailure | Failure | Malformed

  datatype Dialect = CodexDialect | ClaudeDialect

  const ERROR: Octets := Ascii("error")
  const RESPONSE_FAILED: Octets := Ascii("response.failed")
  const RESPONSE_INCOMPLETE: Octets := Ascii("response.incomplete")
  const RESPONSE_CREATED: Octets := Ascii("response.created")
  const RESPONSE_IN_PROGRESS: Octets := Ascii("response.in_progress")
  const RESPONSE_QUEUED: Octets := Ascii("response.queued")
  const RESPONSE_COMPLETED: Octets := Ascii("response.completed")
  const RESPONSE_PREFIX: Octets := Ascii("response.")
  const MESSAGE_START: Octets := Ascii("message_start")
  const PING: Octets := Ascii("ping")
  const CONTENT_BLOCK_START: Octets := Ascii("content_block_start")
  const MESSAGE_STOP: Octets := Ascii("message_stop")
  const CONTENT_BLOCK_DELTA: Octets := Ascii("content_block_delta")
  const CONTENT_BLOCK_STOP: Octets := Ascii("content_block_stop")
  const MESSAGE_DELTA: Octets := Ascii("message_delta")
  const TYPE: Octets := Ascii("type")
  const DONE: Octets := Ascii("[DONE]")

  /** What the lines of an event have said so far. */
  datatype Gathered = Gathered(data: Octets, sawData: bool, wireType: Option<Octets>)

  const DATA: Octets := Ascii("data:")
  const EVENT: Octets := Ascii("event:")

  /** One more line: `None` when the event type is empty or given twice. */
  function GatherLine(g: Gathered, line: Octets): Option<Gathered> {
    if DATA <= line then
      Some(g.(data := g.data + (if g.sawData then [LF] else []) + TrimStart(line[|DATA|..]), sawData := true))
    else if EVENT <= line then
      var value := TrimEnd(TrimStart(line[|EVENT|..]));
      if value == [] || g.wireType.Some? then None else Some(g.(wireType := Some(value)))
    else Some(g)
  }

  function Gather(lines: seq<Octets>): Option<Gathered> {
    if lines == [] then Some(Gathered([], false, None))
    else
      match Gather(lines[..|lines| - 1])
      case None => None
      case Some(g) => GatherLine(g, lines[|lines| - 1])
  }

  function TypeClass(kind: Octets, dialect: Dialect, convertible: bool): EventClass {
    match dialect
    case CodexDialect =>
      if kind == ERROR || kind == RESPONSE_FAILED then (if convertible then ConvertibleFailure else Failure)
      else if kind == RESPONSE_INCOMPLETE then (if convertible then NonFailureTerminal else Failure)
      else if kind == RESPONSE_CREATED || kind == RESPONSE_IN_PROGRESS || kind == RESPONSE_QUEUED
      then Lifecycle
      else if kind == RESPONSE_COMPLETED then NonFailureTerminal
      else if RESPONSE_PREFIX <= kind then Productive
      else Malformed
    case ClaudeDialect =>
      if kind == ERROR then Failure
      else if kind == MESSAGE_START || kind == PING || kind == CONTENT_BLOCK_START then Lifecycle
      else if kind == MESSAGE_STOP then NonFailureTerminal
      else if kind == CONTENT_BLOCK_DELTA || kind == CONTENT_BLOCK_STOP || kind == MESSAGE_DELTA
      then Productive
      else Malformed
  }

  /** The `type` member of a JSON text; `None` inside when there is none. */
  function JsonType(data: Octets): Option<Option<Octets>> {
    match ParseDocument(data)
    case None => None
    case Some(value) =>
      if value.Object? && TYPE in value.fields && value.fields[TYPE].Str?
      then Some(Some(value.fields[TYPE].text)) else Some(None)
  }

  function ClassOf(g: Gathered, dialect: Dialect, convertible: bool): EventClass {
    if !g.sawData then (if g.wireType.None? then Lifecycle else Malformed)
    else if g.data == DONE then NonFailureTerminal
    else
      match JsonType(g.data)
      case None => Malformed
      case Some(jsonType) =>
        if g.wireType.Some? && jsonType.Some? && g.wireType != jsonType then Malformed
        else if jsonType.Some? then TypeClass(jsonType.value, dialect, convertible)
        else if g.wireType.Some? then TypeClass(g.wireType.value, dialect, convertible)
        else Malformed
  }

  /** `classify_sse_event` as a function of the event's bytes. */
  function EventClassOf(event: Octets, dialect: Dialect, convertible: bool): EventClass {
    if !ValidUtf8(event, 0) then Malformed
    else
      match Gather(Lines(event))
      case None => Malformed
      case Some(g) => ClassOf(g, dialect, convertible)
  }

  /** The loop over the lines, accumulating the data. */
  method ClassifySseEvent(event: Octets, dialect: Dialect, convertible: bool) returns (r: EventClass)
    ensures r == EventClassOf(event, dialect, convertible)
  {
    hide ClassOf, GatherLine, Lines;
    if !ValidUtf8(event, 0) {
      return Malformed;
    }
    var lines := Lines(event);
    var g := Gathered([], false, None);
    assert lines[..0] == [];
    for i := 0 to |lines|
      invariant Gather(lines[..i]) == Some(g)
    {
      assert lines[..i + 1][..i] == lines[..i];
      var next := GatherLine(g, lines[i]);
      if next.None? {
        GatherStops(lines, i + 1);
        return Malformed;
      }
      g := next.value;
    }
    assert lines[..|lines|] == lines;
    r := ClassOf(g, dialect, convertible);
  }

  lemma {:induction false} GatherStops(lines: seq<Octets>, i: nat)
    requires i <= |lines| && Gather(lines[..i]).None?
    ensures Gather(lines).None?
    decreases |lines| - i
  {
    if i == |lines| {
      assert lines[..i] == lines;
    } else {
      assert lines[..i + 1][..i] == lines[..i];
      GatherStops(lines, i + 1);
    }
  }
}
