/**
  Events as they are written: data lines, name lines and others, each with the white space it may
  carry. The class of an event follows from its names and its data, name by name of each dialect.
*/
module SseEvents {
  import opened Bytes
  import opened Texts
  import opened Json
  import JsonSpelling
  import opened JsonReading
  import opened Sse
  import opened SseText

  /** What an event does to the response it belongs to. */
  datatype Effect = Passes | Commits | CommitsFailure | Retries

  function EffectOf(kind: EventClass): Effect {
    match kind
    case Lifecycle => Passes
    case Productive => Commits
    case NonFailureTerminal => Commits
    case ConvertibleFailure => CommitsFailure
    case Failure => Retries
    case Malformed => Retries
  }

  /** The events of the two protocols by name; `convertible` is the subscription bridge. */
  predicate CodexPasses(name: string) {
    name == "response.created" || name == "response.in_progress" || name == "response.queued"
  }

  predicate CodexFails(name: string) { name == "error" || name == "response.failed" }

  predicate ClaudePasses(name: string) { name == "message_start" || name == "ping" || name == "content_block_start" }

  predicate ClaudeCommits(name: string) {
    name == "content_block_delta" || name == "content_block_stop" || name == "message_delta" || name == "message_stop"
  }

  function NameEffect(name: string, dialect: Dialect, convertible: bool): Effect {
    match dialect
    case CodexDialect =>
      if CodexFails(name) then (if convertible then CommitsFailure else Retries)
      else if name == "response.incomplete" then (if convertible then Commits else Retries)
      else if CodexPasses(name) then Passes
      else if "response." <= name then Commits
      else Retries
    case ClaudeDialect =>
      if ClaudePasses(name) then Passes else if ClaudeCommits(name) then Commits else Retries
  }

  // ---- names

  /** Plain ASCII letters stand at the beginning of the bytes exactly when they do in the text. */
  lemma {:induction false} PrefixIs(name: string, word: string)
    requires forall k :: 0 <= k < |word| ==> word[k] < 128 as char
    ensures Encoded(word) <= Encoded(name) <==> word <= name
    decreases |word|
  {
    hide Utf8;
    if word != "" {
      Utf8Shape(word[0] as nat);
      if name != "" {
        Utf8Shape(name[0] as nat);
        PrefixIs(name[1..], word[1..]);
        if Encoded(word) <= Encoded(name) {
          assert Encoded(name)[0] == Encoded(word)[0];
          assert Encoded(word)[1..] == Encoded(word[1..]) && Encoded(name)[1..] == Encoded(name[1..]);
          assert Encoded(word[1..]) <= Encoded(name[1..]);
        }
        if word <= name {
          assert word[1..] <= name[1..];
        }
      }
    }
  }

  lemma {:induction false} NotShorter(name: string)
    ensures |name| <= |Encoded(name)|
    decreases |name|
  {
    hide Utf8;
    if name != "" {
      Utf8Shape(name[0] as nat);
      NotShorter(name[1..]);
    }
  }

  lemma NameIs(name: string, word: string)
    requires forall k :: 0 <= k < |word| ==> word[k] < 128 as char
    ensures Encoded(name) == Ascii(word) <==> name == word
    ensures Ascii(word) <= Encoded(name) <==> word <= name
  {
    EncodedAscii(word);
    PrefixIs(name, word);
    NotShorter(name);
  }

  lemma CodexLifecycleNames(name: string)
    ensures Encoded(name) == RESPONSE_CREATED <==> name == "response.created"
    ensures Encoded(name) == RESPONSE_IN_PROGRESS <==> name == "response.in_progress"
    ensures Encoded(name) == RESPONSE_QUEUED <==> name == "response.queued"
    ensures RESPONSE_PREFIX <= Encoded(name) <==> "response." <= name
  {
    hide Encoded, Ascii;
    NameIs(name, "response.created");
    NameIs(name, "response.in_progress");
    NameIs(name, "response.queued");
    NameIs(name, "response.");
  }

  lemma CodexEndNames(name: string)
    ensures Encoded(name) == ERROR <==> name == "error"
    ensures Encoded(name) == RESPONSE_FAILED <==> name == "response.failed"
    ensures Encoded(name) == RESPONSE_INCOMPLETE <==> name == "response.incomplete"
    ensures Encoded(name) == RESPONSE_COMPLETED <==> name == "response.completed"
  {
    hide Encoded, Ascii;
    NameIs(name, "error");
    NameIs(name, "response.failed");
    NameIs(name, "response.incomplete");
    NameIs(name, "response.completed");
  }

  lemma CodexNameTells(name: string, convertible: bool)
    ensures EffectOf(TypeClass(Encoded(name), CodexDialect, convertible)) == NameEffect(name, CodexDialect, convertible)
  {
    hide Encoded, Ascii;
    CodexLifecycleNames(name);
    CodexEndNames(name);
    assert "response." <= "response.completed";
  }

  lemma ClaudeNames(name: string)
    ensures Encoded(name) == ERROR <==> name == "error"
    ensures Encoded(name) == MESSAGE_START <==> name == "message_start"
    ensures Encoded(name) == PING <==> name == "ping"
    ensures Encoded(name) == CONTENT_BLOCK_START <==> name == "content_block_start"
    ensures Encoded(name) == MESSAGE_STOP <==> name == "message_stop"
    ensures Encoded(name) == CONTENT_BLOCK_DELTA <==> name == "content_block_delta"
    ensures Encoded(name) == CONTENT_BLOCK_STOP <==> name == "content_block_stop"
    ensures Encoded(name) == MESSAGE_DELTA <==> name == "message_delta"
  {
    hide Encoded, Ascii;
    NameIs(name, "error");
    NameIs(name, "message_start");
    NameIs(name, "ping");
    NameIs(name, "content_block_start");
    NameIs(name, "message_stop");
    NameIs(name, "content_block_delta");
    NameIs(name, "content_block_stop");
    NameIs(name, "message_delta");
  }

  lemma ClaudeNameTells(name: string, convertible: bool)
    ensures EffectOf(TypeClass(Encoded(name), ClaudeDialect, convertible)) == NameEffect(name, ClaudeDialect, convertible)
  {
    hide Encoded, Ascii;
    ClaudeNames(name);
  }

  // ---- lines

  datatype Line = Data(gap: string, content: string) | Name(gap: string, name: string, behind: string) | Other(text: string)

  function LineText(l: Line): string {
    match l
    case Data(gap, content) => "data:" + (gap + content)
    case Name(gap, name, behind) => "event:" + (gap + (name + behind))
    case Other(text) => text
  }

  ghost predicate Spaces(s: string) { forall k :: 0 <= k < |s| ==> IsSpace(s[k]) }

  ghost predicate ValidLine(l: Line) {
    && IsLine(LineText(l))
    && match l
       case Data(gap, content) => Spaces(gap) && (content != "" ==> !IsSpace(content[0]))
       case Name(gap, name, behind) =>
         && Spaces(gap) && Spaces(behind) && (name == "" ==> behind == "")
         && (name != "" ==> !IsSpace(name[0]) && !IsSpace(name[|name| - 1]))
       case Other(text) => !("data:" <= text) && !("event:" <= text)
  }

  ghost function LineTexts(lines: seq<Line>): (r: seq<string>)
    ensures |r| == |lines| && forall k :: 0 <= k < |r| ==> r[k] == LineText(lines[k])
  {
    seq(|lines|, k requires 0 <= k < |lines| => LineText(lines[k]))
  }

  /** The data with one more line; between the data of two lines stands a line feed. */
  function DataWith(data: Option<string>, l: Line): Option<string> {
    if !l.Data? then data else if data.None? then Some(l.content) else Some(data.value + "\n" + l.content)
  }

  function NamesWith(names: seq<string>, l: Line): seq<string> { if l.Name? then names + [l.name] else names }

  function DataOf(lines: seq<Line>): Option<string> {
    if lines == [] then None else DataWith(DataOf(lines[..|lines| - 1]), lines[|lines| - 1])
  }

  function NamesOf(lines: seq<Line>): seq<string> {
    if lines == [] then [] else NamesWith(NamesOf(lines[..|lines| - 1]), lines[|lines| - 1])
  }

  /** An event may be named once, and not by nothing. */
  ghost predicate WellNamed(names: seq<string>) { |names| <= 1 && "" !in names }

  lemma LineTells(g: Gathered, l: Line)
    requires ValidLine(l)
    ensures GatherLine(g, Encoded(LineText(l)))
            == match l
               case Data(_, content) =>
                 Some(g.(data := g.data + (if g.sawData then [LF] else []) + Encoded(content), sawData := true))
               case Name(_, name, _) =>
                 if name == "" || g.wireType.Some? then None else Some(g.(wireType := Some(Encoded(name))))
               case Other(_) => Some(g)
  {
    hide Encoded, Ascii, TrimStart, TrimEnd, IsSpace;
    var text := LineText(l);
    NameIs(text, "data:");
    NameIs(text, "event:");
    EncodedAscii("data:");
    EncodedAscii("event:");
    match l
    case Data(gap, content) =>
      EncodedJoin("data:", gap + content);
      assert Encoded(text)[|DATA|..] == Encoded(gap + content);
      TrimmedStart(gap, content);
    case Name(gap, name, behind) =>
      assert text[0] == 'e';
      EncodedJoin("event:", gap + (name + behind));
      assert Encoded(text)[|EVENT|..] == Encoded(gap + (name + behind));
      NameTrimmed(gap, name, behind);
    case Other(_) =>
  }

  lemma NameTrimmed(gap: string, name: string, behind: string)
    requires Spaces(gap) && Spaces(behind) && (name == "" ==> behind == "")
    requires name != "" ==> !IsSpace(name[0]) && !IsSpace(name[|name| - 1])
    ensures TrimEnd(TrimStart(Encoded(gap + (name + behind)))) == Encoded(name)
    ensures Encoded(name) == [] <==> name == ""
  {
    hide TrimStart, TrimEnd, IsSpace;
    assert name != "" ==> (name + behind)[0] == name[0];
    assert name == "" ==> name + behind == "";
    TrimmedStart(gap, name + behind);
    TrimmedEnd(name, behind);
    NotShorter(name);
  }

  /** What the lines of an event gather. */
  ghost function GatheredFrom(data: Option<string>, names: seq<string>): Gathered {
    Gathered(if data.Some? then Encoded(data.value) else [], data.Some?, if names == [] then None else Some(Encoded(names[0])))
  }

  lemma OneMoreLine(data: Option<string>, names: seq<string>, l: Line)
    requires ValidLine(l) && WellNamed(names)
    ensures GatherLine(GatheredFrom(data, names), Encoded(LineText(l)))
            == if WellNamed(NamesWith(names, l)) then Some(GatheredFrom(DataWith(data, l), NamesWith(names, l))) else None
  {
    hide GatherLine, Encoded, ValidLine, LineText;
    LineTells(GatheredFrom(data, names), l);
    DataGrows(data, l);
    if l.Data? && data.None? {
      assert [] + [] + Encoded(l.content) == Encoded(l.content);
    }
    if l.Name? {
      assert "" in names + [l.name] <==> l.name == "";
    }
  }

  lemma {:induction false} LinesTell(lines: seq<Line>)
    requires forall k :: 0 <= k < |lines| ==> ValidLine(lines[k])
    ensures Gather(EncodedLines(LineTexts(lines)))
            == if WellNamed(NamesOf(lines)) then Some(GatheredFrom(DataOf(lines), NamesOf(lines))) else None
    decreases |lines|
  {
    hide GatherLine, Encoded, ValidLine, LineText, DataWith, GatheredFrom;
    var b := EncodedLines(LineTexts(lines));
    if lines == [] {
      NothingGathered();
    } else {
      var front, last := lines[..|lines| - 1], lines[|lines| - 1];
      LinesTell(front);
      assert b[..|b| - 1] == EncodedLines(LineTexts(front));
      if WellNamed(NamesOf(front)) {
        OneMoreLine(DataOf(front), NamesOf(front), last);
      }
    }
  }

  lemma NothingGathered()
    ensures GatheredFrom(None, []) == Gathered([], false, None)
  {}

  lemma DataGrows(data: Option<string>, last: Line)
    ensures last.Data? && data.Some? ==> Encoded(data.value + "\n" + last.content) == Encoded(data.value) + [LF] + Encoded(last.content)
    ensures Encoded("") == []
  {
    if last.Data? && data.Some? {
      EncodedJoin(data.value + "\n", last.content);
      EncodedJoin(data.value, "\n");
      EncodedAscii("\n");
      assert Ascii("\n") == [LF];
    }
  }

  // ---- events

  /** What the data of an event is. */
  datatype Content = Nothing | Done | NotJson | Untyped | Typed(name: string)

  /** A value with this text under `type`. */
  ghost predicate HasType(v: Value, name: Octets) {
    v.Object? && Ascii("type") in v.fields && v.fields[Ascii("type")] == Str(name)
  }

  ghost predicate HasSomeType(v: Value) { v.Object? && Ascii("type") in v.fields && v.fields[Ascii("type")].Str? }

  ghost predicate Carries(data: Option<string>, content: Content) {
    match data
    case None => content == Nothing
    case Some(text) =>
      match content
      case Nothing => false
      case Done => text == "[DONE]"
      case NotJson => text != "[DONE]" && forall v :: !Spells(Encoded(text), v)
      case Untyped => text != "[DONE]" && exists v :: Spells(Encoded(text), v) && !HasSomeType(v)
      case Typed(name) => text != "[DONE]" && exists v :: Spells(Encoded(text), v) && HasType(v, Encoded(name))
  }

  /** An event: its lines, how they end, and what its data is. */
  datatype Event = Event(lines: seq<Line>, crlf: bool, content: Content)

  ghost predicate ValidEvent(e: Event) {
    e.lines != [] && (forall k :: 0 <= k < |e.lines| ==> ValidLine(e.lines[k])) && Carries(DataOf(e.lines), e.content)
  }

  /** The effect of an event: by its type in the data, else by its name, and a retry when the two disagree. */
  ghost function EventEffect(e: Event, dialect: Dialect, convertible: bool): Effect {
    var names := NamesOf(e.lines);
    if !WellNamed(names) then Retries
    else
      match e.content
      case Nothing => if names == [] then Passes else Retries
      case Done => Commits
      case NotJson => Retries
      case Untyped => if names == [] then Retries else NameEffect(names[0], dialect, convertible)
      case Typed(name) => if names != [] && names[0] != name then Retries else NameEffect(name, dialect, convertible)
  }

  lemma NameTells(name: string, dialect: Dialect, convertible: bool)
    ensures EffectOf(TypeClass(Encoded(name), dialect, convertible)) == NameEffect(name, dialect, convertible)
  {
    hide Encoded, TypeClass, NameEffect;
    match dialect
    case CodexDialect => CodexNameTells(name, convertible);
    case ClaudeDialect => ClaudeNameTells(name, convertible);
  }

  lemma {:induction false} SameName(one: string, other: string)
    ensures Encoded(one) == Encoded(other) <==> one == other
    decreases |one|
  {
    hide Utf8;
    if one != "" {
      Utf8Shape(one[0] as nat);
    }
    if other != "" {
      Utf8Shape(other[0] as nat);
    }
    if one != "" && other != "" && Encoded(one) == Encoded(other) {
      FirstCharacter(one, other);
      assert Encoded(one)[|Utf8(one[0] as nat)|..] == Encoded(one[1..]);
      assert Encoded(other)[|Utf8(other[0] as nat)|..] == Encoded(other[1..]);
      SameName(one[1..], other[1..]);
      assert one == [one[0]] + one[1..] && other == [other[0]] + other[1..];
    }
  }

  /** Equal bytes begin with the same character. */
  lemma FirstCharacter(one: string, other: string)
    requires one != "" && other != "" && Encoded(one) == Encoded(other)
    ensures one[0] == other[0]
  {
    hide Utf8, JsonSpelling.Decode;
    var u, w := Utf8(one[0] as nat), Utf8(other[0] as nat);
    CharIs(Encoded(one), one[0] as nat);
    CharIs(Encoded(other), other[0] as nat);
    assert u == Encoded(one)[..|u|] && w == Encoded(other)[..|w|];
    JsonSpelling.Utf8Iff(one[0] as nat, u);
    JsonSpelling.Utf8Iff(other[0] as nat, w);
  }

  /** What the classifier takes for the type of the data. */
  lemma TypeTells(text: string, content: Content)
    requires Carries(Some(text), content) && text != "[DONE]"
    ensures JsonType(Encoded(text)) == match content
                                       case NotJson => None
                                       case Typed(name) => Some(Some(Encoded(name)))
                                       case _ => Some(None)
  {
    hide Encoded, Ascii, ParseDocument, Spells;
    var parsed := ParseDocument(Encoded(text));
    if parsed.Some? {
      ReadIffSpelt(Encoded(text), parsed.value);
    }
    match content
    case NotJson =>
    case Typed(name) =>
      var v :| Spells(Encoded(text), v) && HasType(v, Encoded(name));
      ReadIffSpelt(Encoded(text), v);
    case Untyped =>
      var v :| Spells(Encoded(text), v) && !HasSomeType(v);
      ReadIffSpelt(Encoded(text), v);
  }

  lemma GatheredTells(e: Event, dialect: Dialect, convertible: bool)
    requires Carries(DataOf(e.lines), e.content) && WellNamed(NamesOf(e.lines))
    ensures EffectOf(ClassOf(GatheredFrom(DataOf(e.lines), NamesOf(e.lines)), dialect, convertible))
            == EventEffect(e, dialect, convertible)
  {
    hide Encoded, Ascii, JsonType, TypeClass, NameEffect, Spells, HasType;
    var data, names := DataOf(e.lines), NamesOf(e.lines);
    if names != [] {
      NameTells(names[0], dialect, convertible);
    }
    if data.Some? {
      NameIs(data.value, "[DONE]");
      if data.value != "[DONE]" {
        TypeTells(data.value, e.content);
      }
    }
    if e.content.Typed? {
      NameTells(e.content.name, dialect, convertible);
      if names != [] {
        SameName(names[0], e.content.name);
      }
    }
  }

  /** The bytes of an event before its separator. */
  ghost function Body(e: Event): Octets { Joined(LineTexts(e.lines), e.crlf) }

  lemma {:induction false} JoinedIsText(lines: seq<string>, crlf: bool) returns (s: string)
    requires lines != []
    ensures Joined(lines, crlf) == Encoded(s)
  {
    hide Utf8;
    if |lines| == 1 {
      s := lines[0];
    } else {
      var rest := JoinedIsText(lines[1..], crlf);
      var eol := if crlf then "\r\n" else "\n";
      s := lines[0] + eol + rest;
      EncodedJoin(lines[0] + eol, rest);
      EncodedJoin(lines[0], eol);
      EncodedAscii(eol);
      assert Ascii(eol) == Break(crlf);
    }
  }

  /** The class of an event is what its names and its data say. */
  lemma EventTells(e: Event, dialect: Dialect, convertible: bool)
    requires ValidEvent(e)
    ensures EffectOf(EventClassOf(Body(e), dialect, convertible)) == EventEffect(e, dialect, convertible)
  {
    hide Encoded, Gather, ClassOf, EventEffect, Joined, Lines, ValidUtf8, Carries, GatheredFrom, EventClassOf, ValidLine, EffectOf;
    hide DataOf, NamesOf, EncodedLines;
    var texts := LineTexts(e.lines);
    var s := JoinedIsText(texts, e.crlf);
    ValidFrom(Body(e), 0, s);
    AreLines(e.lines);
    LinesJoined(texts, e.crlf);
    LinesTell(e.lines);
    ClassFrom(Body(e), dialect, convertible);
    if WellNamed(NamesOf(e.lines)) {
      GatheredTells(e, dialect, convertible);
    } else {
      BadlyNamed(e, dialect, convertible);
    }
  }

  lemma AreLines(lines: seq<Line>)
    requires forall k :: 0 <= k < |lines| ==> ValidLine(lines[k])
    ensures forall k :: 0 <= k < |lines| ==> IsLine(LineTexts(lines)[k])
  {
    forall k | 0 <= k < |lines| ensures IsLine(LineTexts(lines)[k]) {
      assert ValidLine(lines[k]);
    }
  }

  lemma ClassFrom(b: Octets, dialect: Dialect, convertible: bool)
    requires ValidUtf8(b, 0)
    ensures match Gather(Lines(b))
            case None => EffectOf(EventClassOf(b, dialect, convertible)) == Retries
            case Some(g) => EventClassOf(b, dialect, convertible) == ClassOf(g, dialect, convertible)
  {
    hide Gather, Lines, ClassOf, ValidUtf8;
  }

  lemma BadlyNamed(e: Event, dialect: Dialect, convertible: bool)
    requires !WellNamed(NamesOf(e.lines))
    ensures EventEffect(e, dialect, convertible) == Retries
  {}

  /** Bytes that are no text are no event. */
  lemma TextOrRetry(b: Octets, dialect: Dialect, convertible: bool)
    ensures EffectOf(EventClassOf(b, dialect, convertible)) == Retries || exists s :: Encoded(s) == b
  {
    hide Encoded, Gather, ClassOf, Lines, ValidUtf8;
    if ValidUtf8(b, 0) {
      var s := TextFrom(b, 0);
      assert b[0..] == b;
      assert Encoded(s) == b;
    }
  }
}
