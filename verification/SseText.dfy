/**
  Event streams as text: characters and their UTF-8 bytes, white space, lines and separators, each
  told apart from the byte-wise definitions the classifier works with.
*/
module SseText {
  import opened Bytes
  import opened Texts
  import opened Json
  import opened JsonSpelling
  import opened Sse

  // ---- separators

  /** A separator of `n` bytes stands at `i`: two line feeds, or twice carriage return and line feed. */
  ghost predicate SeparatorAt(b: Octets, i: nat, n: nat) {
    i + n <= |b| && (b[i..i + n] == Ascii("\n\n") || b[i..i + n] == Ascii("\r\n\r\n"))
  }

  lemma SeparatorIs(b: Octets, i: nat, n: nat)
    ensures SeparatorAt(b, i, n) <==> (n == 4 && LongSeparatorAt(b, i)) || (n == 2 && ShortSeparatorAt(b, i))
  {
    assert Ascii("\n\n") == [LF, LF];
    assert Ascii("\r\n\r\n") == [CR, LF, CR, LF];
    if i + n <= |b| {
      var s := b[i..i + n];
      if n == 2 {
        assert s == [b[i], b[i + 1]];
      } else if n == 4 {
        assert s == [b[i], b[i + 1], b[i + 2], b[i + 3]];
      }
    }
  }

  /** The next event ends where the first separator stands. */
  lemma {:induction false} NextEventIff(b: Octets, from: nat, end: nat, n: nat)
    ensures NextEvent(b, from) == Some((end, n))
            <==> from <= end && SeparatorAt(b, end, n) && forall i, m :: from <= i < end ==> !SeparatorAt(b, i, m)
    decreases |b| - from
  {
    hide SeparatorAt;
    if from >= |b| {
      SeparatorIs(b, end, n);
    } else {
      SeparatorIs(b, from, n);
      SeparatorIs(b, from, 4);
      SeparatorIs(b, from, 2);
      SeparatorIs(b, end, n);
      NextEventIff(b, from + 1, end, n);
      forall m ensures SeparatorAt(b, from, m) <==> (m == 4 && LongSeparatorAt(b, from)) || (m == 2 && ShortSeparatorAt(b, from)) {
        SeparatorIs(b, from, m);
      }
    }
  }

  // ---- characters

  /** The bytes of a text. */
  function Encoded(s: string): Octets {
    if s == "" then [] else Utf8(s[0] as nat) + Encoded(s[1..])
  }

  lemma {:induction false} EncodedJoin(s: string, t: string)
    ensures Encoded(s + t) == Encoded(s) + Encoded(t)
    decreases |s|
  {
    hide Utf8;
    if s == "" {
      assert s + t == t;
    } else {
      assert (s + t)[1..] == s[1..] + t;
      EncodedJoin(s[1..], t);
    }
  }

  lemma {:induction false} EncodedAscii(s: string)
    requires forall k :: 0 <= k < |s| ==> s[k] < 128 as char
    ensures Encoded(s) == Ascii(s)
    decreases |s|
  {
    if s != "" {
      EncodedAscii(s[1..]);
      assert Ascii(s) == [s[0] as int as byte] + Ascii(s[1..]);
    }
  }

  /** Where the bytes of one character begin, and that they continue as they should. */
  lemma Utf8Shape(c: nat)
    requires IsScalar(c)
    ensures var u := Utf8(c);
            && 1 <= |u| <= 4 && (|u| == 1 <==> c < 0x80) && (c < 0x80 ==> u == [c as byte])
            && (c >= 0x80 ==> forall k :: 0 <= k < |u| ==> u[k] >= 0x80)
            && (|u| > 1 ==> u[0] >= 0xC2) && (forall k :: 1 <= k < |u| ==> 0x80 <= u[k] < 0xC0)
  {}

  /** A well-formed character stands here: the text goes on behind it. */
  lemma CharIs(b: Octets, c: nat)
    requires IsScalar(c) && Utf8(c) <= b
    ensures b != [] && CharLength(b, 0) == |Utf8(c)|
  {
    var u := Utf8(c);
    Utf8Shape(c);
    assert forall k :: 0 <= k < |u| ==> b[k] == u[k];
    ScalarLength(c, u, b);
  }

  lemma ScalarLength(c: nat, u: Octets, b: Octets)
    requires IsScalar(c) && u == Utf8(c) && 1 <= |u| <= |b| && forall k :: 0 <= k < |u| ==> b[k] == u[k]
    ensures CharLength(b, 0) == |u|
  {
    assert b[0] == u[0];
    if c >= 0x10000 {
      FourBytes(c, u, b);
    } else if c >= 0x800 {
      ThreeBytes(c, u, b);
    } else if c >= 0x80 {
      assert b[1] == u[1];
    }
  }

  lemma ThreeBytes(c: nat, u: Octets, b: Octets)
    requires 0x800 <= c < 0x10000 && IsScalar(c) && u == Utf8(c) && 3 <= |b| && b[0] == u[0]
    requires forall k :: 0 <= k < 3 ==> b[k] == u[k]
    ensures CharLength(b, 0) == 3
  {
    assert b[1] == u[1] && b[2] == u[2];
    assert u[0] as nat == 0xE0 + c / 0x1000 && u[1] as nat == 0x80 + c / 0x40 % 0x40;
    assert c / 0x1000 == 0 ==> c / 0x40 % 0x40 == c / 0x40 >= 0x20;
  }

  lemma FourBytes(c: nat, u: Octets, b: Octets)
    requires 0x10000 <= c < 0x110000 && u == Utf8(c) && 4 <= |b| && b[0] == u[0]
    requires forall k :: 0 <= k < 4 ==> b[k] == u[k]
    ensures CharLength(b, 0) == 4
  {
    assert b[1] == u[1] && b[2] == u[2] && b[3] == u[3];
    assert u[0] as nat == 0xF0 + c / 0x40000 && u[1] as nat == 0x80 + c / 0x1000 % 0x40;
    assert c / 0x1000 >= 0x10 && c / 0x1000 < 0x110;
    assert c / 0x40000 == 0 ==> c / 0x1000 % 0x40 == c / 0x1000;
  }

  lemma {:induction false} ValidFrom(b: Octets, i: nat, s: string)
    requires i <= |b| && b[i..] == Encoded(s)
    ensures ValidUtf8(b, i)
    decreases |s|
  {
    hide Utf8, CharLength;
    if s != "" {
      var u := Utf8(s[0] as nat);
      CharIs(b[i..], s[0] as nat);
      CharShift(b, i);
      assert b[i + |u|..] == b[i..][|u|..] == Encoded(s[1..]);
      ValidFrom(b, i + |u|, s[1..]);
    }
  }

  /** What the classifier takes for text is text: some characters have these bytes. */
  lemma {:induction false} TextFrom(b: Octets, i: nat) returns (s: string)
    requires i <= |b| && ValidUtf8(b, i)
    ensures Encoded(s) == b[i..]
    decreases |b| - i
  {
    hide Utf8, CharLength, Decode;
    if i == |b| {
      s := "";
    } else {
      var n := CharLength(b, i);
      var u := b[i..i + n];
      CharDecodes(b, i);
      var code := Decode(u).value;
      Utf8Iff(code, u);
      var rest := TextFrom(b, i + n);
      s := [code as char] + rest;
      assert s[1..] == rest;
      assert b[i..] == u + b[i + n..];
    }
  }

  lemma CharDecodes(b: Octets, i: nat)
    requires i < |b| && CharLength(b, i) > 0
    ensures Decode(b[i..i + CharLength(b, i)]).Some?
  {
    var n := CharLength(b, i);
    var u := b[i..i + n];
    assert u[0] == b[i];
    assert n >= 2 ==> u[1] == b[i + 1];
    assert n >= 3 ==> u[2] == b[i + 2];
    assert n >= 4 ==> u[3] == b[i + 3];
  }

  lemma CharShift(b: Octets, i: nat)
    requires i < |b|
    ensures CharLength(b, i) == CharLength(b[i..], 0)
  {}

  // ---- white space

  /** A white-space character is recognised by its bytes, and no other character is. */
  lemma SpaceIs(b: Octets, c: char)
    requires Utf8(c as nat) <= b
    ensures b != [] && SpaceLength(b, 0) == (if IsSpace(c) then |Utf8(c as nat)| else 0) <= 3
  {
    var u := Utf8(c as nat);
    Utf8Shape(c as nat);
    assert forall k :: 0 <= k < |u| ==> b[k] == u[k];
    ScalarSpace(c, u, b);
  }

  lemma ScalarSpace(c: char, u: Octets, b: Octets)
    requires u == Utf8(c as nat) && 1 <= |u| <= |b| && forall k :: 0 <= k < |u| ==> b[k] == u[k]
    ensures SpaceLength(b, 0) == if IsSpace(c) then |u| else 0
  {
    assert |u| >= 1 ==> b[0] == u[0];
    assert |u| >= 2 ==> b[1] == u[1];
    assert |u| >= 3 ==> b[2] == u[2];
  }

  lemma {:induction false} TrimmedStart(gap: string, content: string)
    requires (forall k :: 0 <= k < |gap| ==> IsSpace(gap[k])) && (content != "" ==> !IsSpace(content[0]))
    ensures TrimStart(Encoded(gap + content)) == Encoded(content)
    decreases |gap|
  {
    hide Utf8, SpaceLength, IsSpace;
    if gap == "" {
      assert gap + content == content;
      if content != "" {
        SpaceIs(Encoded(content), content[0]);
      }
    } else {
      assert (gap + content)[1..] == gap[1..] + content;
      var b := Encoded(gap + content);
      Utf8Shape(gap[0] as nat);
      SpaceIs(b, gap[0]);
      assert b[|Utf8(gap[0] as nat)|..] == Encoded(gap[1..] + content);
      TrimmedStart(gap[1..], content);
    }
  }

  /** Behind any text, a character is trimmed exactly when it is white space. */
  lemma LastIsSpace(front: Octets, c: char, b: Octets)
    requires b == front + Utf8(c as nat)
    ensures TrimEnd(b) == if IsSpace(c) then TrimEnd(front) else b
  {
    hide Utf8, SpaceLength, IsSpace, TrimEnd;
    var u := Utf8(c as nat);
    Utf8Shape(c as nat);
    SpaceIs(u, c);
    LastStarts(front, u, b);
    assert b[..|b| - |u|] == front;
    TrimOnce(b);
  }

  lemma TrimOnce(b: Octets)
    ensures TrimEnd(b) == if |b| >= 1 && SpaceLength(b, |b| - 1) == 1 then TrimEnd(b[..|b| - 1])
                          else if |b| >= 2 && SpaceLength(b, |b| - 2) == 2 then TrimEnd(b[..|b| - 2])
                          else if |b| >= 3 && SpaceLength(b, |b| - 3) == 3 then TrimEnd(b[..|b| - 3])
                          else b
  {
    hide SpaceLength;
  }

  /** Near the end of a text, a white-space character can only begin where its last character begins. */
  lemma LastStarts(front: Octets, u: Octets, b: Octets)
    requires b == front + u && 1 <= |u| <= 4 && SpaceLength(u, 0) in {0, |u|}
    requires |u| == 1 ==> u[0] < 0x80
    requires (|u| > 1 ==> u[0] >= 0xC2) && (forall k :: 1 <= k < |u| ==> 0x80 <= u[k] < 0xC0)
    ensures SpaceLength(b, |b| - 1) == 1 <==> |u| == 1 && SpaceLength(u, 0) == 1
    ensures |b| >= 2 ==> (SpaceLength(b, |b| - 2) == 2 <==> |u| == 2 && SpaceLength(u, 0) == 2)
    ensures |b| >= 3 ==> (SpaceLength(b, |b| - 3) == 3 <==> |u| == 3 && SpaceLength(u, 0) == 3)
  {
    assert b[|b| - 1] == u[|u| - 1];
    assert |u| >= 2 ==> b[|b| - 2] == u[|u| - 2];
    assert |u| >= 3 ==> b[|b| - 3] == u[|u| - 3];
    assert |b| >= 2 && |u| == 1 ==> b[|b| - 2] == front[|front| - 1];
  }

  lemma {:induction false} TrimmedEnd(name: string, gap: string)
    requires (forall k :: 0 <= k < |gap| ==> IsSpace(gap[k])) && (name != "" ==> !IsSpace(name[|name| - 1]))
    ensures TrimEnd(Encoded(name + gap)) == Encoded(name)
    decreases |gap|
  {
    hide Utf8, IsSpace, TrimEnd;
    if gap == "" {
      assert name + gap == name;
      if name == "" {
        NothingTrimmed();
      } else {
        LastCharacter(name);
        LastIsSpace(Encoded(name[..|name| - 1]), name[|name| - 1], Encoded(name));
      }
    } else {
      var text := name + gap;
      LastCharacter(text);
      LastIsSpace(Encoded(text[..|text| - 1]), text[|text| - 1], Encoded(text));
      assert text[..|text| - 1] == name + gap[..|gap| - 1];
      TrimmedEnd(name, gap[..|gap| - 1]);
    }
  }

  lemma NothingTrimmed()
    ensures TrimEnd([]) == []
  {}

  lemma LastCharacter(s: string)
    requires s != ""
    ensures Encoded(s) == Encoded(s[..|s| - 1]) + Utf8(s[|s| - 1] as nat)
  {
    hide Utf8;
    var last := s[|s| - 1];
    assert s == s[..|s| - 1] + [last];
    EncodedJoin(s[..|s| - 1], [last]);
    assert [last][1..] == "" && Encoded("") == [];
  }

  // ---- lines

  /** Text of one line: no line feed and no carriage return, and not empty. */
  ghost predicate IsLine(s: string) { s != "" && forall k :: 0 <= k < |s| ==> s[k] != '\n' && s[k] != '\r' }

  lemma {:induction false} NoBreaks(s: string)
    requires forall k :: 0 <= k < |s| ==> s[k] != '\n' && s[k] != '\r'
    ensures forall k :: 0 <= k < |Encoded(s)| ==> Encoded(s)[k] != LF && Encoded(s)[k] != CR
    ensures s != "" ==> Encoded(s) != []
    decreases |s|
  {
    hide Utf8;
    if s != "" {
      NoBreaks(s[1..]);
      Utf8Shape(s[0] as nat);
    }
  }

  /** How every line of an event ends. */
  function Break(crlf: bool): Octets { if crlf then [CR, LF] else [LF] }

  /** The lines of an event with breaks between them. */
  ghost function Joined(lines: seq<string>, crlf: bool): Octets {
    if lines == [] then []
    else if |lines| == 1 then Encoded(lines[0]) else Encoded(lines[0]) + Break(crlf) + Joined(lines[1..], crlf)
  }

  ghost function EncodedLines(lines: seq<string>): (r: seq<Octets>)
    ensures |r| == |lines| && forall k :: 0 <= k < |r| ==> r[k] == Encoded(lines[k])
  {
    if lines == [] then [] else [Encoded(lines[0])] + EncodedLines(lines[1..])
  }

  lemma IndexIs(b: Octets, c: byte, i: nat)
    requires i <= |b| && (forall k :: 0 <= k < i ==> b[k] != c) && (i < |b| ==> b[i] == c)
    ensures IndexOf(b, c) == i
  {
    var r := IndexOf(b, c);
    forall k | 0 <= k < r ensures b[k] != c {
      assert b[..r][k] == b[k];
    }
  }

  lemma {:induction false} LinesJoined(lines: seq<string>, crlf: bool)
    requires lines != [] && forall k :: 0 <= k < |lines| ==> IsLine(lines[k])
    ensures Lines(Joined(lines, crlf)) == EncodedLines(lines)
    decreases |lines|
  {
    hide Encoded, IndexOf, Lines, Break;
    NoBreaks(lines[0]);
    if |lines| == 1 {
      LastLine(Encoded(lines[0]));
      assert EncodedLines(lines[1..]) == [];
    } else {
      LinesJoined(lines[1..], crlf);
      LineOff(Encoded(lines[0]), crlf, Joined(lines[1..], crlf));
    }
  }

  lemma LastLine(line: Octets)
    requires line != [] && forall k :: 0 <= k < |line| ==> line[k] != LF
    ensures Lines(line) == [line]
  {
    IndexIs(line, LF, |line|);
    assert line[..|line|] == line;
  }

  lemma LineOff(line: Octets, crlf: bool, rest: Octets)
    requires forall k :: 0 <= k < |line| ==> line[k] != LF && line[k] != CR
    ensures Lines(line + Break(crlf) + rest) == [line] + Lines(rest)
  {
    hide IndexOf, Lines;
    var end := |line| + |Break(crlf)| - 1;
    var b := line + Break(crlf) + rest;
    BreakAt(line, crlf, rest, b);
    IndexIs(b, LF, end);
    LinesOnce(b, end);
    assert b[end + 1..] == rest;
    assert b[..|line|] == line;
  }

  lemma LinesOnce(b: Octets, end: nat)
    requires end < |b| && IndexOf(b, LF) == end
    ensures Lines(b) == [if end > 0 && b[end - 1] == CR then b[..end - 1] else b[..end]] + Lines(b[end + 1..])
  {
    hide IndexOf;
    var line := b[..end];
    assert end > 0 ==> line[end - 1] == b[end - 1] && line[..end - 1] == b[..end - 1];
  }

  lemma BreakAt(line: Octets, crlf: bool, rest: Octets, b: Octets)
    requires b == line + Break(crlf) + rest
    ensures b[|line|] == Break(crlf)[0] && b[|line| + |Break(crlf)| - 1] == LF
    ensures forall k :: 0 <= k < |line| ==> b[k] == line[k]
  {}
}
