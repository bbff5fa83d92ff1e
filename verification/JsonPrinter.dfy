/**
  JSON as the service writes it: compact for the inserted `env` value, pretty for a whole
  document, keys in byte order. Parsing what was printed gives the value back.
*/
module JsonPrinter {
  import opened Bytes
  import opened Json
  import opened JsonStability

  // ---- key order

  predicate AtMost(a: Octets, b: Octets) {
    a == [] || (b != [] && (a[0] < b[0] || (a[0] == b[0] && AtMost(a[1..], b[1..]))))
  }

  lemma {:induction false} AtMostTotal(a: Octets, b: Octets)
    ensures AtMost(a, b) || AtMost(b, a)
    ensures AtMost(a, b) && AtMost(b, a) ==> a == b
  {
    if a != [] && b != [] && a[0] == b[0] {
      AtMostTotal(a[1..], b[1..]);
      assert a == [a[0]] + a[1..] && b == [b[0]] + b[1..];
    }
  }

  lemma {:induction false} AtMostTransitive(a: Octets, b: Octets, c: Octets)
    requires AtMost(a, b) && AtMost(b, c)
    ensures AtMost(a, c)
  {
    if a != [] && a[0] == b[0] == c[0] {
      AtMostTransitive(a[1..], b[1..], c[1..]);
    }
  }

  predicate IsLeast(k: Octets, keys: set<Octets>) {
    k in keys && forall other <- keys :: AtMost(k, other)
  }

  lemma {:induction false} LeastExists(keys: set<Octets>) returns (k: Octets)
    requires keys != {}
    ensures IsLeast(k, keys)
  {
    k :| k in keys;
    if keys != {k} {
      var least := LeastExists(keys - {k});
      AtMostTotal(k, least);
      AtMostTotal(k, k);
      if AtMost(k, least) {
        forall other | other in keys ensures AtMost(k, other) {
          if other != k {
            AtMostTransitive(k, least, other);
          }
        }
      } else {
        k := least;
      }
    } else {
      AtMostTotal(k, k);
    }
  }

  lemma LeastUnique(keys: set<Octets>)
    ensures forall k, other :: IsLeast(k, keys) && IsLeast(other, keys) ==> k == other
  {
    forall k, other | IsLeast(k, keys) && IsLeast(other, keys) ensures k == other {
      AtMostTotal(k, other);
    }
  }

  function Least(keys: set<Octets>): (k: Octets)
    requires keys != {}
    ensures IsLeast(k, keys)
  {
    assert exists k :: k in keys && IsLeast(k, keys) by {
      var least := LeastExists(keys);
      assert IsLeast(least, keys);
    }
    LeastUnique(keys);
    var k :| k in keys && IsLeast(k, keys);
    k
  }

  /** The keys of an object in the order they are written. */
  function SortedKeys(keys: set<Octets>): (r: seq<Octets>)
    ensures |r| == |keys|
    ensures forall k :: k in keys <==> k in r
    ensures forall i, j :: 0 <= i < j < |r| ==> r[i] != r[j]
    ensures forall i, j :: 0 <= i < j < |r| ==> AtMost(r[i], r[j])
  {
    if keys == {} then []
    else
      var k := Least(keys);
      [k] + SortedKeys(keys - {k})
  }

  // ---- text

  function HexDigit(n: nat): byte
    requires n < 16
  {
    if n < 10 then (0x30 + n) as byte else (0x57 + n) as byte
  }

  function EscapeByte(c: byte): (r: Octets)
    ensures r != []
  {
    if c == QUOTE || c == BACKSLASH then [BACKSLASH, c]
    else if c == 0x08 then [BACKSLASH, 0x62]
    else if c == 0x09 then [BACKSLASH, 0x74]
    else if c == 0x0A then [BACKSLASH, 0x6E]
    else if c == 0x0C then [BACKSLASH, 0x66]
    else if c == 0x0D then [BACKSLASH, 0x72]
    else if c < 0x20 then [BACKSLASH, 0x75, 0x30, 0x30, HexDigit(c as nat / 16), HexDigit(c as nat % 16)]
    else [c]
  }

  /** String contents and the closing quote. */
  function PrintString(text: Octets): (r: Octets)
    ensures r != []
  {
    if text == [] then [QUOTE] else EscapeByte(text[0]) + PrintString(text[1..])
  }

  datatype Layout = Compact | Pretty

  function Spaces(n: nat): (r: Octets)
    ensures |r| == n && forall c <- r :: c == 0x20
  {
    seq(n, _ => 0x20)
  }

  /** White space before an item at nesting `depth`. */
  function Gap(layout: Layout, depth: nat): (r: Octets)
    ensures forall k :: 0 <= k < |r| ==> IsWhite(r[k])
  {
    if layout.Compact? then [] else [0x0A] + Spaces(2 * depth)
  }

  /** White space between a colon and its value. */
  function AfterColon(layout: Layout): (r: Octets)
    ensures forall k :: 0 <= k < |r| ==> IsWhite(r[k])
  {
    if layout.Compact? then [] else [0x20]
  }

  function Print(v: Value, layout: Layout, depth: nat): (r: Octets)
    decreases v
  {
    match v
    case Null => NULL
    case Bool(truth) => if truth then TRUE else FALSE
    case Number(literal) => literal
    case Str(text) => [QUOTE] + PrintString(text)
    case Array(items) =>
      if items == [] then [OPEN_BRACKET, CLOSE_BRACKET]
      else [OPEN_BRACKET] + PrintItems(v, 0, layout, depth + 1) + Gap(layout, depth) + [CLOSE_BRACKET]
    case Object(fields) =>
      if fields == map[] then [OPEN_BRACE, CLOSE_BRACE]
      else [OPEN_BRACE] + PrintFields(v, SortedKeys(fields.Keys), layout, depth + 1) + Gap(layout, depth) + [CLOSE_BRACE]
  }

  /** Items of an array from index `i`, separated by commas. */
  function PrintItems(v: Value, i: nat, layout: Layout, depth: nat): Octets
    requires v.Array? && i < |v.items|
    decreases v, |v.items| - i
  {
    var item := Gap(layout, depth) + Print(v.items[i], layout, depth);
    if i + 1 == |v.items| then item else item + [COMMA] + PrintItems(v, i + 1, layout, depth)
  }

  /** One member of an object: gap, key, colon, value. */
  function PrintField(v: Value, key: Octets, layout: Layout, depth: nat): Octets
    requires v.Object? && key in v.fields
    decreases v, 0
  {
    Gap(layout, depth) + [QUOTE] + PrintString(key) + [COLON] + AfterColon(layout) + Print(v.fields[key], layout, depth)
  }

  /** The members of an object with the given keys, separated by commas. */
  function PrintFields(v: Value, keys: seq<Octets>, layout: Layout, depth: nat): Octets
    requires v.Object? && keys != [] && forall k <- keys :: k in v.fields
    decreases v, |keys|
  {
    var field := PrintField(v, keys[0], layout, depth);
    if |keys| == 1 then field else field + [COMMA] + PrintFields(v, keys[1..], layout, depth)
  }

  /** Every number is written the way JSON writes numbers. */
  ghost predicate WellFormed(v: Value) {
    match v
    case Number(literal) => IsNumber(literal) && (forall c <- literal :: IsNumberByte(c))
    case Array(items) => forall item <- items :: WellFormed(item)
    case Object(fields) => forall k <- fields :: WellFormed(fields[k])
    case _ => true
  }

  // ---- what was printed parses back

  /** `text` stands in `b` at position `i`. */
  ghost predicate Occurs(b: Octets, i: nat, text: Octets)
    ensures Occurs(b, i, text) ==> i + |text| <= |b|
    decreases |text|
  {
    if text == [] then i <= |b| else i < |b| && b[i] == text[0] && Occurs(b, i + 1, text[1..])
  }

  lemma {:induction false} OccursSplit(b: Octets, i: nat, left: Octets, right: Octets)
    ensures Occurs(b, i, left + right) <==> Occurs(b, i, left) && Occurs(b, i + |left|, right)
    decreases |left|
  {
    if left == [] {
      assert left + right == right;
    } else {
      assert (left + right)[1..] == left[1..] + right;
      OccursSplit(b, i + 1, left[1..], right);
    }
  }

  lemma {:induction false} OccursSlice(b: Octets, i: nat, text: Octets)
    ensures Occurs(b, i, text) <==> i + |text| <= |b| && b[i..i + |text|] == text
    decreases |text|
  {
    if text != [] {
      OccursSlice(b, i + 1, text[1..]);
      if i + |text| <= |b| {
        assert b[i..i + |text|] == [b[i]] + b[i + 1..i + |text|];
        assert text == [text[0]] + text[1..];
      }
    }
  }

  lemma {:induction false} OccursAt(b: Octets, i: nat, text: Octets, k: nat)
    requires Occurs(b, i, text) && k < |text|
    ensures b[i + k] == text[k]
    decreases k
  {
    if k > 0 {
      OccursAt(b, i + 1, text[1..], k - 1);
    }
  }

  lemma {:induction false} StringPrinted(text: Octets, b: Octets, i: nat)
    requires Occurs(b, i, PrintString(text))
    ensures ParseString(b, i) == Some((text, i + |PrintString(text)|))
  {
    hide ParseChar, EscapeByte;
    if text == [] {
      assert PrintString(text)[0] == QUOTE;
    } else {
      var head := EscapeByte(text[0]);
      var tail := PrintString(text[1..]);
      OccursSplit(b, i, head, tail);
      StringPrinted(text[1..], b, i + |head|);
      ByteEscaped(text[0], b, i);
      assert text == [text[0]] + text[1..];
    }
  }

  lemma ByteEscaped(c: byte, b: Octets, i: nat)
    requires Occurs(b, i, EscapeByte(c))
    ensures b[i] != QUOTE && ParseChar(b, i) == Some(([c], i + |EscapeByte(c)|))
  {
    var e := EscapeByte(c);
    OccursAt(b, i, e, 0);
    if |e| == 6 {
      OccursAt(b, i, e, 1);
      OccursAt(b, i, e, 2);
      OccursAt(b, i, e, 3);
      OccursAt(b, i, e, 4);
      OccursAt(b, i, e, 5);
      assert HexValue(b[i + 4]) == Some(c as nat / 16) && HexValue(b[i + 5]) == Some(c as nat % 16);
      assert Hex4(b, i + 2) == Some(c as nat);
    } else if |e| == 2 {
      OccursAt(b, i, e, 1);
    }
  }
}
