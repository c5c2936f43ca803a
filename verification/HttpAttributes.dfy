/**
 * Attribute lists such as those of authentication challenges: the parser, and the two ways of
 * writing lists it is meant to read.
 */
module HttpAttributes {
  import opened HttpText

  datatype Attribute = Attribute(name: string, value: string)

  // ---- What the parser reads ---------------------------------------------

  /** A name ends here; an equal sign belongs to it unless a value follows. */
  predicate EndsName(s: string) {
    s == "" || IsSpace(s[0]) || (|s| > 1 && s[0] == '=' && !IsSpace(s[1]) && s[1] != '=')
  }

  function Name(s: string): (n: string)
    ensures n <= s
  {
    if EndsName(s) then "" else [s[0]] + Name(s[1..])
  }

  /** The text up to the closing quote, and what follows it; a backslash protects the next character. */
  function Quoted(s: string): (r: (string, string))
    ensures |r.1| <= |s|
  {
    if s == "" then ("", "")
    else if s[0] == '"' then ("", s[1..])
    else if s[0] == '\\' && |s| > 1 then
      var r := Quoted(s[2..]);
      ([s[1]] + r.0, r.1)
    else
      var r := Quoted(s[1..]);
      ([s[0]] + r.0, r.1)
  }

  function Plain(s: string): (v: string)
    ensures v <= s
  {
    if s == "" || IsSpace(s[0]) || s[0] == ',' then "" else [s[0]] + Plain(s[1..])
  }

  /** The value after a name, if there is one, and what follows. */
  function Value(s: string): (r: (string, string))
    ensures |r.1| <= |s|
    ensures EndsName(s) && s != "" && !IsSpace(s[0]) ==> |r.1| < |s|
  {
    if s == "" || s[0] != '=' then ("", s)
    else if |s| > 1 && s[1] == '"' then Quoted(s[2..])
    else (Plain(s[1..]), s[1 + |Plain(s[1..])|..])
  }

  function AfterComma(s: string): string { if s != "" && s[0] == ',' then s[1..] else s }

  lemma {:induction false} NameStopsAtEnd(s: string)
    ensures EndsName(s[|Name(s)|..])
  {
    if !EndsName(s) {
      NameStopsAtEnd(s[1..]);
      assert s[|Name(s)|..] == s[1..][|Name(s[1..])|..];
    }
  }

  /** One attribute and the rest: at least one character is used up. */
  function ParseOne(s: string): (r: (Attribute, string))
    requires s != "" && !IsSpace(s[0])
    ensures |r.1| < |s|
  {
    var name := Name(s);
    NameStopsAtEnd(s);
    var value := Value(s[|name|..]);
    (Attribute(name, value.0), AfterComma(value.1))
  }

  function Parse(s: string): seq<Attribute>
    decreases |s|
  {
    TrimLeftMeans(s);
    var t := TrimLeft(s);
    if t == "" then []
    else
      var (attribute, rest) := ParseOne(t);
      [attribute] + Parse(rest)
  }

  // ---- What is written for it --------------------------------------------

  /** What quote() protects, and what EscapeAttribute does: strchr finds the terminating zero too. */
  const QUOTE_MARKS: set<char> := {'"', '\\'}
  const ESCAPE_MARKS: set<char> := {'"', '\\', '\0'}

  function EscapedChar(c: char, marks: set<char>): (r: string)
    ensures 1 <= |r| <= 2
  {
    if c in marks then ['\\', c] else [c]
  }

  function Escaped(s: string, marks: set<char>): (r: string)
    ensures |s| <= |r| <= 2 * |s|
  {
    if s == "" then "" else EscapedChar(s[0], marks) + Escaped(s[1..], marks)
  }

  function Quote(s: string, marks: set<char>): string { "\"" + Escaped(s, marks) + "\"" }

  /** With bareEmpty an empty value is not written at all. */
  function Entry(a: Attribute, bareEmpty: bool, marks: set<char>): string {
    if bareEmpty && a.value == "" then a.name else a.name + "=" + Quote(a.value, marks)
  }

  function List(attributes: seq<Attribute>, separator: char, bareEmpty: bool, marks: set<char>): string {
    if attributes == [] then ""
    else if |attributes| == 1 then Entry(attributes[0], bareEmpty, marks)
    else Entry(attributes[0], bareEmpty, marks) + [separator, ' '] + List(attributes[1..], separator, bareEmpty, marks)
  }

  predicate GoodName(name: string) {
    name != "" && forall i :: 0 <= i < |name| ==> !IsSpace(name[i]) && name[i] != '='
  }

  predicate GoodNames(attributes: seq<Attribute>) { forall a :: a in attributes ==> GoodName(a.name) }

  lemma EscapedNothing(marks: set<char>)
    ensures Escaped("", marks) == ""
  {
  }

  lemma EscapedStep(c: char, s: string, marks: set<char>)
    ensures Escaped([c] + s, marks) == EscapedChar(c, marks) + Escaped(s, marks)
  {
    assert ([c] + s)[1..] == s;
  }

  lemma Assoc(s: string, t: string, u: string)
    ensures s + (t + u) == (s + t) + u
  {
  }

  lemma {:induction false} EscapedConcat(s: string, t: string, marks: set<char>)
    ensures Escaped(s + t, marks) == Escaped(s, marks) + Escaped(t, marks)
  {
    hide Escaped, EscapedChar;
    if s == "" {
      assert s + t == t;
      EscapedNothing(marks);
    } else {
      var c, u := s[0], s[1..];
      calc {
        Escaped(s + t, marks);
        { assert s + t == [c] + (u + t); EscapedStep(c, u + t, marks); }
        EscapedChar(c, marks) + Escaped(u + t, marks);
        { EscapedConcat(u, t, marks); }
        EscapedChar(c, marks) + (Escaped(u, marks) + Escaped(t, marks));
        { Assoc(EscapedChar(c, marks), Escaped(u, marks), Escaped(t, marks)); }
        EscapedChar(c, marks) + Escaped(u, marks) + Escaped(t, marks);
        { assert s == [c] + u; EscapedStep(c, u, marks); }
        Escaped(s, marks) + Escaped(t, marks);
      }
    }
  }

  // ---- Reading back ------------------------------------------------------

  /** One character of a quoted value, escaped if it has to be. */
  lemma QuotedStep(c: char, marks: set<char>, tail: string)
    requires QUOTE_MARKS <= marks
    ensures Quoted(EscapedChar(c, marks) + tail) == ([c] + Quoted(tail).0, Quoted(tail).1)
  {
    assert '"' in marks && '\\' in marks;
    var s := EscapedChar(c, marks) + tail;
    if c in marks { assert s[2..] == tail; } else { assert s[1..] == tail; }
  }

  lemma QuoteCloses(rest: string)
    ensures Quoted("\"" + rest) == ("", rest)
  {
    assert ("\"" + rest)[1..] == rest;
  }

  lemma {:induction false} QuotedReadsBack(v: string, marks: set<char>, rest: string)
    requires QUOTE_MARKS <= marks
    ensures Quoted(Escaped(v, marks) + "\"" + rest) == (v, rest)
  {
    hide Quoted, Escaped, EscapedChar;
    if v == "" {
      EscapedNothing(marks);
      QuoteCloses(rest);
      assert "" + "\"" + rest == "\"" + rest;
    } else {
      var c, u := v[0], v[1..];
      assert v == [c] + u;
      QuotedReadsBack(u, marks, rest);
      EscapedStep(c, u, marks);
      QuotedStep(c, marks, Escaped(u, marks) + "\"" + rest);
      assert EscapedChar(c, marks) + Escaped(u, marks) + "\"" + rest
        == EscapedChar(c, marks) + (Escaped(u, marks) + "\"" + rest);
    }
  }

  lemma {:induction false} NameReadsBack(name: string, rest: string)
    requires (name == "" || GoodName(name)) && EndsName(rest)
    ensures Name(name + rest) == name
  {
    if name == "" {
      assert name + rest == rest;
    } else {
      NameReadsBack(name[1..], rest);
      assert (name + rest)[1..] == name[1..] + rest;
    }
  }

  /** A name and its quoted value. */
  lemma PairReadsBack(a: Attribute, marks: set<char>, rest: string)
    requires GoodName(a.name) && QUOTE_MARKS <= marks
    ensures ParseOne(Entry(a, false, marks) + rest) == (a, AfterComma(rest))
  {
    hide Quoted, Escaped, Name, AfterComma;
    var value := Escaped(a.value, marks) + "\"" + rest;
    var text := "=\"" + value;
    assert Entry(a, false, marks) + rest == a.name + text;
    NameReadsBack(a.name, text);
    QuotedReadsBack(a.value, marks, rest);
    assert (a.name + text)[|a.name|..] == text;
    assert text[2..] == value;
  }

  /** A name alone, followed by blank space or nothing. */
  lemma BareReadsBack(name: string, rest: string)
    requires GoodName(name) && (rest == "" || IsSpace(rest[0]))
    ensures ParseOne(name + rest) == (Attribute(name, ""), rest)
  {
    NameReadsBack(name, rest);
    assert (name + rest)[|name|..] == rest;
  }

  /** A separator swallowed by the bare name before it, or standing alone as one. */
  lemma {:induction false} SwallowedReadsBack(name: string, c: char, rest: string)
    requires (name == "" || GoodName(name)) && !IsSpace(c) && rest != "" && IsSpace(rest[0])
    ensures Name(name + [c] + rest) == name + [c]
    ensures ParseOne(name + [c] + rest) == (Attribute(name + [c], ""), rest)
  {
    var s := name + [c] + rest;
    if name == "" {
      assert s[1..] == rest && Name(rest) == "";
    } else {
      SwallowedReadsBack(name[1..], c, rest);
      assert s[1..] == name[1..] + [c] + rest;
      assert name == [name[0]] + name[1..];
    }
    assert s[|name| + 1..] == rest;
  }

  lemma ParseStep(first: Attribute, text: string, rest: string)
    requires text != "" && !IsSpace(text[0]) && ParseOne(text) == (first, rest)
    ensures Parse(text) == [first] + Parse(rest)
  {
  }

  lemma NothingParsed()
    ensures Parse("") == []
  {
  }

  lemma ParseSkips(c: char, s: string)
    requires IsSpace(c)
    ensures Parse([c] + s) == Parse(s)
  {
    assert ([c] + s)[1..] == s;
  }

  function BackFirst(a: Attribute, separator: char, bareEmpty: bool): (r: seq<Attribute>)
    ensures |r| >= 1
  {
    if bareEmpty && a.value == "" then [Attribute(if IsSpace(separator) then a.name else a.name + [separator], "")]
    else if separator == ',' || IsSpace(separator) then [a]
    else [a, Attribute([separator], "")]
  }

  /** What comes back when a list has been written with the given separator and a blank between its entries. */
  function Back(attributes: seq<Attribute>, separator: char, bareEmpty: bool): (r: seq<Attribute>)
    ensures |r| >= |attributes|
  {
    if |attributes| <= 1 then attributes
    else BackFirst(attributes[0], separator, bareEmpty) + Back(attributes[1..], separator, bareEmpty)
  }

  lemma BareFirstReadsBack(name: string, separator: char, rest: string)
    requires GoodName(name)
    ensures Parse(name + [separator, ' '] + rest)
         == [Attribute(if IsSpace(separator) then name else name + [separator], "")] + Parse(rest)
  {
    hide Parse, ParseOne, Name;
    var text, later := name + [separator, ' '] + rest, [' '] + rest;
    ParseSkips(' ', rest);
    if IsSpace(separator) {
      var tail := [separator] + later;
      assert text == name + tail;
      BareReadsBack(name, tail);
      ParseStep(Attribute(name, ""), text, tail);
      ParseSkips(separator, later);
    } else {
      assert text == name + [separator] + later;
      SwallowedReadsBack(name, separator, later);
      ParseStep(Attribute(name + [separator], ""), text, later);
    }
  }

  /** What is left when the separator after a quoted value has been read. */
  lemma SeparatorReadsBack(separator: char, rest: string)
    ensures Parse(AfterComma([separator, ' '] + rest))
         == (if separator == ',' || IsSpace(separator) then [] else [Attribute([separator], "")]) + Parse(rest)
  {
    hide Parse, ParseOne, Name;
    var tail, later := [separator, ' '] + rest, [' '] + rest;
    assert tail == [separator] + later && tail[1..] == later;
    ParseSkips(' ', rest);
    if separator == ',' {
    } else if IsSpace(separator) {
      ParseSkips(separator, later);
    } else {
      SwallowedReadsBack("", separator, later);
      assert "" + [separator] + later == tail && "" + [separator] == [separator];
      ParseStep(Attribute([separator], ""), tail, later);
    }
  }

  lemma FirstReadsBack(a: Attribute, separator: char, bareEmpty: bool, marks: set<char>, rest: string)
    requires GoodName(a.name) && QUOTE_MARKS <= marks
    ensures Parse(Entry(a, bareEmpty, marks) + [separator, ' '] + rest)
      == BackFirst(a, separator, bareEmpty) + Parse(rest)
  {
    hide Parse, ParseOne, Quote, AfterComma, IsSpace;
    if bareEmpty && a.value == "" {
      BareFirstReadsBack(a.name, separator, rest);
    } else {
      var entry, tail := Entry(a, false, marks), [separator, ' '] + rest;
      Assoc(entry, [separator, ' '], rest);
      PairReadsBack(a, marks, tail);
      assert !IsSpace(entry[0]);
      ParseStep(a, entry + tail, AfterComma(tail));
      SeparatorReadsBack(separator, rest);
    }
  }

  lemma LastReadsBack(a: Attribute, bareEmpty: bool, marks: set<char>)
    requires GoodName(a.name) && QUOTE_MARKS <= marks
    ensures Parse(Entry(a, bareEmpty, marks)) == [a]
  {
    hide ParseOne, Quote;
    var text := Entry(a, bareEmpty, marks);
    assert text + "" == text;
    if bareEmpty && a.value == "" { BareReadsBack(a.name, ""); } else { PairReadsBack(a, marks, ""); }
    ParseStep(a, text, "");
    assert Parse("") == [];
  }

  /** For every list with proper names, whatever its values: what the parser makes of the written form. */
  lemma {:induction false} ListReadsBack(attributes: seq<Attribute>, separator: char, bareEmpty: bool, marks: set<char>)
    requires GoodNames(attributes) && QUOTE_MARKS <= marks
    ensures Parse(List(attributes, separator, bareEmpty, marks)) == Back(attributes, separator, bareEmpty)
  {
    hide Parse, Entry, BackFirst;
    if attributes == [] {
      NothingParsed();
    } else if |attributes| == 1 {
      LastReadsBack(attributes[0], bareEmpty, marks);
    } else {
      ListReadsBack(attributes[1..], separator, bareEmpty, marks);
      FirstReadsBack(attributes[0], separator, bareEmpty, marks, List(attributes[1..], separator, bareEmpty, marks));
    }
  }

  predicate NoneBare(attributes: seq<Attribute>) {
    forall i :: 0 <= i < |attributes| - 1 ==> attributes[i].value != ""
  }

  lemma NoneBareStep(first: Attribute, rest: seq<Attribute>)
    requires rest != []
    ensures NoneBare([first] + rest) <==> first.value != "" && NoneBare(rest)
  {
    var all := [first] + rest;
    if NoneBare(all) {
      assert all[0].value != "";
      forall i | 0 <= i < |rest| - 1 ensures rest[i].value != "" { assert all[i + 1].value != ""; }
    }
  }

  lemma {:induction false} CommaKeepsPairs(attributes: seq<Attribute>, bareEmpty: bool)
    ensures Back(attributes, ',', bareEmpty) == attributes <==> !bareEmpty || NoneBare(attributes)
  {
    if |attributes| > 1 {
      hide NoneBare;
      var first, rest := attributes[0], attributes[1..];
      CommaKeepsPairs(rest, bareEmpty);
      NoneBareStep(first, rest);
      assert attributes == [first] + rest;
      var back := Back(attributes, ',', bareEmpty);
      if bareEmpty && first.value == "" {
        assert |back[0].name| == |first.name| + 1;
      } else {
        assert back == [first] + Back(rest, ',', bareEmpty);
        assert back[1..] == Back(rest, ',', bareEmpty) && attributes[1..] == rest;
      }
    }
  }

  /** A list of quoted values joined by ", " comes back as it was. */
  lemma {:induction false} QuotedListRoundTrip(attributes: seq<Attribute>)
    requires GoodNames(attributes)
    ensures Parse(List(attributes, ',', false, QUOTE_MARKS)) == attributes
  {
    ListReadsBack(attributes, ',', false, QUOTE_MARKS);
    CommaKeepsPairs(attributes, false);
  }

  lemma {:induction false} BlankKeepsAll(attributes: seq<Attribute>, separator: char, bareEmpty: bool)
    requires IsSpace(separator)
    ensures Back(attributes, separator, bareEmpty) == attributes
  {
    if |attributes| > 1 {
      BlankKeepsAll(attributes[1..], separator, bareEmpty);
      assert attributes == [attributes[0]] + attributes[1..];
    }
  }

  /** Exactly when what HttpComposeAttributes writes is read back. */
  lemma ComposeRoundTripIff(attributes: seq<Attribute>, separator: char)
    requires GoodNames(attributes)
    ensures Parse(List(attributes, separator, true, ESCAPE_MARKS)) == attributes <==>
              |attributes| <= 1 || IsSpace(separator) || (separator == ',' && NoneBare(attributes))
  {
    ListReadsBack(attributes, separator, true, ESCAPE_MARKS);
    if IsSpace(separator) {
      BlankKeepsAll(attributes, separator, true);
    } else if separator == ',' {
      CommaKeepsPairs(attributes, true);
    } else if |attributes| > 1 {
      var back := Back(attributes, separator, true);
      assert back[0] != attributes[0] || |back| > |attributes|;
    }
  }

  /** "a, b=..." comes back with the comma in the first name. */
  lemma BareNameSwallowsComma(value: string)
    requires value != ""
    ensures var list := [Attribute("a", ""), Attribute("b", value)];
      Parse(List(list, ',', true, ESCAPE_MARKS)) == [Attribute("a,", ""), Attribute("b", value)] != list
  {
    hide Parse, List;
    var list := [Attribute("a", ""), Attribute("b", value)];
    ListReadsBack(list, ',', true, ESCAPE_MARKS);
    assert list[1..] == [Attribute("b", value)];
    assert "a" + [','] == "a,";
  }

  // ---- Other ways of writing ---------------------------------------------

  /** What needs no quotes. */
  predicate PlainValue(v: string) {
    && v != "" && v[0] !in {'"', '='}
    && forall i :: 0 <= i < |v| ==> !IsSpace(v[i]) && v[i] != ','
  }

  lemma {:induction false} PlainText(v: string, rest: string)
    requires forall i :: 0 <= i < |v| ==> !IsSpace(v[i]) && v[i] != ','
    requires rest == "" || IsSpace(rest[0]) || rest[0] == ','
    ensures Plain(v + rest) == v
  {
    if v == "" {
      assert v + rest == rest;
    } else {
      PlainText(v[1..], rest);
      assert (v + rest)[1..] == v[1..] + rest;
    }
  }

  lemma ValueEndsName(v: string, rest: string)
    requires PlainValue(v)
    ensures EndsName("=" + (v + rest))
  {
    hide IsSpace;
    assert ("=" + (v + rest))[1] == v[0];
  }

  lemma PlainIsValue(v: string, rest: string)
    requires v != "" && v[0] != '"' && Plain(v + rest) == v
    ensures Value("=" + (v + rest)) == (v, rest)
  {
    hide Plain, Quoted;
    var text := "=" + (v + rest);
    assert text[1..] == v + rest && text[1] == v[0] && text[1 + |v|..] == rest;
  }

  lemma NameAndValue(name: string, text: string)
    requires GoodName(name) && Name(name + text) == name
    ensures var (value, rest) := Value(text); ParseOne(name + text) == (Attribute(name, value), AfterComma(rest))
  {
    hide Name, Value, AfterComma, IsSpace;
    assert (name + text)[|name|..] == text;
  }

  /** A name and its value without quotes. */
  lemma PlainReadsBack(a: Attribute, rest: string)
    requires GoodName(a.name) && PlainValue(a.value) && (rest == "" || IsSpace(rest[0]) || rest[0] == ',')
    ensures ParseOne(a.name + "=" + a.value + rest) == (a, AfterComma(rest))
  {
    hide Plain, Name, AfterComma, EndsName, IsSpace, ParseOne, Value;
    var text := "=" + (a.value + rest);
    assert a.name + "=" + a.value + rest == a.name + text;
    ValueEndsName(a.value, rest);
    NameReadsBack(a.name, text);
    PlainText(a.value, rest);
    PlainIsValue(a.value, rest);
    NameAndValue(a.name, text);
  }

  function PlainEntry(a: Attribute): string { a.name + "=" + a.value }

  function PlainList(attributes: seq<Attribute>): string {
    if attributes == [] then ""
    else if |attributes| == 1 then PlainEntry(attributes[0])
    else PlainEntry(attributes[0]) + ([',', ' '] + PlainList(attributes[1..]))
  }

  lemma PlainStep(a: Attribute, tail: string)
    requires GoodName(a.name) && PlainValue(a.value) && (tail == "" || tail[0] == ',')
    ensures Parse(PlainEntry(a) + tail) == [a] + Parse(AfterComma(tail))
  {
    hide Parse, ParseOne, IsSpace, PlainValue, AfterComma;
    PlainReadsBack(a, tail);
    var text := PlainEntry(a) + tail;
    assert text[0] == a.name[0];
    ParseStep(a, text, AfterComma(tail));
  }

  lemma AppendNothing(s: string)
    ensures s + "" == s && "" + s == s
  {
  }

  lemma PlainLast(a: Attribute)
    requires GoodName(a.name) && PlainValue(a.value)
    ensures Parse(PlainEntry(a)) == [a]
  {
    hide Parse, PlainEntry, PlainValue, GoodName;
    PlainStep(a, "");
    NothingParsed();
    AppendNothing(PlainEntry(a));
  }

  /** name=value joined by ", " comes back as it was, for values that need no quotes. */
  lemma {:induction false} PlainListRoundTrip(attributes: seq<Attribute>)
    requires forall a :: a in attributes ==> GoodName(a.name) && PlainValue(a.value)
    ensures Parse(PlainList(attributes)) == attributes
  {
    hide Parse, PlainEntry, PlainValue, GoodName, AfterComma;
    if attributes == [] {
      NothingParsed();
    } else if |attributes| == 1 {
      PlainLast(attributes[0]);
    } else {
      var a, rest := attributes[0], attributes[1..];
      assert a in attributes && attributes == [a] + rest;
      PlainListRoundTrip(rest);
      PlainStep(a, [',', ' '] + PlainList(rest));
      SeparatorReadsBack(',', PlainList(rest));
      assert [] + Parse(PlainList(rest)) == Parse(PlainList(rest));
    }
  }

  lemma {:induction false} EqualsInName(name: string, equals: string, rest: string)
    requires (name == "" || GoodName(name)) && equals in {"=", "=="} && (rest == "" || IsSpace(rest[0]))
    ensures Name(name + equals + rest) == name + equals
    decreases |name| + |equals|
  {
    hide IsSpace;
    var s := name + equals + rest;
    if name == "" {
      if equals == "==" { EqualsInName("", "=", rest); }
      assert s[1..] == (if equals == "==" then "" + "=" + rest else rest);
      assert Name(rest) == "";
    } else {
      EqualsInName(name[1..], equals, rest);
      assert s[1..] == name[1..] + equals + rest;
    }
  }

  /** Equal signs at the end of a token belong to it. */
  lemma TrailingEquals(name: string, equals: string, rest: string)
    requires GoodName(name) && equals in {"=", "=="} && (rest == "" || IsSpace(rest[0]))
    ensures ParseOne(name + equals + rest) == (Attribute(name + equals, ""), rest)
  {
    hide Name;
    EqualsInName(name, equals, rest);
    assert (name + equals + rest)[|name + equals|..] == rest;
  }

  /** A quote that is never closed takes everything. */
  lemma {:induction false} UnclosedQuote(s: string)
    requires '"' !in s && '\\' !in s
    ensures Quoted(s) == (s, "")
  {
    if s != "" {
      assert s[0] in s && s == [s[0]] + s[1..];
      UnclosedQuote(s[1..]);
    }
  }

  /** What is escaped: quotes and backslashes by both writers, the zero character by one. */
  lemma MarksMean(c: char)
    ensures EscapedChar(c, QUOTE_MARKS) == if c == '"' then "\\\"" else if c == '\\' then "\\\\" else [c]
    ensures EscapedChar(c, ESCAPE_MARKS) == if c == '\0' then "\\\0" else EscapedChar(c, QUOTE_MARKS)
  {
  }

  // ---- The functions themselves ------------------------------------------

  predicate IsEndOfAttributeName(pos: nat, data: string)
    ensures pos <= |data| ==> (IsEndOfAttributeName(pos, data) <==> EndsName(data[pos..]))
  {
    || pos >= |data|
    || IsSpace(data[pos])
    || (pos + 1 < |data| && data[pos] == '=' && !IsSpace(data[pos + 1]) && data[pos + 1] != '=')
  }

  lemma NameAt(data: string, pos: nat)
    requires pos <= |data|
    ensures Name(data[pos..]) == if EndsName(data[pos..]) then "" else [data[pos]] + Name(data[pos + 1..])
  {
    if pos < |data| { assert data[pos..][1..] == data[pos + 1..]; }
  }

  lemma Regroup(s: string, c: char, t: string)
    ensures s + ([c] + t) == (s + [c]) + t
  {
  }

  method ParseName(data: string, start: nat) returns (name: string, pos: nat)
    requires start <= |data|
    ensures name == Name(data[start..]) && pos == start + |name| <= |data| && EndsName(data[pos..])
  {
    hide Name, EndsName;
    pos := start;
    assert Name(data[start..]) == data[start..pos] + Name(data[pos..]);
    while !IsEndOfAttributeName(pos, data)
      invariant start <= pos <= |data|
      invariant Name(data[start..]) == data[start..pos] + Name(data[pos..])
      decreases |data| - pos
    {
      NameAt(data, pos);
      assert data[start..pos + 1] == data[start..pos] + [data[pos]];
      Regroup(data[start..pos], data[pos], Name(data[pos + 1..]));
      pos := pos + 1;
    }
    NameAt(data, pos);
    name := data[start..pos];
  }

  lemma QuotedAt(data: string, pos: nat)
    requires pos <= |data|
    ensures
      var protected := pos + 1 < |data| && data[pos] == '\\';
      var at := if protected then pos + 1 else pos;
      Quoted(data[pos..]) ==
        if pos == |data| then ("", "") else if data[pos] == '"' then ("", data[pos + 1..])
        else ([data[at]] + Quoted(data[at + 1..]).0, Quoted(data[at + 1..]).1)
  {
    if pos < |data| { assert data[pos..][1..] == data[pos + 1..]; }
    if pos + 1 < |data| { assert data[pos..][2..] == data[pos + 2..]; }
  }

  /** From an opening quote to behind the closing one. */
  method ParseQuoted(data: string, start: nat) returns (value: string, pos: nat)
    requires start < |data| && data[start] == '"'
    ensures pos <= |data| && (value, data[pos..]) == Quoted(data[start + 1..])
  {
    hide Quoted;
    ghost var all := Quoted(data[start + 1..]);
    value, pos := "", start + 1;
    AppendNothing(all.0);
    while pos < |data|
      invariant start < pos <= |data|
      invariant all.0 == value + Quoted(data[pos..]).0 && all.1 == Quoted(data[pos..]).1
      decreases |data| - pos
    {
      QuotedAt(data, pos);
      if data[pos] == '"' {
        AppendNothing(value);
        return value, pos + 1;
      }
      if data[pos] == '\\' && pos + 1 < |data| { pos := pos + 1; }
      Regroup(value, data[pos], Quoted(data[pos + 1..]).0);
      value := value + [data[pos]];
      pos := pos + 1;
    }
    QuotedAt(data, pos);
    AppendNothing(value);
  }

  lemma PlainAt(data: string, pos: nat)
    requires pos <= |data|
    ensures Plain(data[pos..]) ==
      if pos == |data| || IsSpace(data[pos]) || data[pos] == ',' then "" else [data[pos]] + Plain(data[pos + 1..])
  {
    if pos < |data| { assert data[pos..][1..] == data[pos + 1..]; }
  }

  method ParsePlain(data: string, start: nat) returns (value: string, pos: nat)
    requires start <= |data|
    ensures pos == start + |value| <= |data| && value == Plain(data[start..])
  {
    hide Plain;
    value, pos := "", start;
    AppendNothing(Plain(data[start..]));
    while pos < |data| && !IsSpace(data[pos]) && data[pos] != ','
      invariant pos == start + |value| <= |data|
      invariant Plain(data[start..]) == value + Plain(data[pos..])
    {
      PlainAt(data, pos);
      Regroup(value, data[pos], Plain(data[pos + 1..]));
      value := value + [data[pos]];
      pos := pos + 1;
    }
    PlainAt(data, pos);
    AppendNothing(value);
  }

  method ParseValue(data: string, start: nat) returns (value: string, pos: nat)
    requires start <= |data|
    ensures pos <= |data| && (value, data[pos..]) == Value(data[start..])
  {
    hide Quoted, Plain, IsSpace, EndsName;
    value, pos := "", start;
    if pos < |data| && data[pos] == '=' {
      pos := pos + 1;
      assert data[start..][1..] == data[pos..];
      if pos < |data| && data[pos] == '"' {
        assert data[start..][2..] == data[pos + 1..];
        value, pos := ParseQuoted(data, pos);
      } else {
        value, pos := ParsePlain(data, pos);
        assert data[start..][1 + |value|..] == data[pos..];
      }
    }
  }

  /** One round of the loop below, from the first character of a name. */
  method ParseAttribute(data: string, start: nat) returns (attribute: Attribute, pos: nat)
    requires start < |data| && !IsSpace(data[start])
    ensures start < pos <= |data| && (attribute, data[pos..]) == ParseOne(data[start..])
  {
    hide Name, Value, EndsName, IsSpace;
    var name, value;
    name, pos := ParseName(data, start);
    assert data[start..][|name|..] == data[pos..];
    value, pos := ParseValue(data, pos);
    attribute := Attribute(name, value);
    if pos < |data| && data[pos] == ',' {
      assert data[pos..][1..] == data[pos + 1..];
      pos := pos + 1;
    }
    assert |data[pos..]| < |data[start..]|;
  }

  method HttpParseAttributes(data: string) returns (attributes: seq<Attribute>)
    ensures attributes == Parse(data)
  {
    hide ParseOne;
    attributes := [];
    var pos := 0;
    assert data[0..] == data;
    while true
      invariant pos <= |data|
      invariant Parse(data) == attributes + Parse(data[pos..])
      decreases |data| - pos
    {
      while pos < |data| && IsSpace(data[pos])
        invariant pos <= |data|
        invariant Parse(data) == attributes + Parse(data[pos..])
      {
        assert data[pos..] == [data[pos]] + data[pos + 1..];
        ParseSkips(data[pos], data[pos + 1..]);
        pos := pos + 1;
      }
      if pos >= |data| {
        assert data[pos..] == "";
        return;
      }
      var attribute, next := ParseAttribute(data, pos);
      ParseStep(attribute, data[pos..], data[next..]);
      attributes, pos := attributes + [attribute], next;
    }
  }

  method QuoteString(str: string) returns (result: string)
    ensures result == Quote(str, QUOTE_MARKS)
  {
    hide Escaped;
    assert str[..0] == "";
    EscapedNothing(QUOTE_MARKS);
    result := "\"";
    for i := 0 to |str|
      invariant result == "\"" + Escaped(str[..i], QUOTE_MARKS)
    {
      EscapedLonger(str, i, QUOTE_MARKS);
      if str[i] == '"' || str[i] == '\\' { result := result + "\\"; }
      result := result + [str[i]];
    }
    assert str[..|str|] == str;
    result := result + "\"";
  }

  /** Copies one character, with its escape if it is marked and there is room for both. */
  method EscapeOne(buffer: array<char>, bufpos: nat, ch: char, marks: set<char>) returns (next: nat)
    requires bufpos + 1 < buffer.Length
    modifies buffer
    ensures buffer[..bufpos] == old(buffer[..bufpos])
    ensures if bufpos + |EscapedChar(ch, marks)| < buffer.Length
            then next == bufpos + |EscapedChar(ch, marks)|
              && buffer[..next] == buffer[..bufpos] + EscapedChar(ch, marks)
            else next == bufpos
  {
    next := bufpos;
    if ch in marks {
      if bufpos + 2 >= buffer.Length { return; }
      buffer[next] := '\\';
      next := next + 1;
    }
    buffer[next] := ch;
    next := next + 1;
  }

  /** Copies as many characters as fit, with their escapes and a terminating zero. */
  method Escape(buffer: array<char>, source: string, marks: set<char>) returns (bufpos: nat, ghost taken: nat)
    modifies buffer
    ensures bufpos <= buffer.Length && taken <= |source|
    ensures buffer[..bufpos] == Escaped(source[..taken], marks)
    ensures buffer.Length > 0 ==> bufpos < buffer.Length && buffer[bufpos] == '\0'
    ensures taken < |source| ==> |Escaped(source[..taken + 1], marks)| + 1 > buffer.Length
  {
    hide Escaped, EscapedChar;
    bufpos, taken := 0, 0;
    assert source[..0] == "";
    EscapedNothing(marks);
    if buffer.Length == 0 {
      EscapedLonger(source, 0, marks);
      return;
    }
    var srcpos := 0;
    while srcpos < |source| && bufpos + 1 < buffer.Length
      invariant srcpos <= |source| && bufpos < buffer.Length && taken == srcpos
      invariant buffer[..bufpos] == Escaped(source[..srcpos], marks)
    {
      EscapedLonger(source, srcpos, marks);
      var next := EscapeOne(buffer, bufpos, source[srcpos], marks);
      if next == bufpos { break; }
      bufpos, srcpos := next, srcpos + 1;
      taken := srcpos;
    }
    EscapedLonger(source, taken, marks);
    buffer[bufpos] := '\0';
  }

  lemma EscapedLonger(s: string, i: nat, marks: set<char>)
    requires i <= |s|
    ensures i < |s| ==>
      Escaped(s[..i + 1], marks) == Escaped(s[..i], marks) + EscapedChar(s[i], marks)
  {
    if i < |s| {
      assert s[..i + 1] == s[..i] + [s[i]];
      EscapedConcat(s[..i], [s[i]], marks);
    }
  }

  /** The buffer is never too small. */
  method EscapeAttribute(attribute: string) returns (r: string)
    ensures r == Escaped(attribute, ESCAPE_MARKS)
  {
    var buffer := new char[|attribute| * 2 + 1];
    var len, taken := Escape(buffer, attribute, ESCAPE_MARKS);
    assert attribute[..|attribute|] == attribute;
    r := buffer[..len];
  }

  method HttpComposeAttributes(attributes: seq<Attribute>, separator: char) returns (composed: string)
    ensures composed == List(attributes, separator, true, ESCAPE_MARKS)
  {
    hide List, Escaped;
    composed := "";
    NothingListed(separator);
    assert attributes[..0] == [];
    for i := 0 to |attributes|
      invariant composed == List(attributes[..i], separator, true, ESCAPE_MARKS)
    {
      ListLonger(attributes, i, separator);
      var entry := attributes[i].name;
      if attributes[i].value != "" {
        var escaped := EscapeAttribute(attributes[i].value);
        entry := entry + "=" + ("\"" + escaped + "\"");
      }
      if i > 0 { composed := composed + [separator, ' ']; }
      composed := composed + entry;
    }
    assert attributes[..|attributes|] == attributes;
  }

  lemma NothingListed(separator: char)
    ensures List([], separator, true, ESCAPE_MARKS) == ""
  {
  }

  lemma {:induction false} ListLonger(attributes: seq<Attribute>, i: nat, separator: char)
    requires i < |attributes|
    ensures List(attributes[..i + 1], separator, true, ESCAPE_MARKS)
         == List(attributes[..i], separator, true, ESCAPE_MARKS) + (if i > 0 then [separator, ' '] else "")
            + Entry(attributes[i], true, ESCAPE_MARKS)
  {
    if i > 0 {
      ListLonger(attributes[1..], i - 1, separator);
      assert attributes[..i + 1][1..] == attributes[1..][..i];
      assert attributes[..i][1..] == attributes[1..][..i - 1];
    }
  }
}
