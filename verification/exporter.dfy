/**
 The exporters: a recursive walk over the mind-map's XML tree that emits
 paragraphs, headings and numbered requirement lines. The three exporters
 share the walk and differ only in how a heading is written, so one walk
 takes a `Variant` that selects the heading style. The requirement-number
 store is threaded through the walk.
 */
module Exporter {
  import opened Decimal
  import opened ReqIdMapper

  /** An XML element: its tag, its attributes and its child elements in document order. */
  datatype Element = Element(tag: string, attrib: map<string, string>, children: seq<Element>)

  /** The plain-text, Markdown and wiki exporters. */
  datatype Variant = Plain | Markdown | Wiki

  /** The attribute `name` is present and holds exactly `true`. */
  predicate Flag(e: Element, name: string) {
    name in e.attrib && e.attrib[name] == "true"
  }

  /** A `font` child whose `BOLD` flag is set: it makes its parent a heading. */
  predicate IsBold(c: Element) {
    c.tag == "font" && Flag(c, "BOLD")
  }

  /** A `font` child whose `ITALIC` flag is set and whose `BOLD` flag is not: it makes its parent a requirement. */
  predicate IsItalic(c: Element) {
    c.tag == "font" && !Flag(c, "BOLD") && Flag(c, "ITALIC")
  }

  predicate IsNode(c: Element) {
    c.tag == "node"
  }

  function Repeat(c: char, n: nat): (s: string)
    ensures |s| == n
    ensures forall i :: 0 <= i < n ==> s[i] == c
  {
    if n == 0 then "" else [c] + Repeat(c, n - 1)
  }

  /**
   `printHeading` of the exporter `v`: every exporter ends the line with the
   text and a blank line, and only the plain-text one writes no level marker
   before it.
   */
  function Heading(v: Variant, text: string, depth: nat): (r: string)
    ensures |r| >= |text| + 2 && r[|r| - |text| - 2..] == text + "\n\n"
    ensures v == Plain <==> |r| == |text| + 2
  {
    var marker := match v
      case Plain => ""
      case Markdown => Repeat('#', depth + 1) + " "
      case Wiki => "h" + NatToString(depth + 1) + ". ";
    assert v != Plain ==> |marker| > 0;
    var r := marker + (text + "\n\n");
    assert r[|r| - |text| - 2..] == text + "\n\n";
    r
  }

  /** What can be read back from a heading line: its level and its text. */
  datatype HeadingLine = NotAHeading | HeadingLine(level: nat, text: string)

  /** Splits `s` into its longest prefix made only of `c` and the rest. */
  function SplitRun(c: char, s: string): (r: (string, string))
    ensures r.0 + r.1 == s
    ensures forall i :: 0 <= i < |r.0| ==> r.0[i] == c
    ensures |r.1| > 0 ==> r.1[0] != c
  {
    if |s| > 0 && s[0] == c then
      var (run, rest) := SplitRun(c, s[1..]);
      ([c] + run, rest)
    else ("", s)
  }

  /** Splits `s` into its longest all-digit prefix and the rest. */
  function SplitDigits(s: string): (r: (string, string))
    ensures r.0 + r.1 == s
    ensures AllDigits(r.0)
    ensures |r.1| > 0 ==> !IsDigit(r.1[0])
  {
    if |s| > 0 && IsDigit(s[0]) then
      var (digits, rest) := SplitDigits(s[1..]);
      ([s[0]] + digits, rest)
    else ("", s)
  }

  /** `rest` is `sep`, then some text, then the closing blank line. */
  predicate Framed(sep: string, rest: string) {
    |rest| >= |sep| + 2 && rest[..|sep|] == sep && rest[|rest| - 2..] == "\n\n"
  }

  function Unframe(sep: string, rest: string): string
    requires Framed(sep, rest)
  {
    rest[|sep|..|rest| - 2]
  }

  /**
   Reads a heading line back: Markdown writes the level as a run of `#`
   followed by a space, the wiki dialect as `h<level>. ` with the level in
   decimal without leading zeros, as `%i` writes it; both end the line with a
   blank line. A plain-text heading carries no level.
   */
  function ParseHeading(v: Variant, s: string): HeadingLine {
    match v
    case Plain => NotAHeading
    case Markdown =>
      var (hashes, rest) := SplitRun('#', s);
      if |hashes| > 0 && Framed(" ", rest) then HeadingLine(|hashes|, Unframe(" ", rest))
      else NotAHeading
    case Wiki =>
      if |s| > 0 && s[0] == 'h' then
        var (digits, rest) := SplitDigits(s[1..]);
        if Canonical(digits) && Framed(". ", rest) then HeadingLine(DigitsValue(digits), Unframe(". ", rest))
        else NotAHeading
      else NotAHeading
  }

  lemma {:induction false} SplitRunOfConcat(c: char, run: string, rest: string)
    requires forall i :: 0 <= i < |run| ==> run[i] == c
    requires |rest| > 0 && rest[0] != c
    ensures SplitRun(c, run + rest) == (run, rest)
    decreases |run|
  {
    if |run| > 0 {
      assert (run + rest)[1..] == run[1..] + rest;
      SplitRunOfConcat(c, run[1..], rest);
      assert run == [c] + run[1..];
    } else {
      assert run + rest == rest;
    }
  }

  lemma {:induction false} SplitDigitsOfConcat(digits: string, rest: string)
    requires AllDigits(digits)
    requires |rest| > 0 && !IsDigit(rest[0])
    ensures SplitDigits(digits + rest) == (digits, rest)
    decreases |digits|
  {
    if |digits| > 0 {
      assert (digits + rest)[1..] == digits[1..] + rest;
      SplitDigitsOfConcat(digits[1..], rest);
      assert digits == [digits[0]] + digits[1..];
    } else {
      assert digits + rest == rest;
    }
  }

  lemma FramedText(sep: string, text: string)
    ensures Framed(sep, sep + text + "\n\n")
    ensures Unframe(sep, sep + text + "\n\n") == text
  {
    var rest := sep + text + "\n\n";
    assert rest[..|sep|] == sep;
    assert rest[|rest| - 2..] == "\n\n";
    assert rest[|sep|..|rest| - 2] == text;
  }

  /**
   A Markdown or wiki heading records the level depth + 1 (unclamped, even
   past Markdown's six levels) and the text, both recoverable from the line.
   */
  lemma HeadingRoundTrip(v: Variant, text: string, depth: nat)
    requires v != Plain
    ensures ParseHeading(v, Heading(v, text, depth)) == HeadingLine(depth + 1, text)
  {
    if v == Markdown {
      MarkdownRoundTrip(text, depth);
    } else {
      WikiRoundTrip(text, depth);
    }
  }

  /**
   The reader accepts exactly the lines the writer produces: a line reads back
   as level depth + 1 with some text if and only if it is the heading of that
   text at that depth, so no other spelling of the marker is taken for it.
   */
  lemma HeadingLineExact(v: Variant, s: string, text: string, depth: nat)
    requires v != Plain
    ensures ParseHeading(v, s) == HeadingLine(depth + 1, text) <==> s == Heading(v, text, depth)
  {
    HeadingRoundTrip(v, text, depth);
    if ParseHeading(v, s) == HeadingLine(depth + 1, text) {
      if v == Markdown {
        MarkdownReadBackExact(s, text, depth);
      } else {
        WikiReadBackExact(s, text, depth);
      }
    }
  }

  /** A line the Markdown reader takes for level depth + 1 is that heading. */
  lemma MarkdownReadBackExact(s: string, text: string, depth: nat)
    requires ParseHeading(Markdown, s) == HeadingLine(depth + 1, text)
    ensures s == Heading(Markdown, text, depth)
  {
    var (hashes, rest) := SplitRun('#', s);
    assert |hashes| == depth + 1 && Framed(" ", rest) && Unframe(" ", rest) == text;
    assert hashes == Repeat('#', depth + 1);
    assert rest == " " + text + "\n\n" by {
      assert rest == rest[..1] + rest[1..|rest| - 2] + rest[|rest| - 2..];
    }
    assert s == Repeat('#', depth + 1) + " " + (text + "\n\n");
  }

  /** A line the wiki reader takes for level depth + 1 is that heading. */
  lemma WikiReadBackExact(s: string, text: string, depth: nat)
    requires ParseHeading(Wiki, s) == HeadingLine(depth + 1, text)
    ensures s == Heading(Wiki, text, depth)
  {
    var (digits, rest) := SplitDigits(s[1..]);
    assert Canonical(digits) && DigitsValue(digits) == depth + 1;
    assert Framed(". ", rest) && Unframe(". ", rest) == text;
    NatToStringOfDigitsValue(digits);
    assert rest == ". " + text + "\n\n" by {
      assert rest == rest[..2] + rest[2..|rest| - 2] + rest[|rest| - 2..];
    }
    assert s == "h" + NatToString(depth + 1) + ". " + (text + "\n\n") by {
      assert s == [s[0]] + s[1..];
    }
  }

  /** The `#` run of a Markdown heading is exactly depth + 1 long. */
  lemma MarkdownRoundTrip(text: string, depth: nat)
    ensures ParseHeading(Markdown, Heading(Markdown, text, depth)) == HeadingLine(depth + 1, text)
  {
    var rest := " " + text + "\n\n";
    assert Heading(Markdown, text, depth) == Repeat('#', depth + 1) + rest;
    SplitRunOfConcat('#', Repeat('#', depth + 1), rest);
    FramedText(" ", text);
  }

  /** The digits after `h` in a wiki heading denote depth + 1. */
  lemma WikiRoundTrip(text: string, depth: nat)
    ensures ParseHeading(Wiki, Heading(Wiki, text, depth)) == HeadingLine(depth + 1, text)
  {
    var ds := NatToString(depth + 1);
    var rest := ". " + text + "\n\n";
    var s := Heading(Wiki, text, depth);
    assert s[1..] == ds + rest by {
      assert s == "h" + (ds + rest);
    }
    SplitDigitsOfConcat(ds, rest);
    FramedText(". ", text);
    DigitsValueOfNatToString(depth + 1);
  }

  /**
   `printRequirement`, the same for every exporter: the word `Requirement `,
   the number in decimal, then `: `, the text and a blank line.
   */
  function Requirement(text: string, identifier: int): (r: string)
    ensures |r| == 12 + |IntToString(identifier)| + |text| + 4
    ensures r[..12] == "Requirement "
    ensures r[12 + |IntToString(identifier)|..] == ": " + text + "\n\n"
  {
    var num := IntToString(identifier);
    var rest := ": " + text + "\n\n";
    var r := "Requirement " + (num + rest);
    assert r[12 + |num|..] == rest;
    r
  }

  /**
   The number of a requirement line can be read back: after `Requirement `
   come its decimal digits, preceded by a minus sign when it is negative.
   */
  lemma RequirementReadBack(text: string, identifier: int)
    ensures var r := Requirement(text, identifier);
      && (identifier >= 0 ==> IsDigit(r[12]) && DigitsValue(SplitDigits(r[12..]).0) == identifier)
      && (identifier < 0 ==> r[12] == '-' && DigitsValue(SplitDigits(r[13..]).0) == -identifier)
  {
    var r := Requirement(text, identifier);
    var line := IntToString(identifier) + (": " + text + "\n\n");
    assert r[12..] == line by {
      assert r == "Requirement " + line;
      DropPrefix("Requirement ", line);
    }
    NumberReadBack(identifier, ": " + text + "\n\n");
    if identifier < 0 {
      assert r[13..] == line[1..];
    }
  }

  lemma DropPrefix(p: string, q: string)
    ensures (p + q)[|p|..] == q
  {
  }

  /** The number written before a non-digit is read back by `SplitDigits`. */
  lemma NumberReadBack(identifier: int, rest: string)
    requires |rest| > 0 && !IsDigit(rest[0]) && rest[0] != '-'
    ensures var s := IntToString(identifier) + rest;
      && (identifier >= 0 ==> IsDigit(s[0]) && DigitsValue(SplitDigits(s).0) == identifier)
      && (identifier < 0 ==> s[0] == '-' && DigitsValue(SplitDigits(s[1..]).0) == -identifier)
  {
    var num := IntToString(identifier);
    if identifier >= 0 {
      SplitDigitsOfConcat(num, rest);
    } else {
      var digits := NatToString(-identifier);
      assert (num + rest)[1..] == digits + rest;
      SplitDigitsOfConcat(digits, rest);
    }
  }

  /** A requirement line determines both its number and its text. */
  lemma RequirementInjective(t1: string, a: int, t2: string, b: int)
    requires Requirement(t1, a) == Requirement(t2, b)
    ensures a == b && t1 == t2
  {
    var rest1 := ": " + t1 + "\n\n";
    var rest2 := ": " + t2 + "\n\n";
    RequirementReadBack(t1, a);
    RequirementReadBack(t2, b);
    assert a == b;
    assert rest1 == rest2;
    assert t1 == rest1[2..|rest1| - 2];
    assert t2 == rest2[2..|rest2| - 2];
  }

  /**
   What the walk needs of one child of a parent with attributes `attrib`:
   `TEXT` when the child is a bold font, a node or (with `ID`) an italic font,
   and a renderable child when it is a node.
   */
  predicate ChildReady(attrib: map<string, string>, c: Element)
    decreases c, 1
  {
    && (IsBold(c) ==> "TEXT" in attrib)
    && (IsItalic(c) ==> "TEXT" in attrib && "ID" in attrib)
    && (IsNode(c) ==> "TEXT" in attrib && Renderable(c))
  }

  /**
   The walk reads `TEXT` of a leaf, and reads attributes of an element only
   as its children demand; a missing attribute there is a `KeyError`.
   */
  predicate Renderable(e: Element)
    decreases e, 0
  {
    && (|e.children| == 0 ==> "TEXT" in e.attrib)
    && forall i :: 0 <= i < |e.children| ==> ChildReady(e.attrib, e.children[i])
  }

  /**
   `printElement(elt, depth)`: the rendered text and the store after every
   requirement number the walk asked for.
   */
  function Render(v: Variant, e: Element, depth: nat, m: Mapper): (r: (string, Mapper))
    requires Renderable(e)
    ensures |e.children| == 0 ==> r == (e.attrib["TEXT"] + "\n\n", m)
    ensures Extends(m, r.1)
    ensures Valid(m) ==> Valid(r.1)
    ensures Valid(m) && Injective(m) ==> Injective(r.1)
    decreases e, 2
  {
    if |e.children| == 0 then (e.attrib["TEXT"] + "\n\n", m)
    else
      var (s, _, m') := RenderChildren(v, e, 0, depth, false, m);
      (s, m')
  }

  /**
   The loop over `elt`'s children from index `i` on, with the current
   `headingDone` flag: the text emitted, the final flag and the store.
   */
  function RenderChildren(v: Variant, e: Element, i: nat, depth: nat, headingDone: bool, m: Mapper)
    : (r: (string, bool, Mapper))
    requires Renderable(e) && i <= |e.children|
    ensures headingDone ==> r.1
    ensures Extends(m, r.2)
    ensures Valid(m) ==> Valid(r.2)
    ensures Valid(m) && Injective(m) ==> Injective(r.2)
    decreases e, 1, |e.children| - i
  {
    if i == |e.children| then ("", headingDone, m)
    else
      var (s, hd, m1) := RenderChild(v, e.attrib, e.children[i], depth, headingDone, m);
      var (rest, hd', m2) := RenderChildren(v, e, i + 1, depth, hd, m1);
      (s + rest, hd', m2)
  }

  /** One iteration of the loop, for the child `c` of a parent with attributes `attrib`. */
  function RenderChild(v: Variant, attrib: map<string, string>, c: Element, depth: nat, headingDone: bool, m: Mapper)
    : (r: (string, bool, Mapper))
    requires ChildReady(attrib, c)
    ensures r.1 == (headingDone || IsBold(c) || IsNode(c))
    ensures !IsItalic(c) && !IsNode(c) ==> r.2 == m
    ensures Extends(m, r.2)
    ensures Valid(m) ==> Valid(r.2)
    ensures Valid(m) && Injective(m) ==> Injective(r.2)
    decreases c, 3
  {
    if c.tag == "font" then
      if Flag(c, "BOLD") then (Heading(v, attrib["TEXT"], depth), true, m)
      else if Flag(c, "ITALIC") then
        GetIdPreservesValid(m, attrib["ID"]);
        GetIdPreservesInjective(m, attrib["ID"]);
        var (id, m') := GetId(m, attrib["ID"]);
        (Requirement(attrib["TEXT"], id), headingDone, m')
      else ("", headingDone, m)
    else if c.tag == "node" then
      var paragraph := if !headingDone then attrib["TEXT"] + "\n\n" else "";
      var (sub, m') := Render(v, c, depth + 1, m);
      (paragraph + sub, true, m')
    else ("", headingDone, m)
  }

  /**
   An element none of whose children is a flagged font or a node renders to
   nothing at all, not even its own text, and asks for no number.
   */
  lemma SilentChildren(v: Variant, e: Element, depth: nat, m: Mapper)
    requires Renderable(e) && |e.children| > 0
    requires forall i :: 0 <= i < |e.children| ==> !IsBold(e.children[i]) && !IsItalic(e.children[i]) && !IsNode(e.children[i])
    ensures Render(v, e, depth, m) == ("", m)
  {
    SilentChildrenFrom(v, e, 0, depth, false, m);
  }

  lemma {:induction false} SilentChildrenFrom(v: Variant, e: Element, i: nat, depth: nat, headingDone: bool, m: Mapper)
    requires Renderable(e) && i <= |e.children|
    requires forall j :: i <= j < |e.children| ==> !IsBold(e.children[j]) && !IsItalic(e.children[j]) && !IsNode(e.children[j])
    ensures RenderChildren(v, e, i, depth, headingDone, m) == ("", headingDone, m)
    decreases |e.children| - i
  {
    if i < |e.children| {
      assert RenderChild(v, e.attrib, e.children[i], depth, headingDone, m) == ("", headingDone, m);
      SilentChildrenFrom(v, e, i + 1, depth, headingDone, m);
      assert "" + "" == "";
    }
  }

  /** A bold font child makes its parent a heading, written per exporter; here at depth 2. */
  lemma HeadingExample(text: string, m: Mapper)
    ensures var e := Element("node", map["TEXT" := text], [Element("font", map["BOLD" := "true"], [])]);
      && Render(Markdown, e, 2, m) == ("### " + text + "\n\n", m)
      && Render(Wiki, e, 2, m) == ("h3. " + text + "\n\n", m)
      && Render(Plain, e, 2, m) == (text + "\n\n", m)
  {
    var f := Element("font", map["BOLD" := "true"], []);
    var attrib := map["TEXT" := text];
    assert IsBold(f);
    BoldOnly(Markdown, attrib, f, 2, m);
    BoldOnly(Wiki, attrib, f, 2, m);
    BoldOnly(Plain, attrib, f, 2, m);
    HeadingsAtDepthTwo(text);
  }

  lemma HeadingsAtDepthTwo(text: string)
    ensures Heading(Markdown, text, 2) == "### " + text + "\n\n"
    ensures Heading(Wiki, text, 2) == "h3. " + text + "\n\n"
  {
    assert Repeat('#', 3) == "###";
    assert NatToString(3) == "3";
  }

  /** A node whose only child is a bold font renders to just its heading and asks for no number. */
  lemma BoldOnly(v: Variant, attrib: map<string, string>, f: Element, depth: nat, m: Mapper)
    requires "TEXT" in attrib && IsBold(f)
    ensures Render(v, Element("node", attrib, [f]), depth, m) == (Heading(v, attrib["TEXT"], depth), m)
  {
    var e := Element("node", attrib, [f]);
    var h := Heading(v, attrib["TEXT"], depth);
    assert e.children[0] == f;
    assert RenderChild(v, attrib, f, depth, false, m) == (h, true, m);
    assert RenderChildren(v, e, 1, depth, true, m) == ("", true, m);
    assert h + "" == h;
  }

  /** An italic font child makes its parent a requirement; a fresh store numbers it 2. */
  lemma RequirementExample(v: Variant, text: string, rawId: string)
    ensures var e := Element("node", map["TEXT" := text, "ID" := rawId], [Element("font", map["ITALIC" := "true"], [])]);
      Render(v, e, 0, Empty()) == ("Requirement 2: " + text + "\n\n", Mapper(map[rawId := 2], 2))
  {
    var f := Element("font", map["ITALIC" := "true"], []);
    var e := Element("node", map["TEXT" := text, "ID" := rawId], [f]);
    var m' := Mapper(map[rawId := 2], 2);
    var line := "Requirement 2: " + text + "\n\n";
    FirstRequirementLine(v, e.attrib, f, text, rawId);
    assert RenderChildren(v, e, 1, 0, false, m') == ("", false, m');
    assert line + "" == line;
  }

  lemma FirstRequirementLine(v: Variant, attrib: map<string, string>, f: Element, text: string, rawId: string)
    requires attrib == map["TEXT" := text, "ID" := rawId]
    requires f == Element("font", map["ITALIC" := "true"], [])
    ensures RenderChild(v, attrib, f, 0, false, Empty()) ==
      ("Requirement 2: " + text + "\n\n", false, Mapper(map[rawId := 2], 2))
  {
    assert IsItalic(f);
    ItalicChild(v, attrib, f, 0, false, Empty());
    FirstNumber(rawId);
    RequirementTwo(text);
  }

  lemma FirstNumber(rawId: string)
    ensures GetId(Empty(), rawId) == (2, Mapper(map[rawId := 2], 2))
  {
  }

  lemma RequirementTwo(text: string)
    ensures Requirement(text, 2) == "Requirement 2: " + text + "\n\n"
  {
    assert IntToString(2) == "2";
  }

  /**
   An italic font child (without a bold flag) writes one requirement line for
   the parent's `TEXT`, numbered by `getId` on the parent's `ID`, and leaves
   `headingDone` as it was.
   */
  lemma ItalicChild(v: Variant, attrib: map<string, string>, c: Element, depth: nat, headingDone: bool, m: Mapper)
    requires ChildReady(attrib, c) && IsItalic(c)
    ensures "ID" in attrib && "TEXT" in attrib
    ensures var (id, m') := GetId(m, attrib["ID"]);
      RenderChild(v, attrib, c, depth, headingDone, m) == (Requirement(attrib["TEXT"], id), headingDone, m')
  {
  }

  /**
   An italic font child does not count as a heading: when it is followed by
   a node child, the parent writes its requirement line, then its text as
   the fallback paragraph, then the node one level deeper.
   */
  lemma RequirementThenParagraph(v: Variant, attrib: map<string, string>, f: Element, c: Element, depth: nat, m: Mapper)
    requires "TEXT" in attrib && "ID" in attrib
    requires IsItalic(f) && IsNode(c) && Renderable(c)
    ensures var e := Element("node", attrib, [f, c]);
      var (id, m1) := GetId(m, attrib["ID"]);
      var (sub, m2) := Render(v, c, depth + 1, m1);
      Render(v, e, depth, m) == (Requirement(attrib["TEXT"], id) + (attrib["TEXT"] + "\n\n") + sub, m2)
  {
    var e := Element("node", attrib, [f, c]);
    var (id, m1) := GetId(m, attrib["ID"]);
    var (sub, m2) := Render(v, c, depth + 1, m1);
    var req := Requirement(attrib["TEXT"], id);
    var para := attrib["TEXT"] + "\n\n";
    assert e.children[0] == f && e.children[1] == c;
    assert Renderable(e);
    assert RenderChildren(v, e, 1, depth, false, m1) == (para + sub, true, m2) by {
      NodeChild(v, attrib, c, depth, false, m1);
      assert RenderChildren(v, e, 2, depth, true, m2) == ("", true, m2);
      assert (para + sub) + "" == para + sub;
    }
    assert RenderChildren(v, e, 0, depth, false, m) == (req + (para + sub), true, m2) by {
      ItalicChild(v, attrib, f, depth, false, m);
    }
    assert req + (para + sub) == req + para + sub;
  }

  /**
   A node child writes the parent's `TEXT` as a paragraph unless a heading
   was done, then its own rendering one level deeper, and sets `headingDone`.
   */
  lemma NodeChild(v: Variant, attrib: map<string, string>, c: Element, depth: nat, headingDone: bool, m: Mapper)
    requires "TEXT" in attrib && IsNode(c) && Renderable(c)
    ensures var (sub, m') := Render(v, c, depth + 1, m);
      RenderChild(v, attrib, c, depth, headingDone, m) ==
        ((if headingDone then "" else attrib["TEXT"] + "\n\n") + sub, true, m')
  {
  }
}
