/** `ArticleExtractor.formatContent`: regroups the top-level body children of
    the extracted HTML into heading-delimited Markdown sections. */
module Segmenter {
  import opened Js
  import opened Strings
  import opened Dom

  /** `node.nodeName.match(/^H[1-6]$/)`. */
  predicate IsHeading(n: Node)
  {
    |n.name| == 2 && n.name[0] == 'H' && '1' <= n.name[1] <= '6'
  }

  /** `${node.textContent}` in the heading template: a null renders as "null"; never trimmed. */
  function HeadingText(n: Node): string
  {
    match n.text
    case Some(t) => t
    case None => "null"
  }

  /** `node.textContent?.trim()` is truthy. */
  predicate CarriesText(n: Node)
  {
    n.text.Some? && Trim(n.text.value) != ""
  }

  /** A section as a structured value: its heading (None for the text before the
      first heading) and the trimmed texts appended to it, in document order. */
  datatype Section = Section(heading: Option<string>, paragraphs: seq<string>)

  const NoSection := Section(None, [])

  /** Each paragraph is visible text, trimmed, as `formatContent` appends it. */
  predicate WellFormed(sec: Section)
  {
    forall p :: p in sec.paragraphs ==> p != "" && IsTrimmed(p)
  }

  /** The texts of a section, each followed by a blank line. */
  function Paras(ps: seq<string>): (r: string)
    ensures r == "" <==> ps == []
  {
    if ps == [] then "" else Paras(ps[..|ps| - 1]) + ps[|ps| - 1] + "\n\n"
  }

  /** The `currentSection` buffer that holds a section before it is flushed. */
  function Buffer(sec: Section): string
  {
    (match sec.heading
     case Some(h) => "## " + h + "\n\n"
     case None => "")
    + Paras(sec.paragraphs)
  }

  /** What a flush pushes onto `sections`: the trimmed buffer. */
  function Render(sec: Section): string
  {
    Trim(Buffer(sec))
  }

  /** Each section rendered, in order. */
  function Rendered(secs: seq<Section>): seq<string>
  {
    seq(|secs|, k requires 0 <= k < |secs| => Render(secs[k]))
  }

  /** A buffer is empty (falsy) exactly when nothing has been put in the open section. */
  lemma BufferEmpty(sec: Section)
    ensures Buffer(sec) == "" <==> sec == NoSection
  {
  }

  lemma RenderedAppend(a: seq<Section>, b: seq<Section>)
    ensures Rendered(a + b) == Rendered(a) + Rendered(b)
  {
  }

  /** Flushing the open section: nothing if it is still empty. */
  function Flush(open: Section): seq<Section>
  {
    if open == NoSection then [] else [open]
  }

  /** The sections the rest of the body produces, given the section currently open. */
  function OutlineFrom(open: Section, ns: seq<Node>): seq<Section>
    decreases |ns|
  {
    if ns == [] then Flush(open)
    else if IsHeading(ns[0]) then Flush(open) + OutlineFrom(Section(Some(HeadingText(ns[0])), []), ns[1..])
    else if CarriesText(ns[0]) then
      OutlineFrom(open.(paragraphs := open.paragraphs + [Trim(ns[0].text.value)]), ns[1..])
    else OutlineFrom(open, ns[1..])
  }

  /** The outline of a whole body: the sections `formatContent` emits, in document order. */
  function Outline(ns: seq<Node>): seq<Section>
  {
    OutlineFrom(NoSection, ns)
  }

  /** The content string `formatContent` returns for these body children. */
  function Formatted(ns: seq<Node>): string
  {
    Join(Rendered(Outline(ns)), "\n")
  }

  /** A heading flushes the open section and opens its own. */
  lemma HeadingStep(open: Section, ns: seq<Node>)
    requires ns != [] && IsHeading(ns[0])
    ensures OutlineFrom(open, ns) == Flush(open) + OutlineFrom(Section(Some(HeadingText(ns[0])), []), ns[1..])
  {
  }

  /** Any other child emits nothing; a visible text is appended to the open section. */
  lemma TextStep(open: Section, ns: seq<Node>)
    requires ns != [] && !IsHeading(ns[0])
    ensures CarriesText(ns[0]) ==>
      var next := open.(paragraphs := open.paragraphs + [Trim(ns[0].text.value)]);
      OutlineFrom(open, ns) == OutlineFrom(next, ns[1..])
      && Buffer(next) == Buffer(open) + Trim(ns[0].text.value) + "\n\n"
    ensures !CarriesText(ns[0]) ==> OutlineFrom(open, ns) == OutlineFrom(open, ns[1..])
  {
    if CarriesText(ns[0]) {
      var ps := open.paragraphs + [Trim(ns[0].text.value)];
      assert ps[..|ps| - 1] == open.paragraphs;
    }
  }

  /** Pushing the trimmed buffer when it is truthy renders the flushed section. */
  lemma FlushStep(emitted: seq<Section>, open: Section)
    ensures Rendered(emitted + Flush(open))
         == Rendered(emitted) + (if Buffer(open) != "" then [Trim(Buffer(open))] else [])
  {
    BufferEmpty(open);
    RenderedAppend(emitted, Flush(open));
  }

  /** `formatContent`: one pass over the body children with a `currentSection`
      buffer and a `sections` list; the result is the outline, rendered and
      joined with a single newline. */
  method FormatContent(nodes: seq<Node>) returns (r: string)
    ensures r == Formatted(nodes)
  {
    var sections: seq<string> := [];
    var current := "";
    ghost var emitted: seq<Section> := [];
    ghost var open := NoSection;
    for i := 0 to |nodes|
      invariant current == Buffer(open)
      invariant sections == Rendered(emitted)
      invariant emitted + OutlineFrom(open, nodes[i..]) == Outline(nodes)
    {
      var node := nodes[i];
      assert nodes[i..][0] == node && nodes[i..][1..] == nodes[i + 1..];
      if IsHeading(node) {
        HeadingStep(open, nodes[i..]);
        FlushStep(emitted, open);
        if current != "" {
          sections := sections + [Trim(current)];
        }
        emitted := emitted + Flush(open);
        current := "## " + HeadingText(node) + "\n\n";
        open := Section(Some(HeadingText(node)), []);
      } else {
        TextStep(open, nodes[i..]);
        var text := if node.text.Some? then Trim(node.text.value) else "";
        if text != "" {
          current := current + text + "\n\n";
          open := open.(paragraphs := open.paragraphs + [text]);
        }
      }
    }
    assert nodes[|nodes|..] == [];
    assert emitted + Flush(open) == Outline(nodes);
    FlushStep(emitted, open);
    if current != "" {
      sections := sections + [Trim(current)];
    }
    assert sections == Rendered(Outline(nodes));
    r := Join(sections, "\n");
  }

  // ---------------------------------------------------------------------------
  // The outline, read off the body children directly

  /** The trimmed texts of the non-heading children that carry text, in order. */
  function Paragraphs(ns: seq<Node>): seq<string>
  {
    if ns == [] then []
    else (if !IsHeading(ns[0]) && CarriesText(ns[0]) then [Trim(ns[0].text.value)] else [])
         + Paragraphs(ns[1..])
  }

  /** The texts that come before the first heading. */
  function Leading(ns: seq<Node>): seq<string>
  {
    if ns == [] || IsHeading(ns[0]) then []
    else (if CarriesText(ns[0]) then [Trim(ns[0].text.value)] else []) + Leading(ns[1..])
  }

  /** The heading texts, in document order. */
  function HeadingTexts(ns: seq<Node>): seq<string>
  {
    if ns == [] then []
    else (if IsHeading(ns[0]) then [HeadingText(ns[0])] else []) + HeadingTexts(ns[1..])
  }

  /** The headings of a list of sections, skipping an unheaded one. */
  function Titles(secs: seq<Section>): seq<string>
  {
    if secs == [] then []
    else (if secs[0].heading.Some? then [secs[0].heading.value] else []) + Titles(secs[1..])
  }

  /** All paragraphs of a list of sections, in order. */
  function Flatten(secs: seq<Section>): seq<string>
  {
    if secs == [] then [] else secs[0].paragraphs + Flatten(secs[1..])
  }

  lemma {:induction false} TitlesAppend(a: seq<Section>, b: seq<Section>)
    ensures Titles(a + b) == Titles(a) + Titles(b)
  {
    if a != [] {
      assert (a + b)[0] == a[0] && (a + b)[1..] == a[1..] + b;
      TitlesAppend(a[1..], b);
    } else {
      assert a + b == b;
    }
  }

  lemma {:induction false} FlattenAppend(a: seq<Section>, b: seq<Section>)
    ensures Flatten(a + b) == Flatten(a) + Flatten(b)
  {
    if a != [] {
      assert (a + b)[0] == a[0] && (a + b)[1..] == a[1..] + b;
      FlattenAppend(a[1..], b);
    } else {
      assert a + b == b;
    }
  }

  /** One section per heading, plus one for the open section if it already
      holds something or text precedes the first heading. */
  lemma {:induction false} OutlineFromCount(open: Section, ns: seq<Node>)
    requires open.heading.None? ==> open.paragraphs == []
    ensures |OutlineFrom(open, ns)| == |HeadingTexts(ns)| + (if open != NoSection || Leading(ns) != [] then 1 else 0)
    decreases |ns|
  {
    if ns != [] {
      var n := ns[0];
      if IsHeading(n) {
        OutlineFromCount(Section(Some(HeadingText(n)), []), ns[1..]);
      } else if CarriesText(n) {
        var next := open.(paragraphs := open.paragraphs + [Trim(n.text.value)]);
        if open.heading.Some? {
          OutlineFromCount(next, ns[1..]);
        } else {
          OutlineFromCountUnheaded(next.paragraphs, ns[1..]);
        }
      } else {
        OutlineFromCount(open, ns[1..]);
      }
    }
  }

  /** Once the unheaded preamble holds text it is emitted, followed by one section per heading. */
  lemma {:induction false} OutlineFromCountUnheaded(ps: seq<string>, ns: seq<Node>)
    requires ps != []
    ensures |OutlineFrom(Section(None, ps), ns)| == |HeadingTexts(ns)| + 1
    decreases |ns|
  {
    if ns != [] {
      var n := ns[0];
      if IsHeading(n) {
        OutlineFromCount(Section(Some(HeadingText(n)), []), ns[1..]);
      } else if CarriesText(n) {
        OutlineFromCountUnheaded(ps + [Trim(n.text.value)], ns[1..]);
      } else {
        OutlineFromCountUnheaded(ps, ns[1..]);
      }
    }
  }

  /** The sections carry the headings of the body, all of them and in order. */
  lemma {:induction false} OutlineFromTitles(open: Section, ns: seq<Node>)
    ensures Titles(OutlineFrom(open, ns)) == Titles(Flush(open)) + HeadingTexts(ns)
    decreases |ns|
  {
    if ns == [] {
    } else {
      var n := ns[0];
      if IsHeading(n) {
        var next := Section(Some(HeadingText(n)), []);
        OutlineFromTitles(next, ns[1..]);
        TitlesAppend(Flush(open), OutlineFrom(next, ns[1..]));
        assert Titles(Flush(next)) == [HeadingText(n)];
      } else if CarriesText(n) {
        var next := open.(paragraphs := open.paragraphs + [Trim(n.text.value)]);
        OutlineFromTitles(next, ns[1..]);
        assert Titles(Flush(next)) == Titles(Flush(open));
      } else {
        OutlineFromTitles(open, ns[1..]);
      }
    }
  }

  /** Every text that carries something ends up in exactly one section, in order. */
  lemma {:induction false} OutlineFromParagraphs(open: Section, ns: seq<Node>)
    ensures Flatten(OutlineFrom(open, ns)) == open.paragraphs + Paragraphs(ns)
    decreases |ns|
  {
    if ns == [] {
    } else {
      var n := ns[0];
      if IsHeading(n) {
        var next := Section(Some(HeadingText(n)), []);
        OutlineFromParagraphs(next, ns[1..]);
        FlattenAppend(Flush(open), OutlineFrom(next, ns[1..]));
      } else if CarriesText(n) {
        var next := open.(paragraphs := open.paragraphs + [Trim(n.text.value)]);
        OutlineFromParagraphs(next, ns[1..]);
      } else {
        OutlineFromParagraphs(open, ns[1..]);
      }
    }
  }

  /** Every emitted section holds something, only the first can lack a heading,
      and its paragraphs are visible trimmed texts. */
  lemma {:induction false} OutlineFromShape(open: Section, ns: seq<Node>)
    requires WellFormed(open)
    ensures forall k :: 0 <= k < |OutlineFrom(open, ns)| ==>
      OutlineFrom(open, ns)[k] != NoSection && WellFormed(OutlineFrom(open, ns)[k])
    ensures forall k :: 0 < k < |OutlineFrom(open, ns)| ==> OutlineFrom(open, ns)[k].heading.Some?
    ensures |OutlineFrom(open, ns)| > 0 && OutlineFrom(open, ns)[0].heading.None? ==> open.heading.None?
    decreases |ns|
  {
    if ns != [] {
      var n := ns[0];
      if IsHeading(n) {
        var next := Section(Some(HeadingText(n)), []);
        OutlineFromShape(next, ns[1..]);
      } else if CarriesText(n) {
        var t := Trim(n.text.value);
        TrimShape(n.text.value);
        var next := open.(paragraphs := open.paragraphs + [t]);
        OutlineFromShape(next, ns[1..]);
      } else {
        OutlineFromShape(open, ns[1..]);
      }
    }
  }

  /** The unheaded first section exists exactly when text precedes the first heading. */
  lemma {:induction false} OutlineFromPreamble(open: Section, ns: seq<Node>)
    requires open.heading.None?
    ensures |OutlineFrom(open, ns)| > 0 && OutlineFrom(open, ns)[0].heading.None?
            <==> open.paragraphs + Leading(ns) != []
    decreases |ns|
  {
    if ns != [] {
      var n := ns[0];
      if IsHeading(n) {
        OutlineFromShape(Section(Some(HeadingText(n)), []), ns[1..]);
        if open != NoSection {
          assert (Flush(open) + OutlineFrom(Section(Some(HeadingText(n)), []), ns[1..]))[0] == open;
        }
      } else if CarriesText(n) {
        OutlineFromPreamble(open.(paragraphs := open.paragraphs + [Trim(n.text.value)]), ns[1..]);
      } else {
        OutlineFromPreamble(open, ns[1..]);
      }
    }
  }

  /** The open section, once it holds something or text is about to come,
      is emitted first, with exactly the visible texts up to the next heading
      appended to it. */
  lemma {:induction false} OutlineFromFirst(open: Section, ns: seq<Node>)
    requires open != NoSection || Leading(ns) != []
    ensures |OutlineFrom(open, ns)| > 0
    ensures OutlineFrom(open, ns)[0] == open.(paragraphs := open.paragraphs + Leading(ns))
    decreases |ns|
  {
    if ns == [] {
      assert open.paragraphs + [] == open.paragraphs;
    } else {
      var n := ns[0];
      if IsHeading(n) {
        assert open.paragraphs + [] == open.paragraphs;
      } else if CarriesText(n) {
        var t := Trim(n.text.value);
        var next := open.(paragraphs := open.paragraphs + [t]);
        OutlineFromFirst(next, ns[1..]);
        assert Leading(ns) == [t] + Leading(ns[1..]);
        assert next.paragraphs + Leading(ns[1..]) == open.paragraphs + Leading(ns);
      } else {
        OutlineFromFirst(open, ns[1..]);
      }
    }
  }

  /** A heading flushes the open section, then opens exactly one section: its
      own, holding the visible texts between it and the next heading. */
  lemma HeadingSection(open: Section, ns: seq<Node>)
    requires ns != [] && IsHeading(ns[0])
    ensures |OutlineFrom(open, ns)| > |Flush(open)|
    ensures OutlineFrom(open, ns)[..|Flush(open)|] == Flush(open)
    ensures OutlineFrom(open, ns)[|Flush(open)|] == Section(Some(HeadingText(ns[0])), Leading(ns[1..]))
  {
    var h := Section(Some(HeadingText(ns[0])), []);
    OutlineFromFirst(h, ns[1..]);
    assert [] + Leading(ns[1..]) == Leading(ns[1..]);
    assert OutlineFrom(open, ns) == Flush(open) + OutlineFrom(h, ns[1..]);
  }

  // ---------------------------------------------------------------------------
  // What the outline says about `formatContent`

  /** The number of sections is the number of headings, plus one if non-blank
      text comes before the first heading; each heading opens its own section,
      in document order, and only the first section can be unheaded. */
  lemma OutlineSections(ns: seq<Node>)
    ensures |Outline(ns)| == |HeadingTexts(ns)| + (if Leading(ns) != [] then 1 else 0)
    ensures Titles(Outline(ns)) == HeadingTexts(ns)
    ensures |Outline(ns)| > 0 ==> (Outline(ns)[0].heading.None? <==> Leading(ns) != [])
    ensures forall k :: 0 < k < |Outline(ns)| ==> Outline(ns)[k].heading.Some?
  {
    OutlineFromCount(NoSection, ns);
    OutlineFromTitles(NoSection, ns);
    OutlineFromShape(NoSection, ns);
    OutlineFromPreamble(NoSection, ns);
  }

  /** The text before the first heading forms the first section, unheaded,
      holding exactly those texts. */
  lemma PreambleSection(ns: seq<Node>)
    requires Leading(ns) != []
    ensures |Outline(ns)| > 0 && Outline(ns)[0] == Section(None, Leading(ns))
  {
    OutlineFromFirst(NoSection, ns);
    assert [] + Leading(ns) == Leading(ns);
  }

  /** No text is lost, duplicated or reordered: the sections' paragraphs are
      the trimmed non-blank texts of the non-heading children. */
  lemma OutlineKeepsText(ns: seq<Node>)
    ensures Flatten(Outline(ns)) == Paragraphs(ns)
  {
    OutlineFromParagraphs(NoSection, ns);
  }

  lemma {:induction false} ParasJoin(ps: seq<string>)
    requires ps != []
    ensures Paras(ps) == Join(ps, "\n\n") + "\n\n"
  {
    if |ps| > 1 {
      ParasJoin(ps[..|ps| - 1]);
    } else {
      assert ps[..0] == [];
    }
  }

  /** A section with no heading renders as its texts separated by blank lines. */
  lemma RenderUnheaded(ps: seq<string>)
    requires ps != [] && WellFormed(Section(None, ps))
    ensures Render(Section(None, ps)) == Join(ps, "\n\n")
  {
    ParasJoin(ps);
    JoinTrimmed(ps, "\n\n");
    TrimPadded("", Join(ps, "\n\n"), "\n\n");
    assert "" + Join(ps, "\n\n") + "\n\n" == Buffer(Section(None, ps));
  }

  /** A headed section renders as `## ` and the untrimmed heading text, a blank
      line, then its texts separated by blank lines; with no text, as the
      heading line with trailing white space removed. */
  lemma RenderHeaded(h: string, ps: seq<string>)
    requires WellFormed(Section(Some(h), ps))
    ensures ps != [] ==> Render(Section(Some(h), ps)) == "## " + h + "\n\n" + Join(ps, "\n\n")
    ensures ps == [] ==> Render(Section(Some(h), ps)) == TrimEnd("## " + h)
  {
    var head := "## " + h + "\n\n";
    if ps != [] {
      ParasJoin(ps);
      JoinTrimmed(ps, "\n\n");
      var j := Join(ps, "\n\n");
      var t := head + j;
      assert t[|t| - 1] == j[|j| - 1];
      assert IsTrimmed(t);
      TrimPadded("", t, "\n\n");
      assert Buffer(Section(Some(h), ps)) == "" + t + "\n\n";
    } else {
      assert Buffer(Section(Some(h), ps)) == head;
      TrimStartPadded("", head);
      assert "" + head == head;
      assert head == ("## " + h) + "\n\n";
      TrimEndIgnoresTail("## " + h, "\n\n");
    }
  }

  /** Every emitted section is non-empty and trimmed. */
  lemma SectionsTrimmed(ns: seq<Node>)
    ensures forall s :: s in Rendered(Outline(ns)) ==> s != "" && IsTrimmed(s)
  {
    OutlineFromShape(NoSection, ns);
    var secs := Outline(ns);
    forall k | 0 <= k < |secs|
      ensures Render(secs[k]) != "" && IsTrimmed(Render(secs[k]))
    {
      var sec := secs[k];
      TrimShape(Buffer(sec));
      match sec.heading {
        case Some(h) =>
          assert Buffer(sec)[0] == '#';
        case None =>
          assert sec.paragraphs != [] && WellFormed(sec);
          RenderUnheaded(sec.paragraphs);
          JoinTrimmed(sec.paragraphs, "\n\n");
      }
    }
  }

  /** Without headings, the content is the trimmed non-blank texts joined by
      blank lines; in particular no children at all give "". */
  lemma NoHeadings(ns: seq<Node>)
    requires HeadingTexts(ns) == []
    ensures Formatted(ns) == Join(Paragraphs(ns), "\n\n")
  {
    OutlineSections(ns);
    OutlineKeepsText(ns);
    OutlineFromShape(NoSection, ns);
    var secs := Outline(ns);
    if |secs| == 1 {
      assert secs[1..] == [];
      assert Flatten(secs) == secs[0].paragraphs;
      RenderUnheaded(secs[0].paragraphs);
      assert Rendered(secs) == [Render(secs[0])];
    } else {
      assert secs == [];
      assert Flatten(secs) == [];
    }
  }

  /** Two headed sections: `<h2>Intro</h2><p>Hello</p><h2>Next</h2><p>World</p>`
      gives the two sections separated by a single newline, not a blank line. */
  lemma TwoSectionsExample(ns: seq<Node>)
    requires ns == [Node("H2", Some("Intro")), Node("P", Some("Hello")),
                    Node("H2", Some("Next")), Node("P", Some("World"))]
    ensures Formatted(ns) == "## Intro\n\nHello\n## Next\n\nWorld"
  {
    var s1 := Section(Some("Intro"), ["Hello"]);
    var s2 := Section(Some("Next"), ["World"]);
    TwoSectionsOutline(ns, s1, s2);
    var r1, r2 := Render(s1), Render(s2);
    assert r1 == "## Intro\n\nHello" by {
      RenderHeaded("Intro", ["Hello"]);
    }
    assert r2 == "## Next\n\nWorld" by {
      RenderHeaded("Next", ["World"]);
    }
    assert Rendered([s1, s2]) == [r1, r2];
    assert Join([r1, r2], "\n") == r1 + "\n" + r2;
  }

  lemma TwoSectionsOutline(ns: seq<Node>, s1: Section, s2: Section)
    requires ns == [Node("H2", Some("Intro")), Node("P", Some("Hello")),
                    Node("H2", Some("Next")), Node("P", Some("World"))]
    requires s1 == Section(Some("Intro"), ["Hello"]) && s2 == Section(Some("Next"), ["World"])
    ensures Outline(ns) == [s1, s2]
  {
    TrimPadded("", "Hello", "");
    TrimPadded("", "World", "");
    assert "" + "Hello" + "" == "Hello";
    assert "" + "World" + "" == "World";
    var n1, n2, n3 := ns[1..], ns[2..], ns[3..];
    assert ns[1..][1..] == n2 && n2[1..] == n3 && n3[1..] == [];
    assert OutlineFrom(s2, n3[1..]) == [s2];
    TextStep(Section(Some("Next"), []), n3);
    assert [] + ["World"] == ["World"];
    HeadingStep(s1, n2);
    assert OutlineFrom(s1, n2) == [s1] + [s2];
    TextStep(Section(Some("Intro"), []), n1);
    assert [] + ["Hello"] == ["Hello"];
    HeadingStep(NoSection, ns);
  }
}
