/** `ArticleExtractor.extract` and `ArticleExtractor.toMarkdown`: put the
    scanners, the summary resolver and the segmenter together into one article,
    and render it as Markdown. */
module Assembler {
  import opened Js
  import opened Strings
  import opened Dom
  import opened Segmenter
  import opened Metadata
  import opened SummaryResolver

  const FailedToExtract := "Failed to extract article content"
  const Untitled := "Untitled"

  /** The extracted article. */
  datatype ArticleContent = ArticleContent(
    title: string,
    publishDate: Option<string>,
    author: Option<string>,
    summary: string,
    content: string,
    tokens: nat)

  /** The foreign code `extract` calls: date parsing with ISO conversion (None
      for an Invalid Date), parsing the content HTML into body children, and
      the tokenizer's count. */
  datatype Collaborators = Collaborators(
    toIso: string -> Option<string>,
    parseBody: string -> seq<Node>,
    countTokens: string -> nat)

  /** What `extract` returns when Readability returned `parsed`; `doc` is the
      page as Readability's `parse()` left it, which is what the scanners query. */
  function Assemble(doc: Document, parsed: Option<Readable>, env: Collaborators): (r: Result<ArticleContent, JsError>)
    ensures parsed.None? ==> r == Failure(Error(FailedToExtract))
    ensures r.Failure? <==> parsed.None? || ScanDate(doc, env.toIso, DateSelectors).Failure?
    ensures parsed.Some? && ScanDate(doc, env.toIso, DateSelectors).Failure? ==>
      r == Failure(ScanDate(doc, env.toIso, DateSelectors).error) && r.error == RangeError(InvalidTimeValue)
    ensures r.Success? ==>
      && r.value.title != ""
      && (r.value.title == Untitled <==> !Truthy(parsed.value.title) || parsed.value.title == Some(Untitled))
      && (Truthy(parsed.value.title) ==> r.value.title == parsed.value.title.value)
      && r.value.tokens == env.countTokens(r.value.content)
      && r.value.content == Formatted(env.parseBody(OrElse(parsed.value.content, "")))
      && r.value.publishDate == ScanDate(doc, env.toIso, DateSelectors).value
      && (Truthy(r.value.author) <==> Truthy(parsed.value.byline) || ScanAuthor(doc, AuthorSelectors).Some?)
      && (Truthy(parsed.value.byline) ==> r.value.author == parsed.value.byline)
      && (!Truthy(parsed.value.byline) ==> r.value.author == ScanAuthor(doc, AuthorSelectors))
      && r.value.summary == Summary(doc, parsed.value)
  {
    match parsed
    case None => Failure(Error(FailedToExtract))
    case Some(article) =>
      match ScanDate(doc, env.toIso, DateSelectors)
      case Failure(e) => Failure(e)
      case Success(publishDate) =>
        var content := Formatted(env.parseBody(OrElse(article.content, "")));
        Success(ArticleContent(
          OrElse(article.title, Untitled),
          publishDate,
          Or(article.byline, ScanAuthor(doc, AuthorSelectors)),
          Summary(doc, article),
          content,
          env.countTokens(content)))
  }

  /** `extract`: fails when Readability finds no article, lets the date
      scanner's RangeError escape, and otherwise builds the article with the
      token count of exactly the content it returns. */
  method Extract(doc: Document, parsed: Option<Readable>, env: Collaborators) returns (r: Result<ArticleContent, JsError>)
    ensures r == Assemble(doc, parsed, env)
  {
    if parsed.None? {
      return Failure(Error(FailedToExtract));
    }
    var article := parsed.value;
    var publishDate := ExtractDate(doc, env.toIso);
    if publishDate.Failure? {
      return Failure(publishDate.error);
    }
    var author := article.byline;
    if !Truthy(author) {
      author := ExtractAuthor(doc);
    }
    var summary := Summary(doc, article);
    var content := FormatContent(env.parseBody(OrElse(article.content, "")));
    var tokens := env.countTokens(content);
    r := Success(ArticleContent(OrElse(article.title, Untitled), publishDate.value, author, summary, content, tokens));
  }

  // ---------------------------------------------------------------------------
  // Markdown

  function Header(a: ArticleContent): string
  {
    "# " + a.title + "\n\n"
  }

  function SummaryLine(a: ArticleContent): string
  {
    if a.summary != "" then "> " + a.summary + "\n\n" else ""
  }

  function PublishedLine(a: ArticleContent): string
  {
    if Truthy(a.publishDate) then "**Published:** " + a.publishDate.value + "\n" else ""
  }

  function AuthorLine(a: ArticleContent): string
  {
    if Truthy(a.author) then "**Author:** " + a.author.value + "\n" else ""
  }

  /** The content between two rules, then the token count. */
  function Body(a: ArticleContent): string
  {
    "\n---\n\n" + a.content + "\n\n---\n*Total tokens: " + DecimalString(a.tokens) + "*"
  }

  /** The template `toMarkdown` fills in: the title heading, the optional
      lines, the content between two rules, and the token count. */
  function Markdown(a: ArticleContent): string
  {
    Header(a) + SummaryLine(a) + PublishedLine(a) + AuthorLine(a) + Body(a)
  }

  /** Where each piece of a five-part concatenation sits. */
  lemma Pieces(p: string, q: string, s: string, t: string, u: string)
    ensures var r := p + q + s + t + u;
      && r[..|p|] == p
      && r[|p|..|p| + |q|] == q
      && r[|p| + |q|..|p| + |q| + |s|] == s
      && r[|p| + |q| + |s|..|p| + |q| + |s| + |t|] == t
      && r[|p| + |q| + |s| + |t|..] == u
  {
  }

  /** The Markdown starts with the title heading, ends with the token count,
      and has no placeholder: it is exactly heading, rules, content and count
      when summary, date and author are all absent. */
  lemma MarkdownFrame(a: ArticleContent)
    ensures |Markdown(a)| >= |Header(a)| && Markdown(a)[..|Header(a)|] == "# " + a.title + "\n\n"
    ensures EndsWithCount(Markdown(a), a.tokens)
    ensures |Markdown(a)| == |Header(a)| + |Body(a)| <==> a.summary == "" && !Truthy(a.publishDate) && !Truthy(a.author)
  {
    Pieces(Header(a), SummaryLine(a), PublishedLine(a), AuthorLine(a), Body(a));
    var b := Body(a);
    var f := "\n\n---\n*Total tokens: " + DecimalString(a.tokens) + "*";
    assert b == "\n---\n\n" + a.content + f;
    assert b[|b| - |f|..] == f;
  }

  predicate EndsWithCount(r: string, tokens: nat)
  {
    var f := "\n\n---\n*Total tokens: " + DecimalString(tokens) + "*";
    |r| >= |f| && r[|r| - |f|..] == f
  }

  /** What follows `pre` in `pre + x + rest`: the start of `x`, or of `rest` when `x` is empty. */
  lemma Lead(pre: string, x: string, rest: string, k: nat)
    requires x == "" || |x| >= k
    requires |rest| >= k
    ensures |pre| + k <= |pre + x + rest|
    ensures (pre + x + rest)[|pre|..|pre| + k] == if x == "" then rest[..k] else x[..k]
  {
    if x == "" {
      assert pre + x + rest == pre + rest;
    }
  }

  /** How the optional lines and the body start: `>`, `**P`, `**A` and the rule `\n---\n`. */
  predicate LineShapes(s: string, d: string, u: string, b: string)
  {
    && (s == "" || s[0] == '>')
    && (d == "" || (|d| >= 3 && d[..3] == "**P"))
    && (u == "" || (|u| >= 3 && u[..3] == "**A"))
    && |b| >= 5 && b[..5] == "\n---\n"
  }

  /** The first rule comes right after the optional lines. */
  lemma RuleAt(hd: string, s: string, d: string, u: string, b: string)
    requires LineShapes(s, d, u, b)
    ensures var r := hd + s + d + u + b; var p3 := |hd| + |s| + |d| + |u|;
      p3 + 5 <= |r| && r[p3..p3 + 5] == "\n---\n"
  {
    assert hd + s + d + u + b == (hd + s + d + u) + "" + b;
    Lead(hd + s + d + u, "", b, 5);
  }

  /** `**A` starts the author line's place exactly when that line is there. */
  lemma AuthorAt(hd: string, s: string, d: string, u: string, b: string)
    requires LineShapes(s, d, u, b)
    ensures var r := hd + s + d + u + b; var p2 := |hd| + |s| + |d|;
      p2 + 3 <= |r| && (r[p2..p2 + 3] == "**A" <==> u != "")
  {
    Lead(hd + s + d, u, b, 3);
    assert b[..3] == "\n--";
  }

  /** `**P` starts the published line's place exactly when that line is there. */
  lemma DateAt(hd: string, s: string, d: string, u: string, b: string)
    requires LineShapes(s, d, u, b)
    ensures var r := hd + s + d + u + b; var p1 := |hd| + |s|;
      p1 + 3 <= |r| && (r[p1..p1 + 3] == "**P" <==> d != "")
  {
    var ub := u + b;
    assert hd + s + d + u + b == (hd + s) + d + ub;
    Lead(hd + s, d, ub, 3);
    Lead("", u, b, 3);
    assert "" + u + b == ub;
    assert b[..3] == "\n--";
  }

  /** The optional lines can be told apart by how they start, and each sits
      where the lengths of the lines before it say. */
  lemma LinesAt(hd: string, s: string, d: string, u: string, b: string)
    requires LineShapes(s, d, u, b)
    ensures var r := hd + s + d + u + b;
      var p1, p2, p3 := |hd| + |s|, |hd| + |s| + |d|, |hd| + |s| + |d| + |u|;
      && p3 + 5 <= |r|
      && r[|hd|..p1] == s && r[p1..p2] == d && r[p2..p3] == u
      && (r[|hd|] == '>' <==> s != "")
      && (r[p1..p1 + 3] == "**P" <==> d != "")
      && (r[p2..p2 + 3] == "**A" <==> u != "")
      && r[p3..p3 + 5] == "\n---\n"
  {
    var r := hd + s + d + u + b;
    var p1, p2, p3 := |hd| + |s|, |hd| + |s| + |d|, |hd| + |s| + |d| + |u|;
    Pieces(hd, s, d, u, b);
    RuleAt(hd, s, d, u, b);
    AuthorAt(hd, s, d, u, b);
    DateAt(hd, s, d, u, b);
    if s != "" {
      assert r[|hd|] == r[|hd|..p1][0];
    } else if d != "" {
      assert r[|hd|] == r[p1..p1 + 3][0];
    } else if u != "" {
      assert r[|hd|] == r[p2..p2 + 3][0];
    } else {
      assert r[|hd|] == r[p3..p3 + 5][0];
    }
  }

  /** The summary line is there exactly when the summary is non-empty, and starts with `>`. */
  lemma SummaryLineShape(a: ArticleContent)
    ensures var s := SummaryLine(a);
      && (s == "" || s[0] == '>')
      && |s| == (if a.summary != "" then |a.summary| + 4 else 0)
      && (s == "" <==> a.summary == "")
  {
  }

  /** The published line is there exactly when the date is truthy, and starts with `**P`. */
  lemma PublishedLineShape(a: ArticleContent)
    ensures var d := PublishedLine(a);
      && (d == "" || (|d| >= 3 && d[..3] == "**P"))
      && |d| == (if Truthy(a.publishDate) then |a.publishDate.value| + 16 else 0)
      && (d == "" <==> !Truthy(a.publishDate))
  {
  }

  /** The author line is there exactly when the author is truthy, and starts with `**A`. */
  lemma AuthorLineShape(a: ArticleContent)
    ensures var u := AuthorLine(a);
      && (u == "" || (|u| >= 3 && u[..3] == "**A"))
      && |u| == (if Truthy(a.author) then |a.author.value| + 13 else 0)
      && (u == "" <==> !Truthy(a.author))
  {
  }

  /** The content sits between the two rules, and the token count closes the body. */
  lemma BodyShape(a: ArticleContent)
    ensures var b, c := Body(a), |a.content|;
      && |b| >= 6 + c
      && b[..5] == "\n---\n"
      && b[..6] == "\n---\n\n"
      && b[6..6 + c] == a.content
      && b[6 + c..] == "\n\n---\n*Total tokens: " + DecimalString(a.tokens) + "*"
  {
    var f := "\n\n---\n*Total tokens: " + DecimalString(a.tokens) + "*";
    assert Body(a) == "\n---\n\n" + a.content + f;
  }

  /** Each optional line is there exactly when its field is non-empty, in the
      order summary, date, author, and the rule follows them: `p1`, `p2` and
      `p3` are where the date line, the author line and the rule start. */
  lemma MarkdownFieldOrder(a: ArticleContent)
    ensures
      var h := |Header(a)|;
      var p1 := h + (if a.summary != "" then |a.summary| + 4 else 0);
      var p2 := p1 + (if Truthy(a.publishDate) then |a.publishDate.value| + 16 else 0);
      var p3 := p2 + (if Truthy(a.author) then |a.author.value| + 13 else 0);
      var r := Markdown(a);
      && p3 + 5 <= |r|
      && (r[h] == '>' <==> a.summary != "")
      && (a.summary != "" ==> r[h..p1] == "> " + a.summary + "\n\n")
      && (r[p1..p1 + 3] == "**P" <==> Truthy(a.publishDate))
      && (Truthy(a.publishDate) ==> r[p1..p2] == "**Published:** " + a.publishDate.value + "\n")
      && (r[p2..p2 + 3] == "**A" <==> Truthy(a.author))
      && (Truthy(a.author) ==> r[p2..p3] == "**Author:** " + a.author.value + "\n")
      && r[p3..p3 + 5] == "\n---\n"
  {
    var s, d, u, b := SummaryLine(a), PublishedLine(a), AuthorLine(a), Body(a);
    SummaryLineShape(a);
    PublishedLineShape(a);
    AuthorLineShape(a);
    BodyShape(a);
    LinesAt(Header(a), s, d, u, b);
  }

  /** After the optional lines, the content sits between two `---` rules and
      the token count closes the Markdown. */
  lemma MarkdownContent(a: ArticleContent)
    ensures
      var p3 := |Header(a)| + |SummaryLine(a)| + |PublishedLine(a)| + |AuthorLine(a)|;
      var c := |a.content|;
      var r := Markdown(a);
      && p3 + 6 + c <= |r|
      && r[p3..p3 + 6] == "\n---\n\n"
      && r[p3 + 6..p3 + 6 + c] == a.content
      && r[p3 + 6 + c..] == "\n\n---\n*Total tokens: " + DecimalString(a.tokens) + "*"
  {
    var s, d, u, b := SummaryLine(a), PublishedLine(a), AuthorLine(a), Body(a);
    var p3 := |Header(a)| + |s| + |d| + |u|;
    var c := |a.content|;
    BodyShape(a);
    assert Markdown(a)[p3..] == b by {
      Pieces(Header(a), s, d, u, b);
    }
    assert Markdown(a)[p3..p3 + 6] == b[..6];
    assert Markdown(a)[p3 + 6..p3 + 6 + c] == b[6..6 + c];
    assert Markdown(a)[p3 + 6 + c..] == b[6 + c..];
  }

  /** `toMarkdown`: extracts the article and fills in the template; an
      extraction failure propagates. */
  method ToMarkdown(doc: Document, parsed: Option<Readable>, env: Collaborators) returns (r: Result<string, JsError>)
    ensures Assemble(doc, parsed, env).Failure? ==> r == Failure(Assemble(doc, parsed, env).error)
    ensures Assemble(doc, parsed, env).Success? ==> r == Success(Markdown(Assemble(doc, parsed, env).value))
  {
    var article := Extract(doc, parsed, env);
    if article.Failure? {
      return Failure(article.error);
    }
    r := Success(Markdown(article.value));
  }

  /** Without a title from Readability, the Markdown starts with "# Untitled". */
  lemma UntitledHeading(doc: Document, parsed: Option<Readable>, env: Collaborators)
    requires parsed.Some? && !Truthy(parsed.value.title)
    requires Assemble(doc, parsed, env).Success?
    ensures Markdown(Assemble(doc, parsed, env).value)[..10] == "# Untitled"
  {
    var a := Assemble(doc, parsed, env).value;
    assert a.title == Untitled;
    assert Header(a)[..10] == "# Untitled";
  }
}
