/** `ArticleExtractor.extractSummary`: the first non-empty string of a fixed
    priority chain. */
module SummaryResolver {
  import opened Js
  import opened Dom

  const DescriptionSelector := "meta[name=\"description\"]"
  const OgDescriptionSelector := "meta[property=\"og:description\"]"
  const FirstParagraphSelector := "article p, .article p, .content p"

  /** `doc.querySelector(sel)?.getAttribute('content')`. */
  function ContentOf(doc: Document, sel: string): Option<string>
  {
    if sel in doc then doc[sel].content else None
  }

  /** `doc.querySelector(sel)?.textContent`. */
  function TextOf(doc: Document, sel: string): Option<string>
  {
    if sel in doc then Some(doc[sel].text) else None
  }

  /** The first truthy string of a priority list, or "" when there is none. */
  function FirstTruthy(candidates: seq<Option<string>>): (r: string)
    ensures r == "" <==> forall i :: 0 <= i < |candidates| ==> !Truthy(candidates[i])
    ensures r != "" ==> exists k :: 0 <= k < |candidates| && candidates[k] == Some(r)
                          && forall j :: 0 <= j < k ==> !Truthy(candidates[j])
  {
    if candidates == [] then ""
    else if Truthy(candidates[0]) then candidates[0].value
    else
      var rest := FirstTruthy(candidates[1..]);
      assert forall i :: 1 <= i < |candidates| ==> candidates[i] == candidates[1..][i - 1];
      rest
  }

  /** The summary sources, highest priority first: meta description,
      og:description, Readability's excerpt, the first paragraph of the content. */
  function SummarySources(doc: Document, article: Readable): seq<Option<string>>
  {
    [ContentOf(doc, DescriptionSelector), ContentOf(doc, OgDescriptionSelector),
     article.excerpt, TextOf(doc, FirstParagraphSelector)]
  }

  /** `extractSummary`: never null; the first non-empty source in priority order,
      and "" exactly when every source is absent or empty. */
  function Summary(doc: Document, article: Readable): (r: string)
    ensures r == FirstTruthy(SummarySources(doc, article))
    ensures r == "" <==> forall i :: 0 <= i < 4 ==> !Truthy(SummarySources(doc, article)[i])
  {
    var metaDesc := Or(ContentOf(doc, DescriptionSelector), ContentOf(doc, OgDescriptionSelector));
    var sources := SummarySources(doc, article);
    assert sources[1..][1..] == [article.excerpt, TextOf(doc, FirstParagraphSelector)];
    assert sources[1..][1..][1..][1..] == [];
    if Truthy(metaDesc) then metaDesc.value
    else
      assert FirstTruthy(sources) == FirstTruthy(sources[1..]) == FirstTruthy(sources[1..][1..]);
      if Truthy(article.excerpt) then article.excerpt.value
      else
        assert FirstTruthy(sources[1..][1..]) == FirstTruthy(sources[1..][1..][1..]);
        assert FirstTruthy(sources[1..][1..][1..][1..]) == "";
        OrElse(TextOf(doc, FirstParagraphSelector), "")
  }

  /** With no description metas, Readability's excerpt "An overview" is the summary. */
  lemma ExcerptExample(doc: Document, article: Readable)
    requires DescriptionSelector !in doc && OgDescriptionSelector !in doc
    requires article.excerpt == Some("An overview")
    ensures Summary(doc, article) == "An overview"
  {
  }
}
