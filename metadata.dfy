/** `ArticleExtractor.extractDate` and `ArticleExtractor.extractAuthor`: scans
    of fixed selector lists in priority order. */
module Metadata {
  import opened Js
  import opened Strings
  import opened Dom

  const DateSelectors: seq<string> := [
    "meta[property=\"article:published_time\"]",
    "meta[name=\"publication-date\"]",
    "time[datetime]",
    "meta[name=\"date\"]"
  ]

  const AuthorSelectors: seq<string> := [
    "meta[name=\"author\"]",
    "meta[property=\"article:author\"]",
    ".author",
    "[rel=\"author\"]"
  ]

  /** The message V8 gives the RangeError `toISOString` throws on an Invalid Date. */
  const InvalidTimeValue := "Invalid time value"

  // ---------------------------------------------------------------------------
  // Date

  /** The date string the element matched by `sel` offers: its `content`
      attribute, else its `datetime` attribute, when either is non-empty. */
  function RawDate(doc: Document, sel: string): (r: Option<string>)
    ensures r.Some? ==> sel in doc && r.value != ""
    ensures r.None? <==> sel !in doc || !Truthy(Or(doc[sel].content, doc[sel].datetime))
    ensures sel in doc && Truthy(doc[sel].content) ==> r == doc[sel].content
    ensures sel in doc && !Truthy(doc[sel].content) && Truthy(doc[sel].datetime) ==> r == doc[sel].datetime
  {
    if sel in doc && Truthy(Or(doc[sel].content, doc[sel].datetime))
    then Or(doc[sel].content, doc[sel].datetime)
    else None
  }

  /** `new Date(raw).toISOString().split('T')[0]`. `toIso` stands for parsing
      and ISO conversion: None means the parse gave an Invalid Date, on which
      `toISOString` throws a RangeError. */
  function IsoDay(toIso: string -> Option<string>, raw: string): (r: Result<Option<string>, JsError>)
    ensures r.Failure? <==> toIso(raw).None?
    ensures r.Failure? ==> r.error == RangeError(InvalidTimeValue)
    ensures r.Success? ==> r.value.Some? && r.value.value <= toIso(raw).value && 'T' !in r.value.value
    ensures r.Success? ==> |r.value.value| < |toIso(raw).value| ==> toIso(raw).value[|r.value.value|] == 'T'
  {
    match toIso(raw)
    case None => Failure(RangeError(InvalidTimeValue))
    case Some(iso) => Success(Some(BeforeFirst(iso, 'T')))
  }

  /** The date scan over `sels`: the first selector whose element offers a date
      decides the result; with none, the result is null. */
  function ScanDate(doc: Document, toIso: string -> Option<string>, sels: seq<string>): (r: Result<Option<string>, JsError>)
    ensures r == Success(None) <==> forall i :: 0 <= i < |sels| ==> RawDate(doc, sels[i]).None?
    ensures r.Failure? ==> exists i :: 0 <= i < |sels| && RawDate(doc, sels[i]).Some? && toIso(RawDate(doc, sels[i]).value).None?
    ensures r.Failure? ==> r.error == RangeError(InvalidTimeValue)
    decreases |sels|
  {
    if sels == [] then Success(None)
    else match RawDate(doc, sels[0])
      case Some(raw) => IsoDay(toIso, raw)
      case None =>
        var rest := ScanDate(doc, toIso, sels[1..]);
        assert forall i :: 1 <= i < |sels| ==> sels[i] == sels[1..][i - 1];
        rest
  }

  /** A higher-priority selector always wins: the first selector that offers a
      date decides the result, whatever the later ones hold; elements that match
      but offer no date are skipped. */
  lemma {:induction false} DateFirstHit(doc: Document, toIso: string -> Option<string>, sels: seq<string>, k: nat)
    requires k < |sels| && RawDate(doc, sels[k]).Some?
    requires forall j :: 0 <= j < k ==> RawDate(doc, sels[j]).None?
    ensures ScanDate(doc, toIso, sels) == IsoDay(toIso, RawDate(doc, sels[k]).value)
  {
    if k > 0 {
      assert RawDate(doc, sels[0]).None?;
      DateFirstHit(doc, toIso, sels[1..], k - 1);
    }
  }

  /** `extractDate`: tries the date selectors in order and returns at the
      first element offering a date. */
  method ExtractDate(doc: Document, toIso: string -> Option<string>) returns (r: Result<Option<string>, JsError>)
    ensures r == ScanDate(doc, toIso, DateSelectors)
  {
    for i := 0 to |DateSelectors|
      invariant ScanDate(doc, toIso, DateSelectors[i..]) == ScanDate(doc, toIso, DateSelectors)
    {
      var selector := DateSelectors[i];
      assert DateSelectors[i..][0] == selector && DateSelectors[i..][1..] == DateSelectors[i + 1..];
      if selector in doc {
        var element := doc[selector];
        var date := Or(element.content, element.datetime);
        if Truthy(date) {
          return IsoDay(toIso, date.value);
        }
      }
    }
    assert DateSelectors[|DateSelectors|..] == [];
    return Success(None);
  }

  /** An article:published_time meta of "2024-03-15T10:00:00Z" wins over a
      generic date meta of "2024-01-01". */
  lemma PublishedTimeExample(doc: Document, toIso: string -> Option<string>, iso: string)
    requires doc == map[
      DateSelectors[0] := Element(Some("2024-03-15T10:00:00Z"), None, ""),
      DateSelectors[3] := Element(Some("2024-01-01"), None, "")]
    requires iso == "2024-03-15T10:00:00.000Z"
    requires toIso("2024-03-15T10:00:00Z") == Some(iso)
    ensures ScanDate(doc, toIso, DateSelectors) == Success(Some("2024-03-15"))
  {
    assert RawDate(doc, DateSelectors[0]) == Some("2024-03-15T10:00:00Z");
    DateFirstHit(doc, toIso, DateSelectors, 0);
    assert iso[10] == 'T' && iso[..10] == "2024-03-15";
    BeforeFirstIsPrefix(iso, 'T', 10);
  }

  // ---------------------------------------------------------------------------
  // Author

  /** `element.getAttribute('content') || element.textContent || null`: taken
      verbatim, not trimmed. */
  function AuthorOf(e: Element): (r: Option<string>)
    ensures r.Some? ==> r.value != "" && (r == e.content || r.value == e.text)
    ensures Truthy(e.content) ==> r == e.content
    ensures !Truthy(e.content) && e.text != "" ==> r == Some(e.text)
    ensures r.None? <==> !Truthy(e.content) && e.text == ""
  {
    if Truthy(e.content) then e.content
    else if e.text != "" then Some(e.text)
    else None
  }

  /** The author scan over `sels`: the first selector that matches an element
      decides the result, even when that element yields null. */
  function ScanAuthor(doc: Document, sels: seq<string>): (r: Option<string>)
    ensures r.Some? ==> r.value != ""
    ensures (forall i :: 0 <= i < |sels| ==> sels[i] !in doc) ==> r.None?
    ensures r.Some? ==> exists i :: 0 <= i < |sels| && sels[i] in doc && AuthorOf(doc[sels[i]]) == r
    decreases |sels|
  {
    if sels == [] then None
    else if sels[0] in doc then AuthorOf(doc[sels[0]])
    else
      var rest := ScanAuthor(doc, sels[1..]);
      assert forall i :: 1 <= i < |sels| ==> sels[i] == sels[1..][i - 1];
      rest
  }

  /** The scan stops at the first selector that matches any element: later
      selectors are not consulted, even when the match yields null. */
  lemma {:induction false} AuthorFirstMatch(doc: Document, sels: seq<string>, k: nat)
    requires k < |sels| && sels[k] in doc
    requires forall j :: 0 <= j < k ==> sels[j] !in doc
    ensures ScanAuthor(doc, sels) == AuthorOf(doc[sels[k]])
  {
    if k > 0 {
      assert sels[0] !in doc;
      AuthorFirstMatch(doc, sels[1..], k - 1);
    }
  }

  /** `extractAuthor`: tries the author selectors in order and returns at the
      first one that matches an element. */
  method ExtractAuthor(doc: Document) returns (r: Option<string>)
    ensures r == ScanAuthor(doc, AuthorSelectors)
  {
    for i := 0 to |AuthorSelectors|
      invariant ScanAuthor(doc, AuthorSelectors[i..]) == ScanAuthor(doc, AuthorSelectors)
    {
      var selector := AuthorSelectors[i];
      assert AuthorSelectors[i..][0] == selector && AuthorSelectors[i..][1..] == AuthorSelectors[i + 1..];
      if selector in doc {
        var element := doc[selector];
        return AuthorOf(element);
      }
    }
    assert AuthorSelectors[|AuthorSelectors|..] == [];
    return None;
  }
}
