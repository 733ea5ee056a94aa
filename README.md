# ArticleExtractor metadata and content pipeline, in Dafny

This project models the part of `ArticleExtractor` (`src/article-extractor.ts`)
that turns a parsed web page into an article record and then into Markdown:

- **the content segmenter** `formatContent`: one pass over the top-level children
  of the extracted HTML body. It regroups them into `## heading` sections using a
  `currentSection` buffer and a `sections` list;
- **the date scanner** `extractDate` and **the author scanner** `extractAuthor`:
  first-match scans over fixed selector lists;
- **the summary resolver** `extractSummary`: the first truthy value of a priority chain;
- **the assembly in `extract`** and **the `toMarkdown` template**.

The fetch, the HTML parser, Readability's scoring, the tokenizer and JavaScript's
date parsing are not part of this model. They are inputs:

- a `Document` maps each selector the extractor asks about to the element
  `querySelector` returns. The scanners query the page after `reader.parse()`
  has run (line 33), and Readability changes the document it parses, so a
  `Document` stands for the page as Readability left it, not as fetched;
- Readability's result is an `Option<Readable>`;
- the body children are a `seq<Node>` of `(nodeName, textContent)`;
- the foreign functions are passed in as a `Collaborators` value:
  - `toIso` is `new Date(s).toISOString()`, where `None` stands for an Invalid Date;
  - `parseBody` is `new JSDOM(html).window.document.body.childNodes`;
  - `countTokens` is `encode(s).length`.

Module layout:

- `Js` holds `Option`, `Result`, the thrown errors, and JavaScript truthiness with `||`.
- `Strings` holds `trim()`, `join`, `split(c)[0]` and the decimal rendering of `${n}`.
- `Dom` holds the page and Readability's result.
- `Segmenter` models `formatContent`.
- `Metadata` models `extractDate` and `extractAuthor`.
- `SummaryResolver` models `extractSummary`.
- `Assembler` models `extract` and `toMarkdown`.

Each loop of the source is a method proved equal to a recursive specification
function. The properties are then proved about those functions:

- `FormatContent` is proved equal to `Formatted`, which is built from the outline `Outline`;
- `ExtractDate` is proved equal to `ScanDate`;
- `ExtractAuthor` is proved equal to `ScanAuthor`.

Points where the code behaves in a way a reader might not expect, all modelled
as written:

- Sections are joined with a single `"\n"` (line 116), not a blank line. The
  two-heading example therefore gives `"## Intro\n\nHello\n## Next\n\nWorld"`.
- An unparseable date makes `toISOString()` throw a `RangeError`
  ("Invalid time value") at line 66. That error propagates out of `extract`
  and `toMarkdown`; it does not degrade the date to null.
- The author is returned verbatim, without trimming (line 83).
- Heading text is not trimmed (line 109). A heading child is an element, and an
  element's `textContent` is never null. The model still accepts an absent text
  and renders it as `null`, as the template literal would.

## Model

| member | source | states |
|---|---|---|
| Js.Or | src/article-extractor.ts:39 | `a \|\| b` on nullable strings gives the left operand when it is truthy and the right one otherwise, so it is truthy iff either operand is |
| Js.OrElse | src/article-extractor.ts:41 | `a \|\| fallback` is the string in `a` when `a` is a non-empty string, and the fallback otherwise |
| Strings.TrimStartSpec | src/article-extractor.ts:110-111 | the start of `trim()` drops exactly the leading white space: what is left is a suffix that does not start with white space |
| Strings.TrimEndSpec | src/article-extractor.ts:108 | the end of `trim()` drops exactly the trailing white space: what is left is a prefix that does not end with white space |
| Strings.TrimShape | src/article-extractor.ts:110 | `trim()` returns a trimmed string, and it is empty (falsy) exactly when the text is all white space |
| Strings.TrimPadded | src/article-extractor.ts:108 | `trim()` of a trimmed core padded with white space is that core |
| Strings.JoinEnds | src/article-extractor.ts:116 | a join of non-empty parts starts with the first part's first character and ends with the last part's last |
| Strings.JoinTrimmed | src/article-extractor.ts:116 | a join of non-empty trimmed parts is non-empty and trimmed |
| Strings.BeforeFirst | src/article-extractor.ts:66 | `split('T')[0]` is a prefix of the string with no `T` in it, followed by `T` or by the end of the string |
| Strings.BeforeFirstIsPrefix | src/article-extractor.ts:66 | `split('T')[0]` is exactly the prefix up to the first `T` |
| Strings.DecimalString | src/article-extractor.ts:130 | `${tokens}` is a non-empty string of digits that starts with `0` only for zero |
| Strings.DecimalRoundTrip | src/article-extractor.ts:130 | reading the rendered token count back as a decimal number gives the count |
| Segmenter.BufferEmpty | src/article-extractor.ts:108 | the `currentSection` buffer is falsy exactly when no heading or text has been put into the open section |
| Segmenter.TextStep | src/article-extractor.ts:110-111 | a non-heading child with visible text appends exactly its trimmed text and `"\n\n"` to the buffer; any other non-heading child changes nothing |
| Segmenter.FlushStep | src/article-extractor.ts:108 | pushing the trimmed buffer when it is truthy emits the rendering of the open section, and nothing when it is empty |
| Segmenter.FormatContent | src/article-extractor.ts:100-117 | the loop with `currentSection` and `sections` returns the outline of the children, each section rendered and trimmed, joined with `"\n"` |
| Segmenter.OutlineFromCount | src/article-extractor.ts:106-111 | from any point of the walk, one section per remaining heading, plus one when the open section holds something or text comes before the next heading |
| Segmenter.OutlineFromCountUnheaded | src/article-extractor.ts:110-111 | once text has been collected before the first heading, that preamble is emitted as one section |
| Segmenter.OutlineFromTitles | src/article-extractor.ts:107-109 | from any point of the walk, the emitted headings are the open section's heading followed by the remaining headings in order |
| Segmenter.OutlineFromParagraphs | src/article-extractor.ts:110-111 | from any point of the walk, the emitted texts are the open section's texts followed by the remaining visible texts in order |
| Segmenter.OutlineFromShape | src/article-extractor.ts:106-115 | every emitted section holds something and only trimmed, non-empty texts, and only the first can be unheaded |
| Segmenter.OutlineFromFirst | src/article-extractor.ts:108-111 | the open section, once it holds something or text is about to come, is emitted first, holding its texts followed by exactly the visible texts up to the next heading |
| Segmenter.HeadingSection | src/article-extractor.ts:107-109 | a heading flushes the open section, then opens exactly one section: its own heading text, holding exactly the visible texts between it and the next heading |
| Segmenter.OutlineFromPreamble | src/article-extractor.ts:108-115 | the first emitted section is unheaded exactly when text was collected before the first heading |
| Segmenter.OutlineSections | src/article-extractor.ts:106-115 | the number of sections is the number of headings, plus one when visible text precedes the first heading; the sections carry all the headings in document order; only the first can be unheaded |
| Segmenter.PreambleSection | src/article-extractor.ts:108-111 | when visible text comes before the first heading, the first section is unheaded and holds exactly those texts |
| Segmenter.OutlineKeepsText | src/article-extractor.ts:110-111 | no text is lost, duplicated or reordered: the sections' texts are the trimmed visible texts of the non-heading children in order |
| Segmenter.ParasJoin | src/article-extractor.ts:111 | appending each text with `"\n\n"` builds the texts joined by blank lines, followed by one blank line |
| Segmenter.RenderUnheaded | src/article-extractor.ts:108-115 | a section before any heading renders as its texts joined by blank lines |
| Segmenter.RenderHeaded | src/article-extractor.ts:108-115 | a headed section renders as `## `, the untrimmed heading text, a blank line and its texts joined by blank lines; with no text it renders as the heading line with trailing white space removed |
| Segmenter.SectionsTrimmed | src/article-extractor.ts:108-115 | every pushed section is non-empty and trimmed |
| Segmenter.NoHeadings | src/article-extractor.ts:106-116 | with no headings, the result is the trimmed visible texts joined by blank lines; no children at all give `""` |
| Segmenter.TwoSectionsExample | src/article-extractor.ts:106-116 | `<h2>Intro</h2><p>Hello</p><h2>Next</h2><p>World</p>` gives `"## Intro\n\nHello\n## Next\n\nWorld"` |
| Segmenter.TwoSectionsOutline | src/article-extractor.ts:106-115 | that body has exactly two sections, Intro with Hello and Next with World |
| Metadata.RawDate | src/article-extractor.ts:63-65 | a matched element offers a date exactly when its `content` or its `datetime` attribute is non-empty; the date is `content` when that is non-empty, else `datetime` |
| Metadata.IsoDay | src/article-extractor.ts:66 | the conversion throws `RangeError("Invalid time value")` exactly when the date is invalid; otherwise it is the prefix of the ISO string with no `T`, ending at the first `T` or at the end |
| Metadata.ScanDate | src/article-extractor.ts:62-69 | the scan gives null exactly when no selector's element offers a date; it throws only the RangeError, and only when some offered date is invalid |
| Metadata.DateFirstHit | src/article-extractor.ts:62-67 | the first selector whose element offers a date decides the result, whatever later selectors hold; matched elements without a date are skipped |
| Metadata.ExtractDate | src/article-extractor.ts:54-70 | the loop over the date selectors, with its early return, computes the scan in the fixed priority order |
| Metadata.PublishedTimeExample | src/article-extractor.ts:55-66 | an article:published_time meta of `2024-03-15T10:00:00Z` wins over a date meta and gives `2024-03-15` |
| Metadata.AuthorOf | src/article-extractor.ts:83 | the author of a matched element is its `content` attribute when that is non-empty, else its text content when that is non-empty, else null; never empty and not trimmed |
| Metadata.ScanAuthor | src/article-extractor.ts:80-86 | the author is null when no selector matches, and otherwise comes from one matched element |
| Metadata.AuthorFirstMatch | src/article-extractor.ts:80-85 | the first selector that matches decides the result, even when that element yields null |
| Metadata.ExtractAuthor | src/article-extractor.ts:72-87 | the loop over the author selectors, with its early return, computes the scan in the fixed priority order |
| SummaryResolver.FirstTruthy | src/article-extractor.ts:90-97 | the first truthy value of a priority list: `""` exactly when none is truthy, otherwise the first truthy one |
| SummaryResolver.Summary | src/article-extractor.ts:89-98 | the summary is the first non-empty of meta description, og:description, excerpt and first paragraph, never null, and `""` exactly when all four are absent or empty |
| SummaryResolver.ExcerptExample | src/article-extractor.ts:94 | without description metas, Readability's excerpt is the summary |
| Assembler.Assemble | src/article-extractor.ts:33-51 | no article means the error `Failed to extract article content` and no record; an invalid date means the scan's `RangeError("Invalid time value")` is thrown; otherwise the title is Readability's title when that is non-empty, and `Untitled` when it is absent or empty (so it is `Untitled` exactly then or when Readability's title is literally "Untitled"); the author is the byline or else the scan; `tokens` counts exactly the returned content |
| Assembler.Extract | src/article-extractor.ts:33-51 | the steps of `extract`, run after the fetch, compute the assembled record or its error |
| Assembler.MarkdownFrame | src/article-extractor.ts:122-130 | the Markdown begins with `# title` and a blank line, ends with `*Total tokens: N*`, and has no placeholder lines when summary, date and author are all absent |
| Assembler.RuleAt | src/article-extractor.ts:124-125 | the first rule comes right after the optional lines |
| Assembler.AuthorAt | src/article-extractor.ts:124 | the author line is present at its position exactly when it is non-empty |
| Assembler.DateAt | src/article-extractor.ts:124 | the published line is present at its position exactly when it is non-empty |
| Assembler.LinesAt | src/article-extractor.ts:122-125 | the optional lines follow the title in order, each recognisable by its start, then the rule |
| Assembler.SummaryLineShape | src/article-extractor.ts:124 | the summary line starts with `>`, is four characters longer than the summary, and is absent exactly when the summary is empty |
| Assembler.PublishedLineShape | src/article-extractor.ts:124 | the `**Published:**` line is present exactly when the date is non-empty |
| Assembler.AuthorLineShape | src/article-extractor.ts:124 | the `**Author:**` line is present exactly when the author is non-empty |
| Assembler.BodyShape | src/article-extractor.ts:124-130 | the body is a `---` rule and a blank line, the content, then a blank line, a `---` rule and `*Total tokens: N*` |
| Assembler.MarkdownFieldOrder | src/article-extractor.ts:122-125 | the summary, published and author lines each appear exactly when their field is non-empty, with their text, in that order, followed by the rule |
| Assembler.MarkdownContent | src/article-extractor.ts:124-130 | after the optional lines, the content sits between the two `---` rules, and the token count closes the Markdown |
| Assembler.ToMarkdown | src/article-extractor.ts:119-131 | an extraction error propagates; otherwise the result is the template filled with the extracted record |
| Assembler.UntitledHeading | src/article-extractor.ts:45 | without a title from Readability, the Markdown starts with `# Untitled` |

## Left out

- `fetchPage` and the JSDOM parsing (lines 15-23, 101-102) are network I/O and a foreign HTML parser. The document, the body children and the content parser are inputs.
- Readability's scoring (lines 27-33) is a third-party library. Its result is an input.
- The tokenizer `encode` (line 42) is a foreign call. It is the `countTokens` input.
- `new Date(s)` and `toISOString` (line 66) depend on JavaScript date parsing and time zones. They are the `toIso` input. Only the invalid-date RangeError and the prefix before `T` are modelled.
- `querySelector`'s CSS matching is not modelled. A `Document` gives the first matching element of each selector the extractor asks about.
- The command-line block (lines 135-152) uses process arguments, the clock, file writes and process exit.
- `src/readability-focus-test.ts` and `src/content-extractor-comparison.ts` are diagnostic scripts of fetches and file writes. `src/examples/` only logs results of an extractor that is not part of this model. `src/types/html-to-text.d.ts` is a type declaration.
- Token budgets and cleanup options appear only in the examples. The extractor shown does not implement them, so they are not modelled.
- Re-segmentation idempotence is not modelled. Feeding the Markdown output back through `formatContent` would need the HTML parser, which is an input here.
- `async`/`await` is not modelled. Each call is a sequential computation on its inputs.
