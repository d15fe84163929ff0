# docx-parser-api: the document-to-HTML converter

This project models the converter at the heart of `docx-parser-api`. The converter takes the
paragraphs of a Word document and turns them into HTML in three regions:

- a *head*;
- a body *text*;
- an *FAQ* of question/answer pairs.

Paragraphs whose stripped text is exactly `#####` separate the regions.

The model follows `app.py` function by function:

- `Runs`: `run_to_html`. This covers raw `<img`/`<iframe` passthrough, resolved hyperlinks and
  the empty run. It also covers the escaped, line-broken span with its inline style string.
- `Lists`: `detect_list_type`, its four heuristics tried in order.
- `Paragraphs`: `para_to_html`, the `li` colour taken from the first run, and `wrap_list`.
- `Sections`: the paragraph loop of `docx_to_html_sections`, and the whole conversion.
  - The loop is the function `Step`, folded by `Walk`. `Convert` applies the end-of-stream
    flush, the FAQ pairing and the stripped joins.
  - `Advance` (one pass of the loop body), `WalkParagraphs` (the loop) and `ConvertSections`
    (the whole function) are the code itself, written imperatively. Their postconditions tie
    them to `Step`, `Walk` and `Convert`.
- `Faq`: the pairing loop.
  - `PairFrom` is the loop's own step-by-step specification. `GroupFaqs` is the imperative
    loop proved against it.
  - `PairRef` is an independent reference pairing. `PairFaqIsRef` connects the two.
- `Text` and `Wrappers` hold the string operations the code relies on (`strip`, `lower`,
  `split`, `join`, `in`) and Python truthiness.

Python truthiness matters in several places (`if hyperlink:`, `if run.font.name:`,
`if current_q:`). An optional string counts as true only when it is present and non-empty
(`Wrappers.Truthy`).

Two behaviours of the loop are easy to miss when reading it:

- The end-of-stream flush (`app.py:158-159`) runs only when the section counter is 1. A list
  still pending when the stream ends in the head section is lost
  (`Sections.TrailingHeadListDropped`). From the FAQ section on the buffer is always empty
  (`Sections.Inv`), so no list can be pending there.
- There is no state after the FAQ. The third marker moves the counter to 3, and every later
  paragraph is dropped (`Sections.StepDropped`, `Sections.ConvertIgnoresAfterThird`).

## Model

| member | source | states |
|---|---|---|
| Text.Trim | app.py:10 | `strip()` is empty exactly when the input is all whitespace; otherwise it neither starts nor ends with whitespace |
| Text.TrimSlice | app.py:10 | `strip()` returns a contiguous slice of the input, and only whitespace lies outside it |
| Text.TrimIdempotent | app.py:34 | stripping a stripped line changes nothing |
| Text.Lower | app.py:65 | `lower()` keeps the length, leaves no upper-case letter, and changes each character only to its lower-case form |
| Text.LowerIdempotent | app.py:65 | lower-casing twice is lower-casing once |
| Text.ContainsIff | app.py:73-76 | the substring test `word in s` holds exactly when `word` occurs at some position of `s` |
| Text.Split | app.py:33 | `split('\n')` yields at least one piece, and no piece holds the separator |
| Text.JoinSplit | app.py:33 | joining the pieces of `split(c)` back with `c` gives the original text |
| Runs.Escape | app.py:29 | escaped text holds no raw `<` or `>`, holds a line feed iff the input does, and equals single-pass entity escaping |
| Runs.ReplacementsEscapeEach | app.py:29 | the three `replace` passes, `&` first, never re-escape an entity produced by an earlier pass |
| Runs.UnescapeEscape | app.py:29 | escaping loses nothing: decoding the three entities gives back the text |
| Runs.KeptLines | app.py:34 | only non-blank lines are kept, each stripped at both ends |
| Runs.KeptLinesSingle | app.py:34 | one line is kept stripped when it is not blank and dropped when it is |
| Runs.KeptLinesAppend | app.py:34 | the filter works line by line: on two stretches of lines it is the filter of each, concatenated in order |
| Runs.BreakLines | app.py:31-34 | text without a line feed is unchanged; text with one becomes its stripped non-blank lines joined by `<br>`; either way no line feed is left |
| Runs.BreakLinesExample | app.py:29-34 | `"a\n \nb"` becomes `a<br>b`: the blank middle line is dropped |
| Runs.StyleString | app.py:36-57 | the style string reads back as exactly the run's bold, italic, size, family and colour, each clause present iff its attribute is, in the fixed order |
| Runs.StyleWeightFirst | app.py:37-40 | the style string opens with `font-weight:bold;` iff the run is bold, and with `font-weight:normal;` iff it is not |
| Runs.RenderRun | app.py:9-58 | raw `<img`/`<iframe` text is returned stripped whatever the formatting; otherwise a truthy link gives an anchor around the unescaped stripped text; otherwise blank text gives `''`, and any other text a span of the run's style string around the escaped, line-broken text; the output is blank iff the text is blank and there is no truthy link |
| Runs.SpanCase | app.py:24-58 | on the span path the markup is a span of the style string around the escaped, line-broken text; the style decodes to the run's formatting and the body has no line feed; single-line text comes back from the body by unescaping |
| Lists.Classify | app.py:61-87 | a leading bullet glyph makes an unordered item; an ordered item has no leading glyph and no `bullet` in its style; no list means no leading glyph and no numbering |
| Lists.ClassifyPrecedence | app.py:61-87 | the outcome of `detect_list_type`, as an if-and-only-if per result: glyph, then `bullet`, then `number` in the style, then the numbering level (0 ordered, deeper unordered), otherwise no list |
| Lists.ClassifyIgnoresStyleCase | app.py:65-76 | the style test does not depend on the case of the style name |
| Lists.BulletStyleBeatsNumbering | app.py:73-85 | a style name mentioning `bullet` makes an unordered item whatever the numbering level |
| Paragraphs.RenderRuns | app.py:90-91 | the joined run markup is blank exactly when every run has blank text and no truthy link |
| Paragraphs.WrapperColor | app.py:97-101 | the `li` colour attribute is non-empty iff the first run has a truthy rgb, and then it is that rgb |
| Paragraphs.ParaToHtml | app.py:89-106 | `('', None)` iff the runs render blank; otherwise an `li` with the list type when classified as a list, else a `p` with no type |
| Paragraphs.SilentParagraph | app.py:90-92 | a paragraph whose runs all have blank text and no truthy link gives `('', None)` |
| Paragraphs.WrapList | app.py:108-111 | the items joined and unwrapped when the type is absent or there are no items; otherwise the `<ul>`/`<ol>` open and close tags around exactly the joined items |
| Faq.PairFromMatchesRef | app.py:161-174 | run from any accumulated pairs with no pending question, the loop appends exactly the reference pairing |
| Faq.PairFaqIsRef | app.py:161-174 | the pairing loop equals the reference pairing: a question takes the answer right after it, or `''` when another question or the end comes first |
| Faq.OnePairPerQuestion | app.py:161-174 | one pair per question, in the order of the questions |
| Faq.PairingExample | app.py:161-174 | `[Q1, A1, Q2, Q3, A3]` pairs as `[(Q1, A1), (Q2, ''), (Q3, A3)]` |
| Faq.LeadingAnswerDropped | app.py:168-171 | an answer with no pending question produces no pair |
| Faq.GroupFaqs | app.py:161-174 | the imperative pairing loop computes the loop specification, hence the reference pairing and one pair per question |
| Sections.Step | app.py:121-156 | one iteration advances the counter by exactly one on a marker and otherwise keeps it; the outputs only grow; the head is final once past section 0; the FAQ items change only in section 2 |
| Sections.StepInv | app.py:121-156 | each iteration keeps the invariant: buffer and type empty together; no buffer from the FAQ section on; only `p` elements in the head; only `p` elements and wrapped lists in the text; only `li` items in the buffer; non-empty FAQ markup |
| Sections.WalkInv | app.py:121-156 | the invariant holds after any number of paragraphs |
| Sections.WalkSection | app.py:115-132 | the section counter ends at its start plus the number of marker paragraphs |
| Sections.WalkGrows | app.py:121-156 | head, text and FAQ outputs only ever grow, and the head no longer changes once the counter leaves 0 |
| Sections.WalkAppend | app.py:121-156 | the loop over two consecutive stretches of paragraphs is the loop over the first, continued over the second |
| Sections.StepDropped | app.py:137-156 | with the counter at 3 or more a paragraph changes nothing but the counter |
| Sections.WalkDropped | app.py:137-156 | with the counter at 3 or more a whole stretch of paragraphs changes nothing but the counter |
| Sections.SkippedAddsNothing | app.py:122-124 | a paragraph with blank text and no runs leaves every variable unchanged |
| Sections.EndText | app.py:158-159 | the end-of-stream flush appends exactly `wrap_list` of the buffered items with the buffer's type when a list is pending in section 1, and leaves the text output unchanged otherwise; under the loop invariant the appended element is a `<ul>` or `<ol>` |
| Sections.SilentAddsNothing | app.py:134-136 | a paragraph whose runs all have blank text and no truthy link renders as `''` and leaves every variable unchanged in every section, so a pending list stays open across it |
| Sections.SentinelAddsNothing | app.py:126-132 | a marker adds nothing to head or FAQ; its only effect on the text is the flush the end of the stream would do; outside section 1 it changes only the counter, keeping the buffer and its type; in section 1 it flushes the pending list and moves to section 2 |
| Sections.ListItemStep | app.py:139-145 | a list item in the head or text section joins the buffer; when the buffer holds the other type, that list is first emitted as one wrapper into the text output, even from the head |
| Sections.PlainStep | app.py:146-150 | a non-list paragraph first emits any pending list into the text output, then goes to the output of the current section |
| Sections.FaqStep | app.py:151-156 | in section 2 a paragraph becomes one tagged item, a question iff some run with non-blank text is bold |
| Sections.ListBlock | app.py:139-145 | consecutive list items of one type accumulate in the buffer in order, and nothing is emitted |
| Sections.SwitchKind | app.py:140-145 | a block of the other list type emits the pending list as one wrapper of its own type and starts a new buffer |
| Sections.TwoListsGrouped | app.py:108-111 | in the text section a bulleted block then a numbered block end up as exactly one `<ul>` and one `<ol>` holding their items in order |
| Sections.TrailingHeadListDropped | app.py:158-159 | a list still pending when the stream ends in the head section is lost: a one-item list document converts to empty regions |
| Sections.OutputShapes | app.py:138-150 | list items never reach the head output; the text output holds only paragraphs and wrapped lists |
| Sections.ConvertIgnoresAfterThird | app.py:126-156 | paragraphs after the third marker do not affect the result |
| Sections.ConvertFaqIsRef | app.py:151-174 | the FAQ of the result is the reference pairing of the tagged items, one pair per question |
| Sections.Advance | app.py:122-156 | the imperative loop body updates the loop's variables exactly as `Step` does, so it keeps `Inv` and the growth facts proved of `Step` |
| Sections.WalkParagraphs | app.py:115-156 | the imperative loop, from the initial variables, ends in the state of `Walk` over the whole document |
| Sections.ConvertSections | app.py:113-180 | the imperative conversion returns exactly `Convert(doc)`: head and text joined and stripped, the FAQ paired by the reference rule, and only `p` elements in the head |

## Left out

- The Flask application, CORS, the `/parse-docx` route, upload validation, temporary files and JSON responses (`app.py:1-7`, `182-205`) are HTTP and file I/O, not conversion logic.
- Loading the document with `Document(doc_path)` (`app.py:114`) is a call into the python-docx parser. The conversion takes the already parsed paragraph sequence as its input.
- The hyperlink XPath and relationship lookup (`app.py:16-19`) calls into lxml and python-docx. Each run carries its resolved target as `link: Option<string>`. `None` stands for a run with no hyperlink, a hyperlink with no relationship id, or an empty target; these fall through to the span path, as at `app.py:21`.
- A relationship id that the part's relationships do not hold makes `related_parts[r_id]` raise `KeyError` at `app.py:19`, which aborts the whole conversion. This failure is not modelled: every link in the model is resolved.
- The point size formatting `{run.font.size.pt:.2f}` and the bare `except` around it (`app.py:45-49`) involve floating point and library attribute access. The size is an optional pre-formatted string, and the failing-attribute path is not modelled.
- `strip()` and `lower()` are modelled on ASCII: the whitespace set is space, `\t` through `\r`, and `\x1c` through `\x1f`, and only `A`-`Z` are lower-cased. Unicode whitespace and case mappings are not modelled.
- A paragraph's text is the concatenation of its runs' texts. Text that python-docx reports for hyperlinks but not among the paragraph's runs is not modelled.
- The numbering properties `numPr` and `ilvl` are a single optional level: absent numbering is `None`, and a missing `ilvl` is level 0. `numPr` truthiness for an element with no children is not modelled separately.
- Runs.StyleString: the read-back holds only when no attribute value contains `;`. The style string cannot be split unambiguously otherwise, and the code does not escape values.
- Runs.SpanCase: relates the body back to the text only for single-line text. Line breaking drops blank lines and strips the others, so multi-line text cannot be recovered. Its style read-back holds only when no attribute value contains `;`, as for Runs.StyleString.
- Faq.PairFaqIsRef: needs non-empty question markup. A question with empty markup would be falsy and dropped from the pending slot. The paragraph loop never produces one (`Sections.Inv`, used by `Sections.ConvertFaqIsRef`).
- The `li` colour attribute and `wrap_list` are exact functions of their inputs. The model states their shape, not any HTML validity of the resulting markup.
