# Smart ATS pipeline — a Dafny model

Smart ATS is a small Streamlit application that scores a résumé against a job
description with a hosted generative-language model (Gemini) and asks the
same model to rewrite the résumé. This project models the deterministic
logic of its single source file, `app.py`, and proves properties of it:

- **Completion client** (`Completion`): `get_gemini_response`, a bounded retry
  loop around one service call, with a 2-second pause between attempts and an
  error-prefixed string once every attempt has raised; and `optimize_resume`,
  which sends the optimisation prompt through it.
- **Text extractor** (`Extraction`): `input_pdf_text`, direct extraction of the
  pages' text layers, accepted only when it holds a non-whitespace character,
  with an OCR fallback whose failure yields an error-prefixed string.
- **Prompt builder** (`Prompts`): the evaluation template (`input_prompt.format`)
  and the optimisation f-string, as templates of literal text and named slots.
- **Response interpreter** (`Interpretation`): `safe_json_parse` with the greedy
  `\{.*\}` recovery and its two error records, and the normalisation of the
  `JD Match` field (`int(value.replace("%", "").strip())`).
- **Story building** (`Story`): the loop of `generate_pdf` that makes one
  paragraph and one spacer per non-blank line.
- **Python string semantics** (`PyText`): `str.isspace`, `strip`, `split`,
  `join`, `replace(c, "")`, `+=` concatenation, `int()` and `str()` on
  integers, as far as the application uses them.

The external services are oracles given as data: the generative service is a
function from (request, attempt number) to "raised with a message" or
"returned a response"; the PDF reader, the page renderer and the OCR engine
are given by what they produce for the uploaded document; `json.loads` is a
partial function from strings to values of an unspecified type. The side
effects of the retry loop (its calls and its sleeps) are recorded as a trace
of events.

Points where the model follows the letter of `app.py`:

- An exception in the direct-extraction stage is swallowed and the OCR stage
  runs (`app.py:54-55`); only an OCR-stage exception yields an error string.
- The percentage normalisation removes every `%`, wherever it stands, not
  only a trailing one (`app.py:193`); so `"8%3"` normalises to 83.
- Indexing an empty `parts` container of the first candidate raises inside
  the `try` block (`app.py:36`), so it is retried like any other exception.
- With `retries <= 0` the loop body never runs and the function returns
  `None` (modelled as `None` of an `Option`).

## Model

| member | source | states |
|---|---|---|
| Completion.GetGeminiResponse | app.py:22-42 | At most `retries` calls, all with the same prompt and JSON mode; none and no result when `retries <= 0`; every attempt before the last one made raised; the last one made is the first success and its text is returned, or it is attempt `retries`, it raised, and the result is the error prefix followed by its message; calls are separated by 2-second pauses and no pause follows the last call; when every attempt raises, all `retries` attempts are made |
| Completion.ScheduleShape | app.py:38-40 | The event trace of `n > 0` attempts alternates call and 2-second pause, starting and ending with a call: exactly `n` calls and `n - 1` pauses, never a pause after the last call |
| Completion.RetriedCounts | app.py:25-40 | After `k` failed non-final attempts the trace holds `k` calls and `k` pauses, and one more call makes `k + 1` calls |
| Completion.RetriedAt | app.py:38-40 | The trace of `k` failed non-final attempts has calls at even positions and pauses at odd positions |
| Completion.OptimizeResume | app.py:67-104 | Between one and three calls, each carrying the optimisation prompt for the résumé and job description without JSON mode; every attempt before the last one made raised; the last one made is the first success and its text is returned, or it is the third attempt, it raised, and the result is the error prefix with its message |
| Completion.ResponseTextCases | app.py:35-37 | With candidates, an attempt yields the first part of the first candidate, or fails with the library's indexing error when that candidate has no part; without candidates, it fails exactly when reading `text` raises, and otherwise yields that text, with `None` read as `""` |
| Extraction.DirectText | app.py:47-55 | The direct stage gives a text only when the reader opens, no page raises and the text is not all whitespace, and it does give one in that case |
| Extraction.OcrText | app.py:58-65 | A failing renderer gives the OCR prefix and its message; images that are all recognised give their texts concatenated in order; otherwise the result is the prefix and the message of a failing image all of whose predecessors were recognised |
| Extraction.ExtractDirect | app.py:47-55 | Returns the page texts concatenated in page order, a page without text counting as `""`, exactly when the reader opens, no page raises and the text strips to something non-empty; otherwise falls through (`None`) |
| Extraction.ExtractOcr | app.py:58-65 | Returns the recognised texts concatenated in page order, even when empty, or the OCR error prefix followed by the message of the renderer's exception or of the first failing image |
| Extraction.InputPdfText | app.py:45-65 | The direct text when the direct stage is accepted (the OCR results then play no part); the OCR stage's result otherwise |
| Extraction.FirstFailure | app.py:61-65 | The position of the first image whose recognition raises: every earlier image was recognised |
| Extraction.ConcatAllSpace | app.py:51-52 | The concatenated text is all whitespace exactly when every page text is |
| Extraction.DirectAcceptedIff | app.py:47-55 | The direct stage is accepted exactly when the reader opens, no page raises and some page yields a non-whitespace character |
| Extraction.DirectKeepsPageOrder | app.py:49-53 | Every page's text appears unchanged in the accepted direct text, at the offset given by the pages before it |
| Extraction.OcrKeepsPageOrder | app.py:60-63 | Every recognised image text appears unchanged in the OCR result, at the offset given by the images before it |
| Extraction.OcrErrorIndistinguishable | app.py:62-65 | A page recognised as the error prefix plus `m` yields the same string as a renderer failing with `m`: failure is signalled in-band |
| Prompts.Format | app.py:179 | Formatting succeeds exactly when every slot of the template has an argument |
| Prompts.FormatAppend | app.py:179 | Formatting a concatenation of templates concatenates the formatted parts |
| Prompts.FormatFive | app.py:137-157 | A literal-slot-literal-slot-literal template formats to the literals with the two arguments spliced in verbatim |
| Prompts.EvaluationPrompt | app.py:137-157 | The evaluation prompt is the fixed introduction, the résumé text, the fixed middle, the job description and the fixed JSON-shape request, in that order, inputs unchanged |
| Prompts.OptimizationPrompt | app.py:70-103 | The optimisation prompt is the fixed guidelines, the job description, the fixed middle, the current résumé and the fixed closing request, inputs unchanged |
| Prompts.EvaluationPromptRecoverable | app.py:145-149 | The résumé text and the job description can be read back from the evaluation prompt at fixed offsets |
| Prompts.EvaluationPromptInjective | app.py:137-157 | For résumé texts of equal length, equal evaluation prompts come only from equal inputs |
| Interpretation.FirstIndexOf | app.py:111 | The position of the first occurrence of a character, or the length when it does not occur |
| Interpretation.LastIndexOf | app.py:111 | The position of the last occurrence of a character, or -1 when it does not occur |
| Interpretation.BraceSearch | app.py:111 | `re.search(r"\{.*\}", s, re.DOTALL)`: no result exactly when no `{` is followed by a `}`; otherwise a match that starts at the leftmost possible start and, the star being greedy, ends at the furthest possible end |
| Interpretation.SafeJsonParse | app.py:106-117 | Every error record carries the untouched response as `raw`, occurs only when the whole response does not decode, and is "Invalid response format" exactly when the pattern finds no span, "Failed to parse JSON" otherwise, and then only when the span does not decode either; a decoded value is that of the whole response or, when that fails, that of the span found |
| Interpretation.SpanFallback | app.py:110-116 | Once the whole response fails to decode and the pattern finds a span, the result is the span decoded when it decodes and the "Failed to parse JSON" record otherwise |
| Interpretation.WholeResponseFirst | app.py:108-109 | A response that decodes as a whole is returned decoded |
| Interpretation.EmbeddedSpan | app.py:111-112 | With no `{` before and no `}` after an object, the pattern's span is exactly that object |
| Interpretation.EmbeddedObjectRecovered | app.py:110-114 | An object wrapped in prose (no `{` before it, no `}` after it) is decoded as if it had been sent alone |
| Interpretation.InvalidFormatIff | app.py:110-117 | The "Invalid response format" record comes back exactly when the response does not decode and no `{` is followed by a `}` |
| Interpretation.DecodedFromInfix | app.py:108-114 | A decoded value is the decoding of the whole response or of an infix of it |
| Interpretation.MatchPercent | app.py:193 | A missing or non-string field never normalises, and a field that normalises holds a decimal digit |
| Interpretation.MatchPercentOfRendered | app.py:193 | Any integer (no digit limit; see Left out) in decimal, with whitespace and percent signs around it (`"83%"`, `"83"`, `" 83 % "`), normalises to that integer |
| Interpretation.WithoutDigitNoValue | app.py:192-197 | A field without a decimal digit never normalises, and the raw record is shown instead |
| Interpretation.MatchPercentRejectsNotApplicable | app.py:193-197 | `"N/A"` does not normalise |
| Interpretation.PercentSignsIgnoredAnywhere | app.py:193 | A percent sign anywhere in the field is ignored |
| Story.ParagraphTexts | app.py:126-128 | There are never more paragraph texts than lines |
| Story.BuildStory | app.py:124-129 | For the `k`-th non-blank line of `text.split("\n")`, the story holds the paragraph of its stripped text at position `2k` and the 1×12 spacer at `2k + 1`, and is twice as long as the number of non-blank lines |
| Story.LayoutAt | app.py:126-129 | Laying out paragraph texts puts each text's paragraph at an even position followed by the spacer |
| Story.LayoutStep | app.py:127-129 | A non-blank line appends its paragraph and the spacer; a blank line appends nothing |
| Story.ParagraphTextsAppend | app.py:126-129 | The paragraphs of two line lists in sequence are those of the first followed by those of the second: order is kept |
| Story.ParagraphTextsStripped | app.py:127-128 | Every paragraph text is non-empty and has no surrounding whitespace |
| Story.ParagraphCount | app.py:126-129 | There is one paragraph per non-blank line; blank lines contribute none |
| Story.StoryReproducesLines | app.py:126-129 | Stripped, non-blank lines joined by line breaks come back as the paragraph texts, unchanged and in order |
| Story.KeptLines | app.py:127-128 | Stripped, non-blank lines are all kept, unchanged |
| Story.FiveLines | app.py:126-129 | Of five lines whose second and fourth are blank, the other three make the paragraphs |
| Story.ExampleParagraphs | app.py:126-129 | The lines "Alpha", "", "  Beta ", " \t", "Gamma" give the paragraphs "Alpha", "Beta", "Gamma" |
| Story.ThreeLinesTwoBlanks | app.py:126-129 | A text of three non-blank and two blank lines gives three paragraphs, in order |
| PyText.LeadingSpace | app.py:52 | The number of leading whitespace characters: all of them are whitespace and the next one is not |
| PyText.TrailingSpace | app.py:52 | The number of trailing whitespace characters: all of them are whitespace and the one before is not |
| PyText.Strip | app.py:52 | `strip()` never lengthens a string and leaves no whitespace at either end |
| PyText.StripIsTrimmedInfix | app.py:127-128 | `strip()` gives the infix left when the leading and trailing whitespace is removed, and it neither starts nor ends with whitespace |
| PyText.StripEmptyIff | app.py:52 | A string strips to nothing exactly when it is all whitespace |
| PyText.StripIdempotent | app.py:193 | Stripping twice is stripping once |
| PyText.StripUnpadded | app.py:193 | A string without whitespace at its ends is its own strip |
| PyText.StripPadded | app.py:193 | Whitespace around an unpadded string is exactly what `strip()` removes |
| PyText.ConcatEmptyIff | app.py:51 | Accumulating with `+=` gives the empty string exactly when every piece is empty |
| PyText.ConcatAppend | app.py:51 | Accumulating with `+=` over two lists in sequence concatenates the two results |
| PyText.PieceAtOffset | app.py:51 | Accumulation keeps every piece, unchanged and in order, at its offset |
| PyText.SplitCount | app.py:126 | `split` on a one-character separator gives one part more than there are separators |
| PyText.JoinCount | app.py:126 | Joining separator-free parts puts exactly one separator between two parts, as many as `split` needs to give them back |
| PyText.JoinSplit | app.py:126 | Joining the parts of a split gives the original back, and no part holds the separator |
| PyText.SplitJoin | app.py:126 | Separator-free parts survive a join followed by a split |
| PyText.SplitSeparatorFree | app.py:126 | A string without the separator splits into itself alone |
| PyText.RemoveAll | app.py:193 | `replace(c, "")` leaves no `c` and never lengthens the string |
| PyText.RemoveAllKeeps | app.py:193 | `replace(c, "")` keeps only characters of the original |
| PyText.RemoveAbsent | app.py:193 | Removing a character that does not occur changes nothing |
| PyText.RemoveAllAppend | app.py:193 | Removing a character distributes over concatenation |
| PyText.DecimalString | app.py:195 | The decimal rendering of a natural number is a non-empty string of digits |
| PyText.IntString | app.py:195 | `str(i)` starts with a minus sign exactly when `i` is negative, and every other character is a decimal digit |
| PyText.DecimalRoundTrip | app.py:193 | The value of a number's decimal rendering is that number |
| PyText.DecimalStringIsRun | app.py:193 | A decimal rendering is a digit run `int()` accepts, with the number as its value |
| PyText.LiteralRoundTrip | app.py:193 | The literal `str(i)` denotes `i` |
| PyText.IntStringRoundTrip | app.py:193 | `int(str(i)) == i` for every integer (no digit limit; see Left out) |
| PyText.ParseInt | app.py:193 | `int()` accepts no string without a decimal digit |

## Left out

- Streamlit interface (`app.py:161-233`): title, text area, file uploader, buttons, spinners, warnings, gauge, metric, download buttons and `st.session_state`. This includes the guard at `app.py:173` and the range that `st.progress` accepts for the gauge value; both belong to the interface glue.
- The generative-service client (`app.py:18`, `24`, `28-33`): model name, API key and generation configuration are not modelled. A request records only the prompt and whether JSON output was asked for. What the service does on each attempt is an oracle.
- Completion.ResponseText: the behaviour of the response's `text` property (`app.py:37`) belongs to the service library, so the oracle supplies it, including its exceptions.
- `time.sleep(2)` (`app.py:40`): recorded as a pause event in the trace, not as elapsed time.
- PyPDF2, `convert_from_bytes` and `pytesseract` (`app.py:48`, `59`, `62`): what they produce for the document is given as data. Reading the upload stream a second time for OCR (`app.py:59`), after the PDF reader has consumed it, is not modelled.
- `json.loads` (`app.py:109`, `114`): an uninterpreted partial function; no JSON grammar is modelled.
- reportlab (`app.py:121-123`, `131-133`): page size, layout, pagination, the markup that `Paragraph` interprets, and the byte buffer. Only the story list is modelled.
- `@st.cache_data` memoisation (`app.py:44`) and loading the environment (`app.py:17-18`).
- PyText.ParseInt: only ASCII decimal digits are modelled. Python's `int()` also accepts other Unicode decimal digits. The limit on integer-string conversion of CPython 3.11 and later (4300 digits by default, configurable at run time) is not modelled either: a longer digit run is accepted here, where CPython raises `ValueError` and the application would show the raw record.
- PyText.IntString: renders every integer. CPython raises `ValueError` for `str()` of an integer beyond its conversion limit, so `IntStringRoundTrip` and `MatchPercentOfRendered` hold for all integers only in the model.
- The exception messages of the modelled failures are the oracle's strings as `str(e)` gives them, including the message of the exception that indexing a candidate's empty parts container raises, which each candidate carries; Python's exception classes are not modelled.
