# AI-EP knowledge base: the update pipeline in Dafny

The AI-EP knowledge base keeps a question/answer store in the CSV file
`questions.csv` and answers users' questions by retrieval over that store. This
project models how the store grows:

- `update_embeddings(question, answer, priority)` validates a pair and appends it;
- `_extract_data_from_text(text, topic)` asks a language model for up to 15
  question/answer pairs about a text and feeds them to `update_embeddings`;
- `update_from_pdf` runs the extraction page by page over a document;
- the web front-end's subclass `StreamlitKB` also reports a progress percentage
  before each page.

An operation is modelled as a trace of events: `Asked` (one request to the
language model), `Appended` (one CSV row) and `Reported` (one progress value).
A run also records the exception, if any, that ended it. The file is only ever
appended to, so the store after a run is the old store followed by the run's
rows, including the rows written before a failure.

The language model is a parameter: a total function from a request to its
parsed reply. The date prefix `CUR_DATE_TEXT` is a parameter too. Python's
`str.strip()` is modelled exactly over the code points that `str.isspace()`
accepts.

Files:

- `text.dfy` (module `Text`): stripping, with its characterisation and uniqueness.
- `kb.dfy` (module `Kb`): the constants, the data model, and the operations of `kb.py`.
- `kb_lemmas.dfy` (module `KbLemmas`): the properties of those operations. They
  are stated against `Admitted`, a reference filter over the pairs.
- `streamlit_kb.dfy` (module `StreamlitKb`): the overrides in `stKB.py` and the
  progress properties.

The model follows the code where its behaviour is easy to misread:

- A priority call with a short question has no `return` after its extraction.
  The short-question pair itself is therefore still appended, with the
  priority-wrapped answer (`Kb.Update`, `KbLemmas.PriorityShortQuestion`).
- The user message is
  `f"Text: {text}" + f"\nTopic/Source: {topic}" if topic else ''`. The
  conditional expression binds loosest, so without a topic the message is
  empty. The extraction that a priority call makes therefore sends the model
  none of the answer text (`Kb.UserMessage`).
- A text shorter than 80 stripped characters asks for 0 questions, but the model
  is still called.
- `update_from_pdf` passes `page_count + 1` as the total, so a three-page
  document reports 0, 25 and 50 percent, never 100 (`StreamlitKb.ThreePageDocument`).
- A reply whose lists are shorter than the requested count raises `IndexError`.
  The pairs before that index have already been appended
  (`KbLemmas.PairsMatchReference`).

## Model

| member | source | states |
|---|---|---|
| `Text.Strip` | kb.py:70 | `strip()` never makes a text longer. `Text.StripRemovesOuterSpace` and `Text.StripUnique` say which slice it returns. |
| `Text.StripRemovesOuterSpace` | kb.py:70 | `strip()` returns the slice of its argument that starts at the first non-whitespace code point. All code points outside the slice are whitespace, and a non-empty result starts and ends with non-whitespace. |
| `Text.StripUnique` | kb.py:70 | Exactly one slice meets the stripping conditions, so any slice with whitespace-only borders and non-whitespace ends equals `strip()`'s result. |
| `Text.StripIdempotent` | kb.py:52 | Stripping an already stripped text changes nothing. |
| `Kb.QuestionNum` | kb.py:52-53 | The question count never exceeds 15, and it is 0 for stripped texts under 80 characters. |
| `KbLemmas.QuestionNumMeaning` | kb.py:52-53 | Below the cap, the count is the number of whole 80-character blocks in the stripped text. The cap of 15 is reached exactly when the stripped text has 1200 characters or more. |
| `Kb.UserMessage` | kb.py:60 | The user message is empty exactly when the topic is missing or empty. |
| `KbLemmas.UserMessageParts` | kb.py:60 | With a topic, the message is `Text: `, then the text, then `\nTopic/Source: `, then the topic, each at its position. Without one, the message is empty. |
| `Kb.StoredRow` | kb.py:81-86 | Both cells start with the date prefix. The question is kept unstripped, and the answer comes after the priority sentence exactly when priority is set. |
| `Kb.Commit` | kb.py:84-86 | Appending to the CSV file keeps every earlier row in place. After them come exactly the run's rows, in order. |
| `Kb.Update` | kb.py:69-88 | A too-short answer produces nothing. A non-priority call appends at most one row and raises nothing (the append is assumed not to raise; see `Kb.Update` under Left out). A model request can only come first. A call that is not skipped and succeeds ends with its own row. |
| `KbLemmas.SkippedUpdateLeavesStore` | kb.py:70-80 | A too-short answer, or a too-short question without priority, leaves the store unchanged, asks nothing and raises nothing. |
| `KbLemmas.UpdateWithoutPriority` | kb.py:69-86 | Without priority, a call stores the dated pair exactly when the reference filter admits it, and nothing otherwise. |
| `KbLemmas.UpdateAppendsOneRow` | kb.py:81-86 | With a long enough answer and question, the store grows by exactly the dated row (wrapped when priority is set), and the model is not asked. |
| `KbLemmas.PriorityShortQuestion` | kb.py:74-86 | A priority call with a short question asks the model once, with an empty user message. A failed extraction is the call's failure. Otherwise the pair follows the extracted rows. |
| `Kb.Extract` | kb.py:51-67 | An extraction first asks the model for `QuestionNum(text)` pairs with the user message, and does nothing after that but append rows. |
| `Kb.Pairs` | kb.py:65-67 | The pair loop only appends rows and never asks the model. |
| `KbLemmas.PairsStep` | kb.py:65-67 | One turn of the loop stores pair `i` when admissible, then goes on to the next index with the same outcome. |
| `KbLemmas.PairsMatchReference` | kb.py:65-67 | The loop stores the admitted pairs up to the requested count or the shorter list's end, whichever comes first. It raises `IndexError` at that index when a list is too short. |
| `KbLemmas.ExtractMatchesReference` | kb.py:55-67 | Case by case on the reply: an unparsable reply gives `BadJson`, and a missing list gives `MissingList`. Otherwise the request is followed by the admitted pairs of the available prefix, with `IndexError` when the lists fall short. |
| `KbLemmas.ExtractAsksOnce` | kb.py:55-67 | An extraction makes exactly one model request, because the updates it triggers carry no priority. |
| `KbLemmas.ExtractStoresAdmittedPairs` | kb.py:51-67 | When both lists hold enough pairs, an extraction succeeds and the store grows by exactly the admitted pairs among the first `QuestionNum(text)`. |
| `Kb.ExtractFromPage` | kb.py:46-49 | A page's extraction first asks the model about the page's text, with the file name as topic. Every later event is an appended row. |
| `Kb.UpdateFromPdf` | kb.py:39-44 | An empty document changes nothing and raises nothing. Otherwise the first event is the request for the first page. The base class never reports progress. |
| `KbLemmas.PagesStep` | kb.py:42-43 | One page asks the model once with the file name as topic. A failure on it ends the loop. Otherwise the later pages' requests follow, and the loop's error is theirs. |
| `KbLemmas.PagesStepEvents` | kb.py:42-43 | A page that raises ends the loop with that page's own events and error. Otherwise the page's events come first, then the later pages' events, and the loop's error is the later pages' error. |
| `KbLemmas.PageRequests` | kb.py:42-49 | The reference request list for a run of pages: one request per page, in page order, each for that page's text with the file name as topic. |
| `KbLemmas.FirstFailure` | kb.py:42-43 | The reference position of the first page that raises: every page before it succeeds, and the page at it raises. It equals the page count when none raises. |
| `KbLemmas.Reached` | kb.py:42-43 | A loop that stops at the first exception gets through the pages before the one that raises, and that page too: every page it reaches except the last one succeeds, and the last one raises unless the loop got through all pages. |
| `KbLemmas.ReachedPagesAsk` | kb.py:42-49 | Extracting the first `m` pages, one after the other, makes exactly the reference requests for those pages. |
| `KbLemmas.PagesMatchReference` | kb.py:42-43 | The loop's events are the extractions of the pages it reaches, one page after the other, in page order. Its error is the error of the first page that raises, or none when no page raises. |
| `KbLemmas.PagesKeepEarlierRows` | kb.py:42-43 | A page that raises does not undo the earlier pages. After the loop, the store starts with the old rows, followed by the rows of every page before the one that raised, in page order. |
| `KbLemmas.PagesAskedInOrder` | kb.py:39-49 | The page loop reaches every page up to the first one that raises, and that one too. It asks once per reached page, in page order, with the file name as topic. Its events are the reached pages' extraction events, one page after the other. Its error is the error of the last reached page, and it is none exactly when no page raises. |
| `StreamlitKb.TruncDivRoundsTowardZero` | stKB.py:18 | Exact truncating division, the exact-arithmetic reading of `int(...)` at stKB.py:18: the quotient's magnitude is the whole number of times that `abs(b)` fits into `abs(a)`, and its sign is that of the exact quotient. |
| `StreamlitKb.ProgressMeaning` | stKB.py:18 | For page `cur >= 1` of a positive total, the percentage is the largest `p >= 0` with `p * total <= (cur - 1) * 100`. |
| `StreamlitKb.ProgressBounds` | stKB.py:18 | For a page number below the total, the percentage lies in [0, 100), and the first page reports 0. |
| `StreamlitKb.ProgressMonotone` | stKB.py:18 | A later page never reports a smaller percentage. |
| `StreamlitKb.UpdateFromPdf` | stKB.py:10-15 | An empty document changes nothing. Otherwise the upload starts by reporting 0 percent and then asks for the first page. |
| `StreamlitKb.ExtractFromPage` | stKB.py:17-20 | The override reports the page's percentage first, and then makes the base class's model request for the page. |
| `StreamlitKb.PagesStep` | stKB.py:13-20 | A page of the front-end loop adds one report to the base class's events for that page, with the same request and the same outcome. |
| `StreamlitKb.OverrideOnlyAddsReports` | stKB.py:10-20 | Without its progress reports, the front-end's page loop produces the base class's events and error. |
| `StreamlitKb.PagesReportInOrder` | stKB.py:13-19 | The loop reports one percentage per page it asks about. The `j`-th report is the one for page `j + 1` of `page_count + 1`. |
| `StreamlitKb.PagesReportFirst` | stKB.py:17-20 | Every model request comes right after a progress report. |
| `StreamlitKb.PageProgressIsSteady` | stKB.py:18 | The percentages of pages 1 to n, out of a total above n, start at 0, never decrease and stay below 100. |
| `StreamlitKb.UpdateFromPdfProgress` | stKB.py:10-20 | An upload makes one request per reached page, in page order. Each request is for that page's text with the file name as topic, and it comes right after the page's report. The percentages are those of pages 1, 2, … out of `page_count + 1`, and they are steady. Every page is reached unless one raises. |
| `StreamlitKb.ThreePageDocument` | stKB.py:12-18 | A three-page document reports 0, 25 and 50 percent, or a prefix of that list when a page raises. |

## Left out

- The OpenAI chat call is a parameter, a total function from request to reply. The model name, `response_format` and the wording of `SYSTEM_PROMPT` are not modelled; the requested count stands for the system message. Network and API errors are not modelled.
- `json.loads` and `data.get` are reduced to three outcomes:
  - the content is not a JSON object, which is the `BadJson` error;
  - a key is missing, so `len(None)` raises, which is the `MissingList` error;
  - both keys hold lists of strings.
  Lists with non-string items, which would make `strip()` raise, are not modelled.
- Other JSON shapes of `questions` or `answers` are not modelled either:
  - a number or a boolean makes `len()` raise `TypeError` (kb.py:64);
  - a JSON object makes `questions[i]` raise `KeyError` (kb.py:66), or passes silently when `question_num` is 0;
  - a string is indexed one character at a time (kb.py:66), so each character becomes a question or an answer.
- Python strings can hold lone surrogates (U+D800 to U+DFFF), and a Dafny `char` cannot. Texts containing them are not modelled.
- `_load_embeddings`, which rebuilds the FAISS index after each append and on construction, is not modelled. So are `_retrieve_info` and `generate_response` (retrieval and answer generation through LangChain). None of them changes the CSV store.
- `_log` and the Streamlit `st.write` override only print, so they are not modelled.
- PDF parsing with `fitz` is not modelled. A document is the sequence of its pages' extracted texts.
- CSV quoting by `csv.writer` is not modelled. A row is its two cells.
- `datetime.now()` and `strftime` are not modelled. The date prefix is a parameter.
- `main.py`, the Streamlit page, is not part of this model.
- `Kb.Update`: the append to `questions.csv` and the index rebuild by `_load_embeddings()` (kb.py:84-87) are assumed never to raise. In the source either can raise: a file error, or a failure of the embedding service or FAISS after the row is already written. Such an exception ends the pair loop (kb.py:65-67) and the page loop (kb.py:42-43) early, and the model does not cover that.
- `Text.Strip`: its own contract only bounds the result's length. `Text.StripRemovesOuterSpace`, `Text.StripUnique` and `Text.StripIdempotent` state what it returns.
- `Kb.PagesFrom`: its own contract only says that the base class's page loop reports no progress. `KbLemmas.PagesStep`, `KbLemmas.PagesStepEvents`, `KbLemmas.PagesMatchReference` and `KbLemmas.PagesAskedInOrder` state the rest. Keeping the recursive function's contract small keeps every proof about the loop small.
- `StreamlitKb.PagesFrom`: it has no contract of its own. `StreamlitKb.PagesStep`, `StreamlitKb.OverrideOnlyAddsReports`, `StreamlitKb.PagesReportInOrder` and `StreamlitKb.PagesReportFirst` state what it does.
- `StreamlitKb.TruncDiv`: it has no contract of its own. `StreamlitKb.TruncDivRoundsTowardZero` states it.
- `StreamlitKb.ProgressPercent`: it has no contract of its own. `StreamlitKb.ProgressMeaning`, `StreamlitKb.ProgressBounds` and `StreamlitKb.ProgressMonotone` state it.
- `Kb.QuestionNum`: `int(char_num / 80)` is computed in floating point. The model uses exact division, which agrees for every text shorter than 2^46 code points.
- `StreamlitKb.ProgressMeaning`: the source computes `(cur - 1) / total * 100` in floating point, dividing first. The model uses the exact quotient. The two can differ by one: page 30 of 100 gives `0.29 * 100 = 28.999…`, so the source reports 28 where the model says 29.
