/**
 The knowledge-base update pipeline of `KnowledgeBase` (kb.py).

 The question/answer store is the CSV file `questions.csv`, which the code only
 ever appends to. The model records what an operation does as a trace of
 events: a request to the language model (`Asked`), a row appended to the
 store (`Appended`), and, in the Streamlit variant, a progress report
 (`Reported`). An operation that raises stops where it is; the rows it
 appended before that stay in the file, so a run carries both its events and
 the error, if any, that ended it.

 The language model is a parameter: a total function from the request (the
 number of questions asked for and the user message) to its JSON reply. The
 date prefix `CUR_DATE_TEXT`, computed once from the clock at import time, is a
 parameter too.
 */
module Kb {
  import opened Text

  /** Characters of stripped text per question asked for (EXTRACT_QUESTION_PER_CHARS). */
  const ExtractQuestionPerChars: nat := 80
  /** Most questions asked for in one extraction (EXTRACT_QUESTION_LIMIT). */
  const ExtractQuestionLimit: nat := 15
  /** Shortest stripped question that is stored (QUESTION_MIN_CHARS). */
  const QuestionMinChars: nat := 10
  /** Shortest stripped answer that is stored (ANSWER_MIN_CHARS). */
  const AnswerMinChars: nat := 10
  /** What PRIORITY_ANSWER puts in front of a priority answer. */
  const PriorityPrefix: string := "This information is verified and overrides others. "

  datatype Option<T> = None | Some(value: T)

  /** One CSV row: the stored question and the stored answer. */
  datatype Row = Row(question: string, answer: string)

  /** A chat-completion request. The system message is SYSTEM_PROMPT with
      `questionNum` filled in, so the number stands for it. */
  datatype Request = Request(questionNum: nat, userMessage: string)

  /** The completion's content after `json.loads`: either it is not a JSON
      object at all, or the values of its 'questions' and 'answers' keys, each
      missing or a list of strings. */
  datatype Reply =
    | Unparsable
    | Parsed(questions: Option<seq<string>>, answers: Option<seq<string>>)

  /** The exceptions the pipeline lets escape. */
  datatype Error =
    | BadJson              // json.loads fails, or the result has no `get`
    | MissingList          // `len(None)`: a 'questions' or 'answers' key is absent
    | IndexError(index: nat) // `questions[i]` or `answers[i]` past the end of its list

  datatype Event =
    | Asked(request: Request)
    | Appended(row: Row)
    | Reported(percent: int)

  /** The events an operation produced, in order, and the error that stopped it. */
  datatype Run = Run(events: seq<Event>, error: Option<Error>)

  /** What the code reads from its surroundings: the date prefix and the model. */
  datatype Env = Env(date: string, llm: Request -> Reply)

  /** Python truthiness of the optional `topic` argument. */
  predicate Truthy(topic: Option<string>)
  {
    topic.Some? && |topic.value| > 0
  }

  /** The rows a run appends, in order. */
  function RowsOf(events: seq<Event>): (rows: seq<Row>)
    ensures |rows| <= |events|
  {
    if events == [] then []
    else (if events[0].Appended? then [events[0].row] else []) + RowsOf(events[1..])
  }

  /** The model requests a run issues, in order. */
  function Requests(events: seq<Event>): (reqs: seq<Request>)
    ensures |reqs| <= |events|
  {
    if events == [] then []
    else (if events[0].Asked? then [events[0].request] else []) + Requests(events[1..])
  }

  /** The store after a run: the CSV file is opened in append mode, so what was
      there stays and the run's rows follow. */
  function Commit(store: seq<Row>, events: seq<Event>): (after: seq<Row>)
    ensures |after| == |store| + |RowsOf(events)|
    ensures after[..|store|] == store
    ensures after[|store|..] == RowsOf(events)
  {
    store + RowsOf(events)
  }

  /** The number of questions `_extract_data_from_text` asks for:
      `min(int(len(text.strip()) / 80), 15)`. */
  function QuestionNum(text: string): (n: nat)
    ensures n <= ExtractQuestionLimit
    ensures |Strip(text)| < ExtractQuestionPerChars ==> n == 0
  {
    var q := |Strip(text)| / ExtractQuestionPerChars;
    if q < ExtractQuestionLimit then q else ExtractQuestionLimit
  }

  /** The user message of the extraction request. In
      `f"Text: {text}" + f"\nTopic/Source: {topic}" if topic else ''` the
      conditional expression binds loosest, so it guards the whole concatenation. */
  function UserMessage(text: string, topic: Option<string>): (m: string)
    ensures m == [] <==> !Truthy(topic)
  {
    if Truthy(topic) then "Text: " + text + "\nTopic/Source: " + topic.value else ""
  }

  /** The single model request of one extraction. */
  function RequestFor(text: string, topic: Option<string>): Request
  {
    Request(QuestionNum(text), UserMessage(text, topic))
  }

  predicate AnswerTooShort(answer: string)
  {
    |Strip(answer)| < AnswerMinChars
  }

  predicate QuestionTooShort(question: string)
  {
    |Strip(question)| < QuestionMinChars
  }

  /** The row `update_embeddings` writes: both cells carry the date prefix, the
      raw (unstripped) strings are kept, and a priority answer is wrapped in
      PRIORITY_ANSWER. */
  function StoredRow(date: string, question: string, answer: string, priority: bool): (row: Row)
    ensures |row.question| == |date| + |question| && |row.answer| >= |date| + |answer|
    ensures row.question[..|date|] == date && row.question[|date|..] == question
    ensures row.answer[..|date|] == date && row.answer[|row.answer| - |answer|..] == answer
    ensures priority ==> row.answer[|date|..] == PriorityPrefix + answer
    ensures !priority ==> row.answer[|date|..] == answer
  {
    Row(date + question, date + (if priority then PriorityPrefix + answer else answer))
  }

  /** `update_embeddings(question, answer, priority)` (kb.py:69-88). An answer
      that is too short, or a question that is too short without priority, is
      skipped. A short question with priority first runs an extraction on the
      answer text; as there is no `return` after it, the pair itself is then
      still appended, with the priority-wrapped answer. */
  function Update(env: Env, question: string, answer: string, priority: bool): (r: Run)
    // a skipped answer costs nothing, whatever the question and flag
    ensures AnswerTooShort(answer) ==> r == Run([], None)
    // without priority there is no extraction, and the append is taken not to
    // raise: no failure and at most one row
    ensures !priority ==> r.error.None? && |r.events| <= 1
    ensures !priority ==> forall j :: 0 <= j < |r.events| ==> r.events[j].Appended?
    // recursion depth one: at most one model request, and only as the first event
    ensures forall j :: 0 < j < |r.events| ==> r.events[j].Appended?
    // a call that is not skipped and does not fail ends with its own row
    ensures r.error.None? && !AnswerTooShort(answer) && (priority || !QuestionTooShort(question))
      ==> r.events != [] && r.events[|r.events| - 1] == Appended(StoredRow(env.date, question, answer, priority))
    decreases if priority then 3 else 0, 0
  {
    if AnswerTooShort(answer) then Run([], None)
    else if QuestionTooShort(question) && !priority then Run([], None)
    else
      var before := if QuestionTooShort(question) then Extract(env, answer, None) else Run([], None);
      if before.error.Some? then before
      else Run(before.events + [Appended(StoredRow(env.date, question, answer, priority))], None)
  }

  /** `_extract_data_from_text(text, topic)` (kb.py:51-67): one model request,
      then the first `QuestionNum(text)` pairs of the reply are fed to
      `update_embeddings` without priority. */
  function Extract(env: Env, text: string, topic: Option<string>): (r: Run)
    ensures r.events != [] && r.events[0] == Asked(RequestFor(text, topic))
    ensures forall j :: 0 < j < |r.events| ==> r.events[j].Appended?
    decreases 2, 0
  {
    var request := RequestFor(text, topic);
    match env.llm(request)
    case Unparsable => Run([Asked(request)], Some(BadJson))
    case Parsed(questions, answers) =>
      if questions.None? || answers.None? then Run([Asked(request)], Some(MissingList))
      else
        var rest := Pairs(env, questions.value, answers.value, 0, request.questionNum);
        Run([Asked(request)] + rest.events, rest.error)
  }

  /** The loop `for i in range(question_num)` of kb.py:65-67, from index `i` on. */
  function Pairs(env: Env, questions: seq<string>, answers: seq<string>, i: nat, n: nat): (r: Run)
    ensures forall j :: 0 <= j < |r.events| ==> r.events[j].Appended?
    decreases 1, if i <= n then n - i else 0
  {
    if i >= n then Run([], None)
    else if i >= |questions| || i >= |answers| then Run([], Some(IndexError(i)))
    else
      // a non-priority update does not fail in this model (see its contract), so the loop goes on
      var one := Update(env, questions[i], answers[i], false);
      var rest := Pairs(env, questions, answers, i + 1, n);
      Run(one.events + rest.events, rest.error)
  }

  /** `_extract_data_from_page` (kb.py:46-49): the page's text is extracted with
      the file name as topic; the page numbers only feed the log line. */
  function ExtractFromPage(env: Env, fileName: string, page: string): (r: Run)
    ensures r.events != [] && r.events[0] == Asked(RequestFor(page, Some(fileName)))
    ensures forall j :: 0 < j < |r.events| ==> r.events[j].Appended?
  {
    Extract(env, page, Some(fileName))
  }

  /** `update_from_pdf` (kb.py:39-44) over the document's page texts. */
  function UpdateFromPdf(env: Env, fileName: string, pages: seq<string>): (r: Run)
    ensures pages == [] ==> r == Run([], None)
    ensures pages != [] ==> r.events != [] && r.events[0] == Asked(RequestFor(pages[0], Some(fileName)))
    ensures forall j :: 0 <= j < |r.events| ==> !r.events[j].Reported?
  {
    PagesFrom(env, fileName, pages, 0)
  }

  /** The page loop of kb.py:42-43, from page index `k` on; an exception on a
      page ends the loop. */
  function PagesFrom(env: Env, fileName: string, pages: seq<string>, k: nat): (r: Run)
    ensures forall j :: 0 <= j < |r.events| ==> !r.events[j].Reported?
    decreases |pages| - k
  {
    if k >= |pages| then Run([], None)
    else
      var page := ExtractFromPage(env, fileName, pages[k]);
      if page.error.Some? then page
      else
        var rest := PagesFrom(env, fileName, pages, k + 1);
        Run(page.events + rest.events, rest.error)
  }
}
