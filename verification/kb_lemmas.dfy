/**
 Properties of the knowledge-base pipeline of module Kb, each stated against
 an independent description of what the code is meant to store: `Admitted`
 lists the rows a sequence of non-priority updates keeps, written as a filter
 over the pairs rather than as the index loop of the code.
 */
module KbLemmas {
  import opened Text
  import opened Kb

  /** The validation `update_embeddings` applies without priority. */
  predicate Admissible(question: string, answer: string)
  {
    !AnswerTooShort(answer) && !QuestionTooShort(question)
  }

  /** The rows non-priority updates store for the pairs `(questions[k], answers[k])`:
      the admissible pairs, in order, date-prefixed. */
  function Admitted(date: string, questions: seq<string>, answers: seq<string>): seq<Row>
    requires |questions| == |answers|
  {
    if questions == [] then []
    else
      (if Admissible(questions[0], answers[0]) then [StoredRow(date, questions[0], answers[0], false)] else [])
      + Admitted(date, questions[1..], answers[1..])
  }

  /** The events that append `rows`, one each. */
  function Appends(rows: seq<Row>): seq<Event>
  {
    seq(|rows|, k requires 0 <= k < |rows| => Appended(rows[k]))
  }

  function Min(a: int, b: int): int
  {
    if a <= b then a else b
  }

  // ---------------------------------------------------------------------------
  // The trace projections

  lemma {:induction false} RowsOfConcat(a: seq<Event>, b: seq<Event>)
    ensures RowsOf(a + b) == RowsOf(a) + RowsOf(b)
  {
    if a == [] {
      assert a + b == b;
    } else {
      var head := if a[0].Appended? then [a[0].row] else [];
      assert (a + b)[0] == a[0] && (a + b)[1..] == a[1..] + b;
      calc {
        RowsOf(a + b);
        head + RowsOf(a[1..] + b);
        { RowsOfConcat(a[1..], b); }
        head + (RowsOf(a[1..]) + RowsOf(b));
        (head + RowsOf(a[1..])) + RowsOf(b);
      }
    }
  }

  lemma {:induction false} RequestsConcat(a: seq<Event>, b: seq<Event>)
    ensures Requests(a + b) == Requests(a) + Requests(b)
  {
    if a == [] {
      assert a + b == b;
    } else {
      var head := if a[0].Asked? then [a[0].request] else [];
      assert (a + b)[0] == a[0] && (a + b)[1..] == a[1..] + b;
      calc {
        Requests(a + b);
        head + Requests(a[1..] + b);
        { RequestsConcat(a[1..], b); }
        head + (Requests(a[1..]) + Requests(b));
        (head + Requests(a[1..])) + Requests(b);
      }
    }
  }

  /** A trace of appends stores exactly its rows and asks nothing. */
  lemma {:induction false} AppendsProjections(rows: seq<Row>)
    ensures RowsOf(Appends(rows)) == rows
    ensures Requests(Appends(rows)) == []
  {
    if rows != [] {
      assert Appends(rows) == [Appended(rows[0])] + Appends(rows[1..]);
      AppendsProjections(rows[1..]);
    }
  }

  /** A trace made of appends only issues no model request. */
  lemma {:induction false} NoRequestsInAppends(events: seq<Event>)
    requires forall j :: 0 <= j < |events| ==> events[j].Appended?
    ensures Requests(events) == []
  {
    if events != [] {
      NoRequestsInAppends(events[1..]);
    }
  }

  lemma AppendsConcat(a: seq<Row>, b: seq<Row>)
    ensures Appends(a + b) == Appends(a) + Appends(b)
  {
  }

  lemma {:induction false} AdmittedConcat(date: string, q1: seq<string>, a1: seq<string>, q2: seq<string>, a2: seq<string>)
    requires |q1| == |a1| && |q2| == |a2|
    ensures Admitted(date, q1 + q2, a1 + a2) == Admitted(date, q1, a1) + Admitted(date, q2, a2)
  {
    if q1 == [] {
      assert q1 + q2 == q2 && a1 + a2 == a2;
    } else {
      var head := if Admissible(q1[0], a1[0]) then [StoredRow(date, q1[0], a1[0], false)] else [];
      assert (q1 + q2)[0] == q1[0] && (q1 + q2)[1..] == q1[1..] + q2;
      assert (a1 + a2)[0] == a1[0] && (a1 + a2)[1..] == a1[1..] + a2;
      calc {
        Admitted(date, q1 + q2, a1 + a2);
        head + Admitted(date, q1[1..] + q2, a1[1..] + a2);
        { AdmittedConcat(date, q1[1..], a1[1..], q2, a2); }
        head + (Admitted(date, q1[1..], a1[1..]) + Admitted(date, q2, a2));
        (head + Admitted(date, q1[1..], a1[1..])) + Admitted(date, q2, a2);
      }
    }
  }

  // ---------------------------------------------------------------------------
  // The question budget and the user message

  /** `QuestionNum` is the number of whole 80-character blocks of the stripped
      text, capped at 15; the cap is reached exactly from 1200 characters on. */
  lemma QuestionNumMeaning(text: string)
    ensures var n := QuestionNum(text);
      n < ExtractQuestionLimit ==> n * ExtractQuestionPerChars <= |Strip(text)| < (n + 1) * ExtractQuestionPerChars
    ensures QuestionNum(text) == ExtractQuestionLimit <==> |Strip(text)| >= ExtractQuestionLimit * ExtractQuestionPerChars
  {
  }

  /** With a topic, the message is the text and the topic behind their labels;
      without one (None or the empty string), it is empty, so the text never
      reaches the model. */
  lemma UserMessageParts(text: string, topic: Option<string>)
    ensures var m := UserMessage(text, topic);
      Truthy(topic) ==>
        && |m| == 6 + |text| + 15 + |topic.value|
        && m[..6] == "Text: "
        && m[6..6 + |text|] == text
        && m[6 + |text|..6 + |text| + 15] == "\nTopic/Source: "
        && m[6 + |text| + 15..] == topic.value
    ensures !Truthy(topic) ==> UserMessage(text, topic) == ""
  {
  }

  // ---------------------------------------------------------------------------
  // update_embeddings

  /** A call whose answer is too short, or whose question is too short without
      priority, leaves the store as it was and asks the model nothing. */
  lemma SkippedUpdateLeavesStore(store: seq<Row>, env: Env, question: string, answer: string, priority: bool)
    requires AnswerTooShort(answer) || (QuestionTooShort(question) && !priority)
    ensures var r := Update(env, question, answer, priority);
      Commit(store, r.events) == store && Requests(r.events) == [] && r.error.None?
  {
  }

  /** Without priority, `update_embeddings` stores the pair exactly when it is
      admissible, as the reference filter says. */
  lemma UpdateWithoutPriority(env: Env, question: string, answer: string)
    ensures Update(env, question, answer, false) == Run(Appends(Admitted(env.date, [question], [answer])), None)
  {
    assert [question][1..] == [] && [answer][1..] == [];
  }

  /** With a question long enough, a call that keeps its answer appends exactly
      one row, the date-prefixed pair (the answer wrapped when priority is set),
      behind the rows already stored, and asks the model nothing. */
  lemma UpdateAppendsOneRow(store: seq<Row>, env: Env, question: string, answer: string, priority: bool)
    requires !AnswerTooShort(answer) && !QuestionTooShort(question)
    ensures var r := Update(env, question, answer, priority);
      && r.error.None?
      && Commit(store, r.events) == store + [StoredRow(env.date, question, answer, priority)]
      && Requests(r.events) == []
  {
    var row := StoredRow(env.date, question, answer, priority);
    assert Update(env, question, answer, priority).events == [Appended(row)];
    assert RowsOf([Appended(row)]) == [row] + RowsOf([]);
    assert Requests([Appended(row)]) == [] + Requests([]);
  }

  /** A priority call with a short question first runs one extraction on the
      answer text, with no topic and so with an empty user message. If that
      extraction fails, its failure is the call's; otherwise the short-question
      pair itself is appended after the extracted rows, with the wrapped answer. */
  lemma PriorityShortQuestion(store: seq<Row>, env: Env, question: string, answer: string)
    requires !AnswerTooShort(answer) && QuestionTooShort(question)
    ensures var r := Update(env, question, answer, true);
      var x := Extract(env, answer, None);
      && Requests(r.events) == [Request(QuestionNum(answer), "")]
      && (x.error.Some? ==> r == x)
      && (x.error.None? ==>
            && r.error.None?
            && Commit(store, r.events) == Commit(store, x.events) + [StoredRow(env.date, question, answer, true)])
  {
    var r := Update(env, question, answer, true);
    var x := Extract(env, answer, None);
    assert Requests(x.events) == [Request(QuestionNum(answer), "")] by {
      ExtractAsksOnce(env, answer, None);
    }
    if x.error.None? {
      var row := StoredRow(env.date, question, answer, true);
      assert r == Run(x.events + [Appended(row)], None);
      AppendedRowLast(store, x.events, row);
    }
  }

  /** A row appended after a run asks nothing more, and lands after the run's rows. */
  lemma AppendedRowLast(store: seq<Row>, events: seq<Event>, row: Row)
    ensures Requests(events + [Appended(row)]) == Requests(events)
    ensures Commit(store, events + [Appended(row)]) == Commit(store, events) + [row]
  {
    RowsOfConcat(events, [Appended(row)]);
    RequestsConcat(events, [Appended(row)]);
    assert RowsOf([Appended(row)]) == [row] + RowsOf([]);
    assert Requests([Appended(row)]) == [] + Requests([]);
  }

  // ---------------------------------------------------------------------------
  // _extract_data_from_text

  /** The reference rows of `i..m` are those of pair `i` followed by those of `i + 1..m`. */
  lemma AdmittedStep(date: string, questions: seq<string>, answers: seq<string>, i: nat, m: nat)
    requires i < m <= |questions| && m <= |answers|
    ensures Appends(Admitted(date, questions[i..m], answers[i..m]))
      == Appends(Admitted(date, [questions[i]], [answers[i]])) + Appends(Admitted(date, questions[i + 1..m], answers[i + 1..m]))
  {
    AdmittedConcat(date, [questions[i]], [answers[i]], questions[i + 1..m], answers[i + 1..m]);
    assert [questions[i]] + questions[i + 1..m] == questions[i..m];
    assert [answers[i]] + answers[i + 1..m] == answers[i..m];
    AppendsConcat(Admitted(date, [questions[i]], [answers[i]]), Admitted(date, questions[i + 1..m], answers[i + 1..m]));
  }

  /** One turn of the pair loop: pair `i` is stored when admissible, then the loop goes on. */
  lemma PairsStep(env: Env, questions: seq<string>, answers: seq<string>, i: nat, n: nat)
    requires i < n && i < |questions| && i < |answers|
    ensures var rest := Pairs(env, questions, answers, i + 1, n);
      Pairs(env, questions, answers, i, n)
        == Run(Appends(Admitted(env.date, [questions[i]], [answers[i]])) + rest.events, rest.error)
  {
    UpdateWithoutPriority(env, questions[i], answers[i]);
  }

  /** The pair loop from index `i` applies non-priority updates to the pairs
      up to `m`, the requested count or the end of the shorter list, whichever
      comes first; if a list ends before the requested count, it raises
      IndexError at that index, after the earlier pairs were stored. */
  lemma {:induction false} PairsMatchReference(env: Env, questions: seq<string>, answers: seq<string>, i: nat, n: nat)
    requires i <= n && i <= |questions| && i <= |answers|
    ensures var m := Min(n, Min(|questions|, |answers|));
      var r := Pairs(env, questions, answers, i, n);
      && r.events == Appends(Admitted(env.date, questions[i..m], answers[i..m]))
      && r.error == (if m < n then Some(IndexError(m)) else None)
    decreases n - i
  {
    var m := Min(n, Min(|questions|, |answers|));
    if i == m {
      assert questions[i..m] == [];
    } else {
      PairsMatchReference(env, questions, answers, i + 1, n);
      PairsStep(env, questions, answers, i, n);
      AdmittedStep(env.date, questions, answers, i, m);
    }
  }

  /** One extraction, case by case on the model's reply: one request, then
      either the parse error, or the admissible pairs among the first
      `QuestionNum(text)` (or fewer, with IndexError, when a list is too short). */
  lemma ExtractMatchesReference(env: Env, text: string, topic: Option<string>)
    ensures var request := RequestFor(text, topic);
      var r := Extract(env, text, topic);
      match env.llm(request)
      case Unparsable => r == Run([Asked(request)], Some(BadJson))
      case Parsed(qs, ans) =>
        if qs.None? || ans.None? then r == Run([Asked(request)], Some(MissingList))
        else
          var n := request.questionNum;
          var m := Min(n, Min(|qs.value|, |ans.value|));
          && r.events == [Asked(request)] + Appends(Admitted(env.date, qs.value[..m], ans.value[..m]))
          && r.error == (if m < n then Some(IndexError(m)) else None)
  {
    var request := RequestFor(text, topic);
    match env.llm(request)
    case Unparsable =>
    case Parsed(qs, ans) =>
      if qs.Some? && ans.Some? {
        PairsMatchReference(env, qs.value, ans.value, 0, request.questionNum);
        var m := Min(request.questionNum, Min(|qs.value|, |ans.value|));
        assert qs.value[0..m] == qs.value[..m];
        assert ans.value[0..m] == ans.value[..m];
      }
  }

  /** An extraction asks the model exactly once: the pairs it stores go
      through `update_embeddings` without priority, which never extracts. */
  lemma ExtractAsksOnce(env: Env, text: string, topic: Option<string>)
    ensures Requests(Extract(env, text, topic).events) == [RequestFor(text, topic)]
  {
    var events := Extract(env, text, topic).events;
    assert events == [events[0]] + events[1..];
    RequestsConcat([events[0]], events[1..]);
    NoRequestsInAppends(events[1..]);
    assert Requests([events[0]]) == [events[0].request] + Requests([]);
  }

  /** When the reply holds enough pairs, an extraction stores exactly the
      admissible ones among the first `QuestionNum(text)`, in order, with plain
      (not priority-wrapped) answers. */
  lemma ExtractStoresAdmittedPairs(store: seq<Row>, env: Env, text: string, topic: Option<string>)
    requires var reply := env.llm(RequestFor(text, topic));
      && reply.Parsed? && reply.questions.Some? && reply.answers.Some?
      && |reply.questions.value| >= QuestionNum(text)
      && |reply.answers.value| >= QuestionNum(text)
    ensures var reply := env.llm(RequestFor(text, topic));
      var n := QuestionNum(text);
      var r := Extract(env, text, topic);
      && r.error.None?
      && Commit(store, r.events)
         == store + Admitted(env.date, reply.questions.value[..n], reply.answers.value[..n])
  {
    var reply := env.llm(RequestFor(text, topic));
    var n := QuestionNum(text);
    var rows := Admitted(env.date, reply.questions.value[..n], reply.answers.value[..n]);
    ExtractMatchesReference(env, text, topic);
    assert Min(n, Min(|reply.questions.value|, |reply.answers.value|)) == n;
    RowsOfConcat([Asked(RequestFor(text, topic))], Appends(rows));
    AppendsProjections(rows);
    assert RowsOf([Asked(RequestFor(text, topic))]) == [] + RowsOf([]);
  }

  // ---------------------------------------------------------------------------
  // update_from_pdf

  /** One turn of the page loop: the page is asked for once, a failure on it
      ends the loop, and otherwise the later pages follow. */
  lemma PagesStep(env: Env, fileName: string, pages: seq<string>, k: nat)
    requires k < |pages|
    ensures var page := ExtractFromPage(env, fileName, pages[k]);
      var r := PagesFrom(env, fileName, pages, k);
      var rest := PagesFrom(env, fileName, pages, k + 1);
      && Requests(page.events) == [RequestFor(pages[k], Some(fileName))]
      && (page.error.Some? ==> r == page)
      && (page.error.None? ==>
            && r.error == rest.error
            && Requests(r.events) == [RequestFor(pages[k], Some(fileName))] + Requests(rest.events))
  {
    var page := ExtractFromPage(env, fileName, pages[k]);
    ExtractAsksOnce(env, pages[k], Some(fileName));
    if page.error.None? {
      RequestsConcat(page.events, PagesFrom(env, fileName, pages, k + 1).events);
    }
  }

  /** One turn of the page loop, by its events: a page that raises ends the
      loop with its own outcome, otherwise the later pages' events follow. */
  lemma PagesStepEvents(env: Env, fileName: string, pages: seq<string>, k: nat)
    requires k < |pages|
    ensures var page := ExtractFromPage(env, fileName, pages[k]);
      var r := PagesFrom(env, fileName, pages, k);
      var rest := PagesFrom(env, fileName, pages, k + 1);
      && (page.error.Some? ==> r == page)
      && (page.error.None? ==> r == Run(page.events + rest.events, rest.error))
  {
  }

  /** The requests the base class makes for the pages `ps`, one per page, in order. */
  function PageRequests(fileName: string, ps: seq<string>): (reqs: seq<Request>)
    ensures |reqs| == |ps|
    ensures forall j :: 0 <= j < |ps| ==> reqs[j] == RequestFor(ps[j], Some(fileName))
  {
    seq(|ps|, j requires 0 <= j < |ps| => RequestFor(ps[j], Some(fileName)))
  }

  // ---------------------------------------------------------------------------
  // The page loop against its pages' own runs

  /** The runs the base class's extraction produces for pages `k..`, one per page. */
  function PageRuns(env: Env, fileName: string, pages: seq<string>, k: nat): (runs: seq<Run>)
    requires k <= |pages|
    ensures |runs| == |pages| - k
  {
    seq(|pages| - k, j requires 0 <= j < |pages| - k => ExtractFromPage(env, fileName, pages[k + j]))
  }

  /** The position of the first run that raises, or the number of runs if none does. */
  function FirstFailure(runs: seq<Run>): (f: nat)
    ensures f <= |runs|
    ensures forall j :: 0 <= j < f ==> runs[j].error.None?
    ensures f < |runs| ==> runs[f].error.Some?
  {
    if runs == [] then 0
    else if runs[0].error.Some? then 0
    else 1 + FirstFailure(runs[1..])
  }

  /** How many runs a loop that stops at the first failure gets through: every
      run before the first failure, and that one. */
  function Reached(runs: seq<Run>): (m: nat)
    ensures m <= |runs|
    ensures m == |runs| || (m > 0 && runs[m - 1].error.Some?)
    ensures forall j :: 0 <= j < m - 1 ==> runs[j].error.None?
  {
    var f := FirstFailure(runs);
    if f < |runs| then f + 1 else f
  }

  /** The events of several runs, one run after the other. */
  function EventsOf(runs: seq<Run>): seq<Event>
  {
    if runs == [] then [] else runs[0].events + EventsOf(runs[1..])
  }

  lemma {:induction false} EventsOfConcat(a: seq<Run>, b: seq<Run>)
    ensures EventsOf(a + b) == EventsOf(a) + EventsOf(b)
  {
    if a == [] {
      assert a + b == b;
    } else {
      assert (a + b)[0] == a[0] && (a + b)[1..] == a[1..] + b;
      EventsOfConcat(a[1..], b);
    }
  }

  /** A run that succeeds, in front of others: the loop goes through it and on. */
  lemma ReachedPastSuccess(page: Run, rest: seq<Run>)
    requires page.error.None?
    ensures FirstFailure([page] + rest) == 1 + FirstFailure(rest)
    ensures Reached([page] + rest) == 1 + Reached(rest)
    ensures EventsOf(([page] + rest)[..1 + Reached(rest)]) == page.events + EventsOf(rest[..Reached(rest)])
  {
    var runs := [page] + rest;
    assert runs[1..] == rest;
    assert runs[..1 + Reached(rest)][1..] == rest[..Reached(rest)];
  }

  /** A run that raises, in front of others: the loop stops at it. */
  lemma ReachedAtFailure(page: Run, rest: seq<Run>)
    requires page.error.Some?
    ensures FirstFailure([page] + rest) == 0 && Reached([page] + rest) == 1
    ensures EventsOf(([page] + rest)[..1]) == page.events
  {
    assert ([page] + rest)[..1] == [page];
    assert EventsOf([page]) == page.events + EventsOf([]);
  }

  /** The rows of the first `j` of the runs a loop got through lead the rows of all of them. */
  lemma EarlierRunsKept(store: seq<Row>, runs: seq<Run>, m: nat, j: nat)
    requires j <= m <= |runs|
    ensures var before := Commit(store, EventsOf(runs[..j]));
      var after := Commit(store, EventsOf(runs[..m]));
      |before| <= |after| && after[..|before|] == before
  {
    var reached := runs[..m];
    assert reached == reached[..j] + reached[j..];
    assert reached[..j] == runs[..j];
    EventsOfConcat(reached[..j], reached[j..]);
    RowsOfConcat(EventsOf(runs[..j]), EventsOf(reached[j..]));
  }

  lemma PageRunsStep(env: Env, fileName: string, pages: seq<string>, k: nat)
    requires k < |pages|
    ensures PageRuns(env, fileName, pages, k) == [ExtractFromPage(env, fileName, pages[k])] + PageRuns(env, fileName, pages, k + 1)
  {
    var runs := PageRuns(env, fileName, pages, k);
    var rest := PageRuns(env, fileName, pages, k + 1);
    assert runs[1..] == rest;
  }

  /** The page loop from `k` is the extraction of every page it reaches, one
      after the other, in page order: the pages before the first one that
      raises, and that one. Its error is that page's error, or none when no
      page raises. */
  lemma {:induction false} PagesMatchReference(env: Env, fileName: string, pages: seq<string>, k: nat)
    requires k <= |pages|
    ensures var runs := PageRuns(env, fileName, pages, k);
      var f := FirstFailure(runs);
      var r := PagesFrom(env, fileName, pages, k);
      && r.events == EventsOf(runs[..Reached(runs)])
      && r.error == (if f < |runs| then runs[f].error else None)
    decreases |pages| - k
  {
    var runs := PageRuns(env, fileName, pages, k);
    if k == |pages| {
      assert runs[..Reached(runs)] == [];
    } else {
      var page := ExtractFromPage(env, fileName, pages[k]);
      var rest := PageRuns(env, fileName, pages, k + 1);
      PageRunsStep(env, fileName, pages, k);
      PagesStepEvents(env, fileName, pages, k);
      if page.error.None? {
        PagesMatchReference(env, fileName, pages, k + 1);
        ReachedPastSuccess(page, rest);
        if FirstFailure(rest) < |rest| {
          assert runs[1 + FirstFailure(rest)] == rest[FirstFailure(rest)];
        }
      } else {
        ReachedAtFailure(page, rest);
      }
    }
  }

  /** Runs that each make exactly one request make, together, those requests in order. */
  lemma {:induction false} RequestsOfRuns(runs: seq<Run>, reqs: seq<Request>)
    requires |reqs| == |runs|
    requires forall j :: 0 <= j < |runs| ==> Requests(runs[j].events) == [reqs[j]]
    ensures Requests(EventsOf(runs)) == reqs
  {
    if runs != [] {
      assert Requests(runs[0].events) == [reqs[0]];
      RequestsConcat(runs[0].events, EventsOf(runs[1..]));
      RequestsOfRuns(runs[1..], reqs[1..]);
    }
  }

  /** The first `m` pages from `k` on, extracted one after the other, ask for
      those pages in order. */
  lemma ReachedPagesAsk(env: Env, fileName: string, pages: seq<string>, k: nat, m: nat)
    requires k + m <= |pages|
    ensures Requests(EventsOf(PageRuns(env, fileName, pages, k)[..m])) == PageRequests(fileName, pages[k..k + m])
  {
    var runs := PageRuns(env, fileName, pages, k)[..m];
    var reqs := PageRequests(fileName, pages[k..k + m]);
    forall j | 0 <= j < m
      ensures Requests(runs[j].events) == [reqs[j]]
    {
      assert runs[j] == ExtractFromPage(env, fileName, pages[k + j]);
      assert reqs[j] == RequestFor(pages[k + j], Some(fileName));
      ExtractAsksOnce(env, pages[k + j], Some(fileName));
    }
    RequestsOfRuns(runs, reqs);
  }

  /** A page that raises does not undo the earlier pages: after the loop, the
      store holds the old rows followed by the rows of every page before the
      one that raised, in page order, and then the rest of what was reached. */
  lemma PagesKeepEarlierRows(store: seq<Row>, env: Env, fileName: string, pages: seq<string>, j: nat)
    requires j <= FirstFailure(PageRuns(env, fileName, pages, 0))
    ensures var before := Commit(store, EventsOf(PageRuns(env, fileName, pages, 0)[..j]));
      var after := Commit(store, PagesFrom(env, fileName, pages, 0).events);
      |before| <= |after| && after[..|before|] == before
  {
    var runs := PageRuns(env, fileName, pages, 0);
    PagesMatchReference(env, fileName, pages, 0);
    EarlierRunsKept(store, runs, Reached(runs), j);
  }

  /** The page loop asks the model once per page, in page order, with the file
      name as topic, and reaches every page up to the first one that raises,
      that one included. Its events are those of the pages it reached, one page
      after the other, so the pages before the one that raised keep their rows;
      its error is the error of the last page it reached, or none when no page
      raises. */
  lemma PagesAskedInOrder(env: Env, fileName: string, pages: seq<string>, k: nat)
    requires k <= |pages|
    ensures var r := PagesFrom(env, fileName, pages, k);
      var reqs := Requests(r.events);
      var runs := PageRuns(env, fileName, pages, k);
      var m := Reached(runs);
      && |reqs| == m
      && reqs == PageRequests(fileName, pages[k..k + m])
      && r.events == EventsOf(runs[..m])
      && (r.error.None? <==> FirstFailure(runs) == |runs|)
      && (r.error.Some? ==> m > 0 && r.error == runs[m - 1].error)
  {
    var r := PagesFrom(env, fileName, pages, k);
    var runs := PageRuns(env, fileName, pages, k);
    var f := FirstFailure(runs);
    var m := Reached(runs);
    assert r.events == EventsOf(runs[..m]) && r.error == (if f < |runs| then runs[f].error else None) by {
      PagesMatchReference(env, fileName, pages, k);
    }
    assert Requests(r.events) == PageRequests(fileName, pages[k..k + m]) by {
      ReachedPagesAsk(env, fileName, pages, k, m);
    }
    if f < |runs| {
      assert m - 1 == f;
    }
  }
}
