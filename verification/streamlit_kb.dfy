/**
 `StreamlitKB` (stKB.py), the web front-end's subclass of `KnowledgeBase`. It
 overrides `update_from_pdf` and `_extract_data_from_page` so that, before each
 page is handed to the base class, the progress bar is set to
 `int((cur_page_num - 1) / total_page_num * 100)`. The progress callback is
 modelled by the `Reported` events it receives.
 */
module StreamlitKb {
  import Kb
  import KbLemmas

  function Abs(x: int): nat
  {
    if x < 0 then -x else x
  }

  /** Dafny's division of naturals, seen from the quotient. */
  lemma DivBounds(a: nat, b: nat)
    requires b > 0
    ensures (a / b) * b <= a < (a / b + 1) * b
    ensures a / b > 0 ==> a >= b
  {
    var q := a / b;
    assert a == q * b + a % b;
    assert (q + 1) * b == q * b + b;
    if q > 0 {
      assert q * b == (q - 1) * b + b;
    }
  }

  lemma MulCancelLess(x: int, y: int, t: int)
    requires t > 0 && x * t < y * t
    ensures x < y
  {
    assert (y - x) * t == y * t - x * t;
  }

  /** Exact division rounded toward zero: the exact-arithmetic reading of the
      `int(... / ...)` at stKB.py:18, which the source computes in floating point. */
  function TruncDiv(a: int, b: int): (q: int)
    requires b != 0
  {
    var m := Abs(a) / Abs(b);
    if (a < 0) == (b < 0) then m else -m
  }

  /** `TruncDiv` is division rounded toward zero: its magnitude is the whole
      number of times `|b|` fits into `|a|`, and its sign is the sign of the
      exact quotient. */
  lemma TruncDivRoundsTowardZero(a: int, b: int)
    requires b != 0
    ensures var q := TruncDiv(a, b);
      && Abs(q) * Abs(b) <= Abs(a) < (Abs(q) + 1) * Abs(b)
      && (q > 0 ==> (a > 0 <==> b > 0))
      && (q < 0 ==> (a > 0 <==> b < 0))
  {
    var m := Abs(a) / Abs(b);
    DivBounds(Abs(a), Abs(b));
    var q := TruncDiv(a, b);
    if (a < 0) == (b < 0) {
      assert q == m;
    } else {
      assert q == -m;
    }
    assert Abs(q) == m;
    assert Abs(q) * Abs(b) == m * Abs(b);
    assert (Abs(q) + 1) * Abs(b) == (m + 1) * Abs(b);
  }

  /** The percentage `_extract_data_from_page` reports for page `cur` of `total`. */
  function ProgressPercent(cur: int, total: int): (p: int)
    requires total != 0
  {
    TruncDiv((cur - 1) * 100, total)
  }

  /** For a page number from 1 on and a positive total, the percentage is
      `(cur - 1) * 100 / total` rounded down. */
  lemma ProgressMeaning(cur: int, total: int)
    requires 1 <= cur && 0 < total
    ensures var p := ProgressPercent(cur, total);
      0 <= p && p * total <= (cur - 1) * 100 < (p + 1) * total
  {
    TruncDivRoundsTowardZero((cur - 1) * 100, total);
  }

  /** `StreamlitKB._extract_data_from_page` (stKB.py:17-20): report the
      progress, then delegate to the base class. */
  function ExtractFromPage(env: Kb.Env, fileName: string, page: string, cur: int, total: int): (r: Kb.Run)
    requires total != 0
    ensures |r.events| >= 2
    ensures r.events[0] == Kb.Reported(ProgressPercent(cur, total))
    ensures r.events[1] == Kb.Asked(Kb.RequestFor(page, Kb.Some(fileName)))
  {
    var base := Kb.ExtractFromPage(env, fileName, page);
    Kb.Run([Kb.Reported(ProgressPercent(cur, total))] + base.events, base.error)
  }

  /** `StreamlitKB.update_from_pdf` (stKB.py:10-15) over the document's page texts. */
  function UpdateFromPdf(env: Kb.Env, fileName: string, pages: seq<string>): (r: Kb.Run)
    ensures pages == [] ==> r == Kb.Run([], Kb.None)
    ensures pages != [] ==>
      && |r.events| >= 2
      && r.events[0] == Kb.Reported(0)
      && r.events[1] == Kb.Asked(Kb.RequestFor(pages[0], Kb.Some(fileName)))
  {
    PagesFrom(env, fileName, pages, 0)
  }

  /** The page loop of stKB.py:13-14 from page index `k` on: page `k + 1` of
      `|pages| + 1`, as `page_count + 1` is passed as the total. */
  function PagesFrom(env: Kb.Env, fileName: string, pages: seq<string>, k: nat): (r: Kb.Run)
    decreases |pages| - k
  {
    if k >= |pages| then Kb.Run([], Kb.None)
    else
      var page := ExtractFromPage(env, fileName, pages[k], k + 1, |pages| + 1);
      if page.error.Some? then page
      else
        var rest := PagesFrom(env, fileName, pages, k + 1);
        Kb.Run(page.events + rest.events, rest.error)
  }

  /** The percentages a run reports, in order. */
  function Percentages(events: seq<Kb.Event>): (ps: seq<int>)
    ensures |ps| <= |events|
  {
    if events == [] then []
    else (if events[0].Reported? then [events[0].percent] else []) + Percentages(events[1..])
  }

  /** A run with its progress reports taken out. */
  function WithoutReports(events: seq<Kb.Event>): (rest: seq<Kb.Event>)
    ensures |rest| <= |events|
  {
    if events == [] then []
    else (if events[0].Reported? then [] else [events[0]]) + WithoutReports(events[1..])
  }

  // ---------------------------------------------------------------------------
  // The progress formula

  /** Every page of a document reports a percentage in [0, 100): the first one
      0, and none reaches 100 because the total is one more than the page count. */
  lemma ProgressBounds(cur: int, total: int)
    requires 1 <= cur < total
    ensures 0 <= ProgressPercent(cur, total) < 100
    ensures cur == 1 ==> ProgressPercent(cur, total) == 0
  {
    var p := ProgressPercent(cur, total);
    ProgressMeaning(cur, total);
    assert (cur - 1) * 100 < 100 * total;
    MulCancelLess(p, 100, total);
    if cur == 1 {
      MulCancelLess(p, 1, total);
    }
  }

  /** Later pages never report less. */
  lemma ProgressMonotone(c1: int, c2: int, total: int)
    requires 1 <= c1 <= c2 && 0 < total
    ensures ProgressPercent(c1, total) <= ProgressPercent(c2, total)
  {
    var p1 := ProgressPercent(c1, total);
    var p2 := ProgressPercent(c2, total);
    ProgressMeaning(c1, total);
    ProgressMeaning(c2, total);
    assert (c1 - 1) * 100 <= (c2 - 1) * 100;
    MulCancelLess(p1, p2 + 1, total);
  }

  // ---------------------------------------------------------------------------
  // The trace projections

  lemma {:induction false} PercentagesConcat(a: seq<Kb.Event>, b: seq<Kb.Event>)
    ensures Percentages(a + b) == Percentages(a) + Percentages(b)
  {
    if a == [] {
      assert a + b == b;
    } else {
      var head := if a[0].Reported? then [a[0].percent] else [];
      assert (a + b)[0] == a[0] && (a + b)[1..] == a[1..] + b;
      calc {
        Percentages(a + b);
        head + Percentages(a[1..] + b);
        { PercentagesConcat(a[1..], b); }
        head + (Percentages(a[1..]) + Percentages(b));
        (head + Percentages(a[1..])) + Percentages(b);
      }
    }
  }

  lemma {:induction false} WithoutReportsConcat(a: seq<Kb.Event>, b: seq<Kb.Event>)
    ensures WithoutReports(a + b) == WithoutReports(a) + WithoutReports(b)
  {
    if a == [] {
      assert a + b == b;
    } else {
      var head := if a[0].Reported? then [] else [a[0]];
      assert (a + b)[0] == a[0] && (a + b)[1..] == a[1..] + b;
      calc {
        WithoutReports(a + b);
        head + WithoutReports(a[1..] + b);
        { WithoutReportsConcat(a[1..], b); }
        head + (WithoutReports(a[1..]) + WithoutReports(b));
        (head + WithoutReports(a[1..])) + WithoutReports(b);
      }
    }
  }

  /** A trace without progress reports is left as it is and reports nothing. */
  lemma {:induction false} NoReports(events: seq<Kb.Event>)
    requires forall j :: 0 <= j < |events| ==> !events[j].Reported?
    ensures WithoutReports(events) == events
    ensures Percentages(events) == []
  {
    if events != [] {
      NoReports(events[1..]);
      assert events == [events[0]] + events[1..];
    }
  }

  // ---------------------------------------------------------------------------
  // The page loop

  /** One turn of the Streamlit page loop, next to the base class's: the same
      events behind one progress report, the same outcome. */
  lemma PagesStep(env: Kb.Env, fileName: string, pages: seq<string>, k: nat)
    requires k < |pages|
    ensures var base := Kb.ExtractFromPage(env, fileName, pages[k]);
      var r := PagesFrom(env, fileName, pages, k);
      var rest := PagesFrom(env, fileName, pages, k + 1);
      var head := [Kb.Reported(ProgressPercent(k + 1, |pages| + 1))] + base.events;
      && (base.error.Some? ==> r == Kb.Run(head, base.error))
      && (base.error.None? ==> r == Kb.Run(head + rest.events, rest.error))
      && Kb.Requests(head) == [Kb.RequestFor(pages[k], Kb.Some(fileName))]
      && Percentages(head) == [ProgressPercent(k + 1, |pages| + 1)]
      && WithoutReports(head) == base.events
  {
    var base := Kb.ExtractFromPage(env, fileName, pages[k]);
    var report := Kb.Reported(ProgressPercent(k + 1, |pages| + 1));
    KbLemmas.ExtractAsksOnce(env, pages[k], Kb.Some(fileName));
    KbLemmas.RequestsConcat([report], base.events);
    assert Kb.Requests([report]) == [] + Kb.Requests([]);
    assert forall j :: 0 <= j < |base.events| ==> !base.events[j].Reported?;
    NoReports(base.events);
    PercentagesConcat([report], base.events);
    WithoutReportsConcat([report], base.events);
    assert Percentages([report]) == [report.percent] + Percentages([]);
    assert WithoutReports([report]) == [] + WithoutReports([]);
  }

  /** Taking out the reports keeps the model requests. */
  lemma {:induction false} RequestsIgnoreReports(events: seq<Kb.Event>)
    ensures Kb.Requests(WithoutReports(events)) == Kb.Requests(events)
  {
    if events != [] {
      RequestsIgnoreReports(events[1..]);
      var head := if events[0].Reported? then [] else [events[0]];
      KbLemmas.RequestsConcat(head, WithoutReports(events[1..]));
      assert Kb.Requests([events[0]]) == (if events[0].Asked? then [events[0].request] else []) + Kb.Requests([]);
    }
  }

  /** The override changes nothing but the progress reports: without them, the
      Streamlit page loop produces the base class's events and outcome. */
  lemma {:induction false} OverrideOnlyAddsReports(env: Kb.Env, fileName: string, pages: seq<string>, k: nat)
    requires k <= |pages|
    ensures WithoutReports(PagesFrom(env, fileName, pages, k).events) == Kb.PagesFrom(env, fileName, pages, k).events
    ensures PagesFrom(env, fileName, pages, k).error == Kb.PagesFrom(env, fileName, pages, k).error
    decreases |pages| - k
  {
    if k < |pages| {
      PagesStep(env, fileName, pages, k);
      var base := Kb.ExtractFromPage(env, fileName, pages[k]);
      var head := [Kb.Reported(ProgressPercent(k + 1, |pages| + 1))] + base.events;
      if base.error.None? {
        OverrideOnlyAddsReports(env, fileName, pages, k + 1);
        WithoutReportsConcat(head, PagesFrom(env, fileName, pages, k + 1).events);
      }
    }
  }

  /** The Streamlit page loop reports one percentage per page it reaches, page
      `k + j + 1` of `|pages| + 1` for the `j`-th, just as it asks the model
      once per page. */
  lemma {:induction false} PagesReportInOrder(env: Kb.Env, fileName: string, pages: seq<string>, k: nat)
    requires k <= |pages|
    ensures var r := PagesFrom(env, fileName, pages, k);
      var ps := Percentages(r.events);
      && |ps| == |Kb.Requests(r.events)|
      && (forall j :: 0 <= j < |ps| ==> ps[j] == ProgressPercent(k + j + 1, |pages| + 1))
    decreases |pages| - k
  {
    if k < |pages| {
      PagesStep(env, fileName, pages, k);
      var base := Kb.ExtractFromPage(env, fileName, pages[k]);
      var head := [Kb.Reported(ProgressPercent(k + 1, |pages| + 1))] + base.events;
      if base.error.None? {
        var rest := PagesFrom(env, fileName, pages, k + 1).events;
        PagesReportInOrder(env, fileName, pages, k + 1);
        PercentagesConcat(head, rest);
        KbLemmas.RequestsConcat(head, rest);
        var tail := Percentages(rest);
        var ps := [ProgressPercent(k + 1, |pages| + 1)] + tail;
        assert Percentages(PagesFrom(env, fileName, pages, k).events) == ps;
        forall j | 0 <= j < |ps|
          ensures ps[j] == ProgressPercent(k + j + 1, |pages| + 1)
        {
          if j > 0 {
            assert ps[j] == tail[j - 1];
          }
        }
      }
    }
  }

  /** Every model request of a run comes right after a progress report. */
  predicate ReportBeforeEachAsk(events: seq<Kb.Event>)
  {
    forall j :: 0 <= j < |events| && events[j].Asked? ==> 0 < j && events[j - 1].Reported?
  }

  lemma ReportBeforeEachAskConcat(a: seq<Kb.Event>, b: seq<Kb.Event>)
    requires ReportBeforeEachAsk(a) && ReportBeforeEachAsk(b)
    ensures ReportBeforeEachAsk(a + b)
  {
    forall j | 0 <= j < |a + b| && (a + b)[j].Asked?
      ensures 0 < j && (a + b)[j - 1].Reported?
    {
      if j >= |a| {
        assert (a + b)[j] == b[j - |a|];
        assert (a + b)[j - 1] == b[j - |a| - 1];
      }
    }
  }

  /** Progress for a page is reported before the page is handed to the base
      class, so before its model request and before any of its rows. */
  lemma {:induction false} PagesReportFirst(env: Kb.Env, fileName: string, pages: seq<string>, k: nat)
    requires k <= |pages|
    ensures ReportBeforeEachAsk(PagesFrom(env, fileName, pages, k).events)
    decreases |pages| - k
  {
    if k < |pages| {
      PagesStep(env, fileName, pages, k);
      var base := Kb.ExtractFromPage(env, fileName, pages[k]);
      var head := [Kb.Reported(ProgressPercent(k + 1, |pages| + 1))] + base.events;
      assert ReportBeforeEachAsk(head);
      if base.error.None? {
        PagesReportFirst(env, fileName, pages, k + 1);
        ReportBeforeEachAskConcat(head, PagesFrom(env, fileName, pages, k + 1).events);
      }
    }
  }

  /** Percentages that start at 0, never decrease and stay below 100. */
  predicate SteadyProgress(ps: seq<int>)
  {
    && (ps != [] ==> ps[0] == 0)
    && (forall i, j :: 0 <= i <= j < |ps| ==> 0 <= ps[i] <= ps[j] < 100)
  }

  /** The percentages of pages `1..n` of a total above `n` are steady. */
  lemma PageProgressIsSteady(ps: seq<int>, total: int)
    requires |ps| < total
    requires forall j :: 0 <= j < |ps| ==> ps[j] == ProgressPercent(j + 1, total)
    ensures SteadyProgress(ps)
  {
    forall i, j | 0 <= i <= j < |ps|
      ensures 0 <= ps[i] <= ps[j] < 100
    {
      ProgressBounds(i + 1, total);
      ProgressBounds(j + 1, total);
      ProgressMonotone(i + 1, j + 1, total);
    }
    if ps != [] {
      ProgressBounds(1, total);
    }
  }

  /** A document upload through the web front-end: one request per page, in
      page order, each right after its progress report; the percentages start
      at 0, never decrease and stay below 100; every page is reached unless one
      raises. */
  lemma UpdateFromPdfProgress(env: Kb.Env, fileName: string, pages: seq<string>)
    ensures var r := UpdateFromPdf(env, fileName, pages);
      var ps := Percentages(r.events);
      var reqs := Kb.Requests(r.events);
      && |ps| == |reqs| <= |pages|
      && reqs == KbLemmas.PageRequests(fileName, pages[..|reqs|])
      && (forall j :: 0 <= j < |ps| ==> ps[j] == ProgressPercent(j + 1, |pages| + 1))
      && (r.error.None? ==> |reqs| == |pages|)
      && SteadyProgress(ps)
      && ReportBeforeEachAsk(r.events)
  {
    var r := UpdateFromPdf(env, fileName, pages);
    var ps := Percentages(r.events);
    var reqs := Kb.Requests(r.events);
    assert |ps| == |reqs| && forall j :: 0 <= j < |ps| ==> ps[j] == ProgressPercent(j + 1, |pages| + 1) by {
      PagesReportInOrder(env, fileName, pages, 0);
    }
    assert && |reqs| <= |pages|
           && reqs == KbLemmas.PageRequests(fileName, pages[..|reqs|])
           && (r.error.None? ==> |reqs| == |pages|) by {
      OverrideOnlyAddsReports(env, fileName, pages, 0);
      RequestsIgnoreReports(r.events);
      KbLemmas.PagesAskedInOrder(env, fileName, pages, 0);
      assert pages[0..|reqs|] == pages[..|reqs|];
    }
    PageProgressIsSteady(ps, |pages| + 1);
    PagesReportFirst(env, fileName, pages, 0);
  }

  /** A three-page document reports 0, 25 and 50 percent (the total is four),
      or a prefix of that if a page raises. */
  lemma ThreePageDocument(env: Kb.Env, fileName: string, pages: seq<string>)
    requires |pages| == 3
    ensures var ps := Percentages(UpdateFromPdf(env, fileName, pages).events);
      && |ps| <= 3
      && ps == [0, 25, 50][..|ps|]
      && (UpdateFromPdf(env, fileName, pages).error.None? ==> ps == [0, 25, 50])
  {
    UpdateFromPdfProgress(env, fileName, pages);
    assert ProgressPercent(1, 4) == 0;
    assert ProgressPercent(2, 4) == 25;
    assert ProgressPercent(3, 4) == 50;
  }
}
