/** Properties of a whole run: which days it visits, how many downloads it
    makes, and that a fully downloaded window costs nothing. */
module RunProperties {
  import opened Options
  import opened Dates
  import opened Window
  import opened FileNames
  import opened Downloader

  /** The days a run downloads. */
  function Downloads(steps: seq<Step>): (ds: seq<Date>)
    ensures |ds| <= |steps|
    ensures forall i :: 0 <= i < |steps| && steps[i].outcome.Downloaded? ==> steps[i].date in ds
    ensures forall d :: d in ds ==> exists i :: 0 <= i < |steps| && steps[i].date == d && steps[i].outcome.Downloaded?
  {
    if steps == [] then []
    else
      var init := steps[..|steps| - 1];
      var last := steps[|steps| - 1];
      assert forall i :: 0 <= i < |init| ==> init[i] == steps[i];
      Downloads(init) + (if last.outcome.Downloaded? then [last.date] else [])
  }

  /** A run none of whose days is downloaded has no downloads. */
  lemma NothingDownloaded(steps: seq<Step>)
    requires forall i :: 0 <= i < |steps| ==> !steps[i].outcome.Downloaded?
    ensures Downloads(steps) == []
  {
  }

  /** No day is downloaded twice when the visited days are distinct. */
  lemma {:induction false} DownloadsDistinct(steps: seq<Step>)
    requires Distinct(VisitedDates(steps))
    ensures Distinct(Downloads(steps))
  {
    if steps != [] {
      var init := steps[..|steps| - 1];
      var last := steps[|steps| - 1];
      assert VisitedDates(init) == VisitedDates(steps)[..|steps| - 1];
      DownloadsDistinct(init);
      if last.outcome.Downloaded? {
        assert last.date !in Downloads(init);
      }
    }
  }

  function VisitedDates(steps: seq<Step>): (ds: seq<Date>)
    ensures |ds| == |steps| && forall i :: 0 <= i < |steps| ==> ds[i] == steps[i].date
  {
    seq(|steps|, i requires 0 <= i < |steps| => steps[i].date)
  }

  /** The days of a window that are trading days missing from the inventory. */
  function Due(w: seq<Date>, trading: set<Date>, inv: set<string>): set<Date>
    requires InCalendar(w)
  {
    set i | 0 <= i < |w| && w[i] in trading && Format(w[i]) !in inv :: w[i]
  }

  /** A sequence without repetitions has as many elements as its set. */
  lemma {:induction false} DistinctCardinality<T>(s: seq<T>)
    requires Distinct(s)
    ensures |set x | x in s| == |s|
  {
    if s != [] {
      var init := s[..|s| - 1];
      assert Distinct(init);
      DistinctCardinality(init);
      var last := s[|s| - 1];
      assert (set x | x in s) == (set x | x in init) + {last};
      assert last !in init;
    }
  }

  /** The run visits exactly `days` days, `start_date + i` for `i` in
      `0..days-1`, strictly ascending, all before today. */
  lemma RunVisitsWindow(env: Env, today: Date, days: int, local: Option<string>)
    requires Valid(today) && Run(env, today, days, local).Completed?
    ensures var steps := Run(env, today, days, local).steps;
      && AddDays(today, -days).Some?
      && (forall i :: 0 <= i < |steps| ==> Forward(AddDays(today, -days).value, i) == Some(steps[i].date))
      && (forall i, j :: 0 <= i < j < |steps| ==> Before(steps[i].date, steps[j].date))
      && (forall i :: 0 <= i < |steps| ==> Before(steps[i].date, today))
  {
    var steps := Run(env, today, days, local).steps;
    var n := |steps|;
    forall i | 0 <= i < n
      ensures Forward(AddDays(today, -days).value, i) == Some(steps[i].date)
      ensures Before(steps[i].date, today)
    {
      CandidateIsStartPlus(today, n, i);
      CandidatesAscending(today, n, i, n);
    }
    forall i, j | 0 <= i < j < n
      ensures Before(steps[i].date, steps[j].date)
    {
      CandidatesAscending(today, n, i, j);
    }
  }

  /** Each day of a completed run is classified against the trading
      calendar and the inventory read before the loop. */
  lemma RunClassifiesEachDay(env: Env, today: Date, days: int, local: Option<string>, i: nat)
    requires Valid(today) && Run(env, today, days, local).Completed?
    requires i < |Run(env, today, days, local).steps|
    ensures var r := Run(env, today, days, local);
      var d := r.steps[i].date;
      var inv := InventoryOf(env, r.dest);
      && Valid(d) && d != MaxDate
      && r.steps[i].outcome == Classify(d, env.trading, inv, r.dest)
  {
  }

  /** Downloads in one window: exactly the due days, each once. */
  lemma {:induction false} WindowDownloadCount(w: seq<Date>, trading: set<Date>, inv: set<string>, dest: Destination)
    requires InCalendar(w) && Distinct(w)
    ensures var ds := Downloads(Steps(w, trading, inv, dest));
      && Distinct(ds)
      && (set d | d in ds) == Due(w, trading, inv)
      && |ds| == |Due(w, trading, inv)|
  {
    var steps := Steps(w, trading, inv, dest);
    assert VisitedDates(steps) == w;
    var ds := Downloads(steps);
    DownloadsDistinct(steps);
    DistinctCardinality(ds);
    forall d | d in Due(w, trading, inv)
      ensures d in ds
    {
      var i :| 0 <= i < |w| && w[i] in trading && Format(w[i]) !in inv && w[i] == d;
      assert steps[i].date == d && steps[i].outcome.Downloaded?;
    }
  }

  /** A run downloads each due day of its window exactly once: the number
      of fetches (and of writes) is |window ∩ trading days \ inventory|. */
  lemma RunDownloadCount(env: Env, today: Date, days: int, local: Option<string>)
    requires Valid(today) && Run(env, today, days, local).Completed?
    ensures var n: nat := if days > 0 then days else 0;
      var r := Run(env, today, days, local);
      && Distinct(Downloads(r.steps))
      && |Downloads(r.steps)| == |Due(Candidates(today, n), env.trading, InventoryOf(env, r.dest))|
  {
    var n: nat := if days > 0 then days else 0;
    CandidatesDistinct(today, n);
    WindowDownloadCount(Candidates(today, n), env.trading, InventoryOf(env, Run(env, today, days, local).dest), Run(env, today, days, local).dest);
  }

  /** Idempotence: when the inventory already holds every trading day of the
      window, the run fetches and writes nothing. */
  lemma FullyDownloadedRunIsNoOp(env: Env, today: Date, days: int, local: Option<string>)
    requires Valid(today) && Run(env, today, days, local).Completed?
    requires forall i :: 0 <= i < |Run(env, today, days, local).steps| ==>
      var d := Run(env, today, days, local).steps[i].date;
      d in env.trading ==> Format(d) in InventoryOf(env, Run(env, today, days, local).dest)
    ensures Downloads(Run(env, today, days, local).steps) == []
  {
    var steps := Run(env, today, days, local).steps;
    NothingDownloaded(steps);
  }
}
