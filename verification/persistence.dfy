/** What a completed run leaves behind, and what the next run's lister sees
    of it. The local file path is formed two ways: as `main` forms it
    (`local + fname`, no separator) and as a path join (`dir/fname`). */
module Persistence {
  import opened Options
  import opened Dates
  import opened Window
  import opened Paths
  import opened FileNames
  import opened Downloader
  import opened RunProperties

  /** The local file a write lands in, joined with a separator. */
  function LocalPath(dir: string, name: string): string {
    dir + "/" + name
  }

  /** The local file a write lands in as `main` builds it: `local + fname`. */
  function LocalPathAsWritten(dir: string, name: string): string {
    dir + name
  }

  /** The storage after one write, with joined local paths. */
  function Store(env: Env, w: Write): (e: Env)
    ensures e.dirs == env.dirs && e.trading == env.trading
    ensures env.files <= e.files && env.blobs <= e.blobs
    ensures w.ToFile? ==> Resolve(LocalPath(w.dir, w.name)) in e.files
    ensures w.ToFile? ==> e.blobs == env.blobs && e.files - env.files <= {Resolve(LocalPath(w.dir, w.name))}
    ensures w.ToBlob? ==> w.name in e.blobs
    ensures w.ToBlob? ==> e.files == env.files && e.blobs - env.blobs <= {w.name}
  {
    match w
    case ToFile(dir, name) => env.(files := env.files + {Resolve(LocalPath(dir, name))})
    case ToBlob(_, name) => env.(blobs := env.blobs + {name})
  }

  /** The storage after one write, with `main`'s local paths. */
  function StoreAsWritten(env: Env, w: Write): (e: Env)
    ensures e.dirs == env.dirs && e.trading == env.trading
    ensures env.files <= e.files && env.blobs <= e.blobs
    ensures w.ToFile? ==> Resolve(LocalPathAsWritten(w.dir, w.name)) in e.files
    ensures w.ToFile? ==> e.blobs == env.blobs && e.files - env.files <= {Resolve(LocalPathAsWritten(w.dir, w.name))}
    ensures w.ToBlob? ==> w.name in e.blobs
    ensures w.ToBlob? ==> e.files == env.files && e.blobs - env.blobs <= {w.name}
  {
    match w
    case ToFile(dir, name) => env.(files := env.files + {Resolve(LocalPathAsWritten(dir, name))})
    case ToBlob(_, name) => env.(blobs := env.blobs + {name})
  }

  /** A write is present in the storage (joined local paths). */
  predicate Holds(env: Env, w: Write) {
    match w
    case ToFile(dir, name) => Resolve(LocalPath(dir, name)) in env.files
    case ToBlob(_, name) => name in env.blobs
  }

  /** The storage after every write of a run, in order. */
  function Persist(env: Env, steps: seq<Step>): (e: Env)
    ensures e.dirs == env.dirs && e.trading == env.trading
    ensures env.files <= e.files && env.blobs <= e.blobs
    ensures forall i :: 0 <= i < |steps| && steps[i].outcome.Downloaded? ==> Holds(e, steps[i].outcome.write)
  {
    if steps == [] then env
    else
      var init := steps[..|steps| - 1];
      var last := steps[|steps| - 1];
      var before := Persist(env, init);
      assert forall i :: 0 <= i < |init| ==> init[i] == steps[i];
      if last.outcome.Downloaded? then Store(before, last.outcome.write) else before
  }

  /** The storage after every write of a run, with `main`'s local paths. */
  function PersistAsWritten(env: Env, steps: seq<Step>): (e: Env)
    ensures e.dirs == env.dirs && e.trading == env.trading
    ensures env.files <= e.files && env.blobs <= e.blobs
  {
    if steps == [] then env
    else
      var last := steps[|steps| - 1];
      var before := PersistAsWritten(env, steps[..|steps| - 1]);
      if last.outcome.Downloaded? then StoreAsWritten(before, last.outcome.write) else before
  }

  /** A stored day is in the inventory its destination's lister reads. */
  lemma StoredDayIsListed(env: Env, dest: Destination, d: Date)
    requires Valid(d) && Holds(env, WriteFor(dest, d))
    requires dest.LocalDir? ==> dest.dir != ""
    ensures Format(d) in InventoryOf(env, dest)
  {
    match dest
    case LocalDir(dir) =>
      ListDirContains(env.files, dir, FileName(d));
      WrittenDayIsListed(ListDir(env.files, dir), d);
    case Bucket(_, _) =>
      WrittenDayIsListed(env.blobs, d);
  }

  /** More stored names never shrink an inventory. */
  lemma InventoryMonotone(env: Env, more: Env, dest: Destination)
    requires env.files <= more.files && env.blobs <= more.blobs
    ensures InventoryOf(env, dest) <= InventoryOf(more, dest)
  {
    ListDirMonotone(env.files, more.files, match dest case LocalDir(dir) => dir case Bucket(_, _) => "");
  }

  /** Running `main` again over what it stored, with the same window,
      downloads nothing: every day the first run fetched is now found by
      the lister, and every other day keeps its outcome. */
  lemma SecondRunDownloadsNothing(env: Env, today: Date, days: int, local: Option<string>)
    requires Valid(today) && Run(env, today, days, local).Completed?
    ensures var first := Run(env, today, days, local);
      var second := Run(Persist(env, first.steps), today, days, local);
      && second.Completed?
      && |second.steps| == |first.steps|
      && (forall i :: 0 <= i < |first.steps| ==> second.steps[i].date == first.steps[i].date)
      && Downloads(second.steps) == []
  {
    var first := Run(env, today, days, local);
    var env2 := Persist(env, first.steps);
    var dest := first.dest;
    var second := Run(env2, today, days, local);
    InventoryMonotone(env, env2, dest);
    forall i | 0 <= i < |second.steps|
      ensures !second.steps[i].outcome.Downloaded?
    {
      var d := first.steps[i].date;
      if d in env.trading && Format(d) !in InventoryOf(env, dest) {
        assert first.steps[i].outcome.Downloaded?;
        assert first.steps[i].outcome.write == WriteFor(dest, d);
        StoredDayIsListed(env2, dest, d);
      }
    }
    NothingDownloaded(second.steps);
  }

  // ---------------------------------------------------------------------
  // The missing separator

  /** The folder name ends in the component `.` (`.` itself or `x/.`).
      There `local + fname` starts with a dot inside the same folder, and the
      model, which does not interpret `.`, would place it elsewhere. */
  predicate EndsInDot(dir: string) {
    dir == "." || (|dir| >= 2 && dir[|dir| - 2..] == "/.")
  }

  /** Without a trailing slash, `dir + name` is a sibling of `dir`, not an
      entry inside it: both resolve to the same number of components. */
  lemma AsWrittenEscapesDir(dir: string, name: string)
    requires dir != [] && dir[|dir| - 1] != '/' && !EndsInDot(dir) && IsEntryName(name)
    ensures |Resolve(LocalPathAsWritten(dir, name)).parts| == |Resolve(dir).parts|
    ensures ListDir({Resolve(LocalPathAsWritten(dir, name))}, dir) == {}
  {
    var s := dir + name;
    var k := LastSlash(dir);
    assert LastSlash(s) == k by {
      assert forall j :: |dir| <= j < |s| ==> s[j] == name[j - |dir|];
      assert forall j :: 0 <= j < |dir| ==> s[j] == dir[j];
    }
    assert s[k + 1..] == dir[k + 1..] + name;
    if k >= 0 {
      assert s[..k] == dir[..k];
    }
  }

  /** With a trailing slash (`'./agh_sp500_data_files/'`) the as-written
      path is the entry `name` inside the folder and is listed. */
  lemma AsWrittenWithTrailingSlash(dir: string, name: string)
    requires dir != [] && dir[|dir| - 1] == '/' && IsEntryName(name)
    ensures name in ListDir({Resolve(LocalPathAsWritten(dir, name))}, dir)
  {
    AppendEntry(dir, name);
    assert (dir + name)[0] == dir[0];
    var d := Resolve(dir);
    var p := Resolve(dir + name);
    assert p.parts[..|d.parts|] == d.parts;
  }

  /** A one-day run into the folder `dir` downloads yesterday whenever
      that trading day is missing from the folder's inventory. */
  lemma OneDayRun(env: Env, today: Date, dir: string)
    requires Valid(today) && today != MinDate && dir != ""
    requires Resolve(dir) in env.dirs && PrevDay(today) in env.trading
    requires Format(PrevDay(today)) !in InventoryOf(env, LocalDir(dir))
    ensures var r := Run(env, today, 1, Some(dir));
      && r.Completed?
      && |r.steps| == 1
      && r.steps[0].date == PrevDay(today)
      && r.steps[0].outcome.Downloaded?
      && r.steps[0].outcome.write == ToFile(dir, FileName(PrevDay(today)))
  {
    var d := PrevDay(today);
    var dest := LocalDir(dir);
    var inv := InventoryOf(env, dest);
    assert SelectDestination(Some(dir)) == dest;
    assert AddDays(today, -1) == Some(d);
    assert Candidates(today, 1) == [d];
    var steps := Steps([d], env.trading, inv, dest);
    assert Run(env, today, 1, Some(dir)) == Completed(dest, steps);
    assert steps[0].outcome == Downloaded(Fetch(Format(d), Format(NextDay(d))), ToFile(dir, FileName(d)));
  }

  /** Storing `main`'s writes into the folder `dir` (no trailing slash)
      leaves the folder's listing as it was. */
  lemma {:induction false} AsWrittenListing(env: Env, steps: seq<Step>, dir: string)
    requires dir != "" && dir[|dir| - 1] != '/' && !EndsInDot(dir)
    requires forall i :: 0 <= i < |steps| && steps[i].outcome.Downloaded? ==>
      steps[i].outcome.write.ToFile? && steps[i].outcome.write.dir == dir
      && IsEntryName(steps[i].outcome.write.name)
    ensures ListDir(PersistAsWritten(env, steps).files, dir) == ListDir(env.files, dir)
    decreases |steps|
  {
    if steps != [] {
      var init := steps[..|steps| - 1];
      var last := steps[|steps| - 1];
      assert forall i :: 0 <= i < |init| ==> init[i] == steps[i];
      AsWrittenListing(env, init, dir);
      var before := PersistAsWritten(env, init);
      if last.outcome.Downloaded? {
        var w := last.outcome.write;
        var written := Resolve(LocalPathAsWritten(dir, w.name));
        assert PersistAsWritten(env, steps).files == before.files + {written};
        AsWrittenEscapesDir(dir, w.name);
        ListDirUnion(before.files, {written}, dir);
      }
    }
  }

  /** In a folder named without a trailing slash, what a run stores is
      invisible to the next run's lister, so rerunning with the same window
      repeats the run exactly: every day downloaded before is downloaded
      again. */
  lemma AsWrittenRedownloadsIn(env: Env, today: Date, days: int, dir: string)
    requires Valid(today) && dir != "" && dir[|dir| - 1] != '/' && !EndsInDot(dir)
    requires Run(env, today, days, Some(dir)).Completed?
    ensures var first := Run(env, today, days, Some(dir));
      Run(PersistAsWritten(env, first.steps), today, days, Some(dir)) == first
  {
    var first := Run(env, today, days, Some(dir));
    var env2 := PersistAsWritten(env, first.steps);
    forall i | 0 <= i < |first.steps| && first.steps[i].outcome.Downloaded?
      ensures IsEntryName(first.steps[i].outcome.write.name)
    {
      assert first.steps[i].outcome.write.name == FileName(first.steps[i].date);
    }
    AsWrittenListing(env, first.steps, dir);
    assert InventoryOf(env2, LocalDir(dir)) == InventoryOf(env, LocalDir(dir));
  }

  /** The concrete instance: folder `data`, today 2024-01-03, trading day
      2024-01-02 downloaded on both runs. */
  lemma AsWrittenRedownloads()
    ensures var d := Date(2024, 1, 2);
      var env := Env({}, {Resolve("data")}, {}, {d});
      var today := Date(2024, 1, 3);
      var first := Run(env, today, 1, Some("data"));
      && first.Completed? && |first.steps| == 1
      && first.steps[0].date == d && first.steps[0].outcome.Downloaded?
      && var second := Run(PersistAsWritten(env, first.steps), today, 1, Some("data"));
      && second.Completed? && |second.steps| == 1
      && second.steps[0].date == d && second.steps[0].outcome.Downloaded?
  {
    var today := Date(2024, 1, 3);
    var env := Env({}, {Resolve("data")}, {}, {Date(2024, 1, 2)});
    assert PrevDay(today) == Date(2024, 1, 2);
    OneDayRun(env, today, "data");
    AsWrittenRedownloadsIn(env, today, 1, "data");
  }
}
