/** The incremental download run (`main`): choose the destination, refuse
    an invalid local folder, read the inventory once, then walk the window
    of candidate days oldest first and, for each, skip it (not a trading
    day / already downloaded) or fetch that one day and write it under the
    fixed file name. The trading calendar, the file system and the bucket
    are observed through `Env`; fetching and writing are recorded as the
    events they would be. */
module Downloader {
  import opened Options
  import opened Dates
  import opened Window
  import opened Paths
  import opened FileNames

  const ProjectId: string := "agh-ycgn288-sp500-project"
  const BucketName: string := "agh_sp500"
  const InvalidPathStatus: int := 1

  /** What a run observes of the outside world. */
  datatype Env = Env(
    files: set<Path>,     // regular files of the local file system
    dirs: set<Path>,      // existing directories
    blobs: set<string>,   // object names in the bucket
    trading: set<Date>)   // days the exchange is open

  datatype Destination = LocalDir(dir: string) | Bucket(project: string, bucket: string)

  /** `yf.download(tickers, start, end)` for the fixed ticker list. */
  datatype Fetch = Fetch(start: string, end: string)

  /** A CSV written into a local folder, or uploaded as a bucket object. */
  datatype Write = ToFile(dir: string, name: string) | ToBlob(bucket: string, name: string)

  datatype Outcome =
    | NotTradingDay
    | AlreadyDownloaded
    | Downloaded(fetch: Fetch, write: Write)

  datatype Step = Step(date: Date, outcome: Outcome)

  datatype RunResult =
    | InvalidPath(status: int)                      // message printed, `exit(1)`
    | DateOverflow(dest: Destination)               // `today - timedelta(days)` leaves the calendar
    | Completed(dest: Destination, steps: seq<Step>)

  /** `if local:` — a missing or empty local path selects the bucket. */
  function SelectDestination(local: Option<string>): (dest: Destination)
    ensures dest.LocalDir? <==> local.Some? && local.value != ""
    ensures dest.LocalDir? ==> dest.dir == local.value
    ensures dest.Bucket? ==> dest == Bucket(ProjectId, BucketName)
  {
    if local.Some? && local.value != "" then LocalDir(local.value)
    else Bucket(ProjectId, BucketName)
  }

  /** The names the destination's lister sees: the bucket's object names,
      or the entry names `f` for which `dir + '/' + f` is a file. */
  function Listing(env: Env, dest: Destination): (names: set<string>)
    ensures dest.Bucket? ==> names == env.blobs
    ensures dest.LocalDir? && dest.dir != "" && WellFormed(env.files) ==>
      forall f :: f in names <==> IsEntryName(f) && Resolve(dest.dir + "/" + f) in env.files
  {
    if dest.LocalDir? && dest.dir != "" && WellFormed(env.files) then
      ListDirIff(env.files, dest.dir);
      ListDir(env.files, dest.dir)
    else
      match dest
    case LocalDir(dir) => ListDir(env.files, dir)
    case Bucket(_, _) => env.blobs
  }

  /** The dates already downloaded, read once before the loop: the date
      field of every listed name, and nothing else. */
  function InventoryOf(env: Env, dest: Destination): (inv: set<string>)
    ensures forall n :: n in Listing(env, dest) ==> DateField(n) in inv
    ensures forall s :: s in inv ==> exists n :: n in Listing(env, dest) && DateField(n) == s
  {
    Inventory(Listing(env, dest))
  }

  /** Where a downloaded day goes: its file name, in the chosen folder or
      bucket. */
  function WriteFor(dest: Destination, d: Date): (w: Write)
    requires Valid(d)
    ensures w.name == FileName(d) && DateField(w.name) == Format(d)
    ensures w.ToFile? <==> dest.LocalDir?
    ensures w.ToFile? ==> w.dir == dest.dir
    ensures w.ToBlob? ==> w.bucket == dest.bucket
  {
    FileNameRoundTrip([], d);
    assert [] + FileName(d) == FileName(d);
    match dest
    case LocalDir(dir) => ToFile(dir, FileName(d))
    case Bucket(_, bucket) => ToBlob(bucket, FileName(d))
  }

  /** The decision for one candidate day. */
  function Classify(d: Date, trading: set<Date>, inv: set<string>, dest: Destination): (o: Outcome)
    requires Valid(d) && d != MaxDate
    ensures o.NotTradingDay? <==> d !in trading
    ensures o.AlreadyDownloaded? <==> d in trading && Format(d) in inv
    ensures o.Downloaded? <==> d in trading && Format(d) !in inv
    ensures o.Downloaded? ==>
      && Parse(o.fetch.start) == Some(d)
      && Parse(o.fetch.end) == Some(NextDay(d))
      && o.write.name == FileName(d)
      && DateField(o.write.name) == Format(d)
      && (dest.LocalDir? <==> o.write.ToFile?)
      && (o.write.ToFile? ==> o.write.dir == dest.dir)
      && (o.write.ToBlob? ==> o.write.bucket == dest.bucket)
  {
    if d !in trading then NotTradingDay
    else if Format(d) in inv then AlreadyDownloaded
    else
      ParseFormat(d);
      ParseFormat(NextDay(d));
      Downloaded(Fetch(Format(d), Format(NextDay(d))), WriteFor(dest, d))
  }

  predicate InCalendar(w: seq<Date>) {
    forall i :: 0 <= i < |w| ==> Valid(w[i]) && w[i] != MaxDate
  }

  /** The per-day decisions over a window, in window order. */
  function Steps(w: seq<Date>, trading: set<Date>, inv: set<string>, dest: Destination): (steps: seq<Step>)
    requires InCalendar(w)
    ensures |steps| == |w|
    ensures forall i :: 0 <= i < |w| ==> steps[i].date == w[i]
    ensures forall i :: 0 <= i < |w| ==> (steps[i].outcome.Downloaded? <==> w[i] in trading && Format(w[i]) !in inv)
  {
    seq(|w|, i requires 0 <= i < |w| => Step(w[i], Classify(w[i], trading, inv, dest)))
  }

  /** `main(days, local)`. */
  function Run(env: Env, today: Date, days: int, local: Option<string>): (r: RunResult)
    requires Valid(today)
    ensures r.InvalidPath? <==> local.Some? && local.value != "" && Resolve(local.value) !in env.dirs
    ensures r.InvalidPath? ==> r.status == 1
    ensures r.DateOverflow? <==> !r.InvalidPath? && AddDays(today, -days).None?
    ensures !r.InvalidPath? ==> r.dest == SelectDestination(local)
    ensures r.Completed? ==> |r.steps| == (if days > 0 then days else 0)
    ensures r.Completed? ==> forall i :: 0 <= i < |r.steps| && r.steps[i].outcome.Downloaded? ==>
      && Valid(r.steps[i].date)
      && r.steps[i].outcome.write.name == FileName(r.steps[i].date)
      && (r.steps[i].outcome.write.ToFile? <==> local.Some? && local.value != "")
      && (r.steps[i].outcome.write.ToFile? ==> r.steps[i].outcome.write.dir == local.value)
      && (r.steps[i].outcome.write.ToBlob? ==> r.steps[i].outcome.write.bucket == BucketName)
  {
    var dest := SelectDestination(local);
    if dest.LocalDir? && Resolve(dest.dir) !in env.dirs then InvalidPath(InvalidPathStatus)
    else
      var start := AddDays(today, -days);
      if start.None? then DateOverflow(dest)
      else
        var n: nat := if days > 0 then days else 0;
        Completed(dest, Steps(Candidates(today, n), env.trading, InventoryOf(env, dest), dest))
  }

  /** The loop of `main` as written: `from_date = start_date + timedelta(days=i)`
      for `i in range(days)`, one decision appended per day. It computes
      exactly the run `Run` describes. */
  method DownloadRecent(env: Env, today: Date, days: int, local: Option<string>) returns (r: RunResult)
    requires Valid(today)
    ensures r == Run(env, today, days, local)
  {
    var dest := SelectDestination(local);
    if dest.LocalDir? && Resolve(dest.dir) !in env.dirs {
      return InvalidPath(InvalidPathStatus);
    }
    var filedates := InventoryOf(env, dest);
    var start := AddDays(today, -days);
    if start.None? {
      return DateOverflow(dest);
    }
    ghost var n: nat := if days > 0 then days else 0;
    ghost var w := Candidates(today, n);
    ghost var all := Steps(w, env.trading, filedates, dest);
    assert days > 0 ==> start.value == Back(today, n).value;
    var steps: seq<Step> := [];
    var i := 0;
    while i < days
      invariant 0 <= i <= n
      invariant steps == all[..i]
    {
      CandidateIsStartPlus(today, n, i);
      var fromDate := Forward(start.value, i).value;
      assert fromDate == w[i];
      steps := steps + [Step(fromDate, Classify(fromDate, env.trading, filedates, dest))];
      assert all[..i + 1] == all[..i] + [all[i]];
      i := i + 1;
    }
    assert steps == all;
    r := Completed(dest, steps);
  }
}
