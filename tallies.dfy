/** Counting records by status, as update_progress_message,
    generate_status_message and start_batch_download do, and the lines the
    progress and status reports show for the records in flight. */
module Tallies {
  import opened Links
  import opened Downloader
  import opened Progress

  /** sum(1 for l in links if l['status'] == st). */
  function Count(states: seq<LinkState>, st: Status): (n: nat)
    ensures n <= |states|
  {
    if states == [] then 0
    else Count(states[..|states| - 1], st) + (if states[|states| - 1].status == st then 1 else 0)
  }

  /** Every record has one of the four statuses, so the four counts add up
      to the number of records. */
  lemma {:induction false} CountsPartition(states: seq<LinkState>)
    ensures Count(states, Pending) + Count(states, Downloading) + Count(states, Completed) + Count(states, Failed) == |states|
  {
    if states != [] {
      CountsPartition(states[..|states| - 1]);
    }
  }

  /** The counts a report shows; `pending` is what is left of the total. */
  datatype Tally = Tally(total: nat, completed: nat, downloading: nat, failed: nat, pending: int)

  /** The counts of update_progress_message, whose pending figure is the
      total minus the other three: it is never negative and is the number
      of pending records. */
  function TallyOf(states: seq<LinkState>): (t: Tally)
    ensures t.total == |states|
    ensures t.completed == Count(states, Completed) && t.downloading == Count(states, Downloading) && t.failed == Count(states, Failed)
    ensures t.pending == Count(states, Pending) >= 0
  {
    CountsPartition(states);
    var c := Count(states, Completed);
    var d := Count(states, Downloading);
    var f := Count(states, Failed);
    Tally(|states|, c, d, f, |states| - c - d - f)
  }

  /** [l for l in links if l['status'] == 'downloading']. */
  function InFlight(states: seq<LinkState>): (r: seq<LinkState>)
    ensures |r| == Count(states, Downloading)
    ensures forall i :: 0 <= i < |r| ==> r[i].status == Downloading && r[i] in states
  {
    if states == [] then []
    else
      var p := InFlight(states[..|states| - 1]);
      var last := states[|states| - 1];
      assert forall x :: x in states[..|states| - 1] ==> x in states;
      if last.status == Downloading then p + [last] else p
  }

  /** A single record is in flight exactly when it is downloading. */
  lemma InFlightSingle(s: LinkState)
    ensures InFlight([s]) == if s.status == Downloading then [s] else []
  {
    assert [s][..0] == [];
  }

  /** The in-flight list keeps record order: the list for two lists one
      after the other is the list for each, one after the other. */
  lemma {:induction false} InFlightAppend(a: seq<LinkState>, b: seq<LinkState>)
    ensures InFlight(a + b) == InFlight(a) + InFlight(b)
    decreases |b|
  {
    if b == [] {
      assert a + b == a;
    } else {
      var n := |b| - 1;
      assert (a + b)[..|a + b| - 1] == a + b[..n];
      InFlightAppend(a, b[..n]);
    }
  }

  /** Python's s[:n]: the first n elements, or all of them when there are
      fewer. */
  function Take<T>(s: seq<T>, n: nat): (r: seq<T>)
    ensures |r| == if |s| < n then |s| else n
    ensures r == s[..|r|]
  {
    if |s| <= n then s else s[..n]
  }

  /** One in-flight entry of a report: the filename cut to the report's
      width, the percentage its bar shows, and whether the size in MB is
      shown (only when the server announced a positive length). */
  datatype Line = Line(name: string, progress: real, sizeKnown: bool)

  function LineFor(s: LinkState, width: nat): (l: Line)
    ensures |l.name| == if |s.info.filename| < width then |s.info.filename| else width
    ensures l.name == s.info.filename[..|l.name|]
    ensures l.progress == s.progress && (l.sizeKnown <==> s.size > 0)
  {
    Line(Take(s.info.filename, width), s.progress, s.size > 0)
  }

  /** The entries for the first `limit` records in flight, in record order. */
  function Lines(states: seq<LinkState>, limit: nat, width: nat): (r: seq<Line>)
    ensures |r| == if Count(states, Downloading) < limit then Count(states, Downloading) else limit
    ensures forall i :: 0 <= i < |r| ==>
      && |r[i].name| <= width
      && r[i] == LineFor(InFlight(states)[i], width)
  {
    var shown := Take(InFlight(states), limit);
    seq(|shown|, i requires 0 <= i < |shown| => LineFor(shown[i], width))
  }

  /** (completed / total) * 100, or 0 for an empty batch. */
  function OverallProgress(completed: nat, total: nat): (p: real)
    requires completed <= total
    ensures 0.0 <= p <= 100.0
    ensures p == 100.0 <==> total > 0 && completed == total
    ensures p == 0.0 <==> completed == 0
  {
    if total > 0 then
      QuotientBounds(completed, total);
      (completed as real) / (total as real) * 100.0
    else 0.0
  }

  /** What update_progress_message reports: the four counts, at most two
      records in flight with their names cut to 30 characters, and the
      overall percentage. */
  datatype ProgressView = ProgressView(tally: Tally, lines: seq<Line>, overall: real)

  function ProgressReport(states: seq<LinkState>): (v: ProgressView)
    ensures v.tally == TallyOf(states)
    ensures |v.lines| <= 2 && (|v.lines| == 0 <==> Count(states, Downloading) == 0)
    ensures |v.lines| == if Count(states, Downloading) < 2 then Count(states, Downloading) else 2
    ensures forall i :: 0 <= i < |v.lines| ==> |v.lines[i].name| <= 30 && v.lines[i] == LineFor(InFlight(states)[i], 30)
    ensures 0.0 <= v.overall <= 100.0
    ensures v.overall == 100.0 <==> states != [] && Count(states, Completed) == |states|
  {
    var t := TallyOf(states);
    ProgressView(t, Lines(states, 2, 30), OverallProgress(t.completed, t.total))
  }

  /** The overall bar of a progress report always fits its 20 cells, and
      is full exactly when every record of a non-empty batch is completed. */
  lemma OverallBar(states: seq<LinkState>)
    ensures |BarCells(ProgressReport(states).overall, 20)| == 20
    ensures (forall i :: 0 <= i < 20 ==> BarCells(ProgressReport(states).overall, 20)[i] == FullCell)
            <==> states != [] && Count(states, Completed) == |states|
  {
    var p := ProgressReport(states).overall;
    BarShape(p, 20);
    if p < 100.0 {
      assert 20.0 * p / 100.0 < 20.0;
      assert BarCells(p, 20)[19] != FullCell;
    }
  }

  /** What generate_status_message reports: the counts without the pending
      figure, and at most three records in flight with their names cut to
      25 characters. */
  datatype StatusView = StatusView(total: nat, completed: nat, downloading: nat, failed: nat, lines: seq<Line>)

  function StatusReport(states: seq<LinkState>): (v: StatusView)
    ensures v.total == |states| && v.completed == Count(states, Completed)
    ensures v.downloading == Count(states, Downloading) && v.failed == Count(states, Failed)
    ensures |v.lines| <= 3 && (|v.lines| == 0 <==> v.downloading == 0)
    ensures |v.lines| == if v.downloading < 3 then v.downloading else 3
    ensures forall i :: 0 <= i < |v.lines| ==> |v.lines[i].name| <= 25 && v.lines[i] == LineFor(InFlight(states)[i], 25)
  {
    var t := TallyOf(states);
    StatusView(t.total, t.completed, t.downloading, t.failed, if t.downloading > 0 then Lines(states, 3, 25) else [])
  }

  /** sum(1 for r in results if r['success']). */
  function Successes(results: seq<DownloadResult>): (n: nat)
    ensures n <= |results|
  {
    if results == [] then 0
    else Successes(results[..|results| - 1]) + (if results[|results| - 1].Success() then 1 else 0)
  }

  /** The figures start_batch_download reports once the batch is over. */
  datatype Summary = Summary(completed: nat, failed: nat)

  function Summarise(results: seq<DownloadResult>): (s: Summary)
    ensures s.completed + s.failed == |results|
    ensures s.completed == Successes(results)
  {
    Summary(Successes(results), |results| - Successes(results))
  }

  /** Once every record of a batch has been through its download, the
      reported successes are exactly the completed records, the reported
      failures exactly the failed ones, and nothing is left pending or in
      flight. */
  lemma {:induction false} BatchOutcomeCounts(before: seq<LinkState>, after: seq<LinkState>,
                                             results: seq<DownloadResult>, env: LinkInfo -> Fetch)
    requires |before| == |after| == |results|
    requires forall k :: 0 <= k < |before| ==> Attempt(after[k], results[k]) == Outcome(before[k], env(before[k].info))
    ensures Summarise(results).completed == Count(after, Completed)
    ensures Summarise(results).failed == Count(after, Failed)
    ensures Count(after, Downloading) == 0 && Count(after, Pending) == 0
  {
    if before != [] {
      var n := |before| - 1;
      BatchOutcomeCounts(before[..n], after[..n], results[..n], env);
      var o := Outcome(before[n], env(before[n].info));
      assert o.state == after[n] && o.result == results[n];
    }
  }
}
