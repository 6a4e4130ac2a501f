/** The `status` command: one worker for each received target, all sharing the
    set of addresses seen, the list of reports, a failure flag and a progress
    counter.  Steps of the workers and of the receiving thread interleave freely. */
module StatusFanOut {
  import opened Wrappers

  datatype Target = Target(address: string, name: Option<string>)

  /** What querying a daemon yields. */
  datatype Response =
    | TransportError
    | Status(updates: seq<string>)
    | BadStatus
    | HttpError(parsed: bool)

  datatype Verdict = Verdict(failed: bool, outdated: bool)

  function Judge(response: Response): (v: Verdict)
    ensures v.failed <==> response.TransportError?
    ensures v.outdated <==> response.Status? && response.updates != []
  {
    match response
    case TransportError => Verdict(true, false)
    case Status(updates) => Verdict(false, |updates| > 0)
    case BadStatus => Verdict(false, false)
    case HttpError(_) => Verdict(false, false)
  }

  /** A report, with the worker it comes from. */
  datatype Report = Report(worker: nat, name: string, failed: bool, outdated: bool)

  datatype Worker =
    | Started
    | Duplicate
    | Querying
    | Answered(verdict: Verdict)
    | Flagged(verdict: Verdict)
    | Reported
    | Done(reported: bool)

  /** pending is the target whose length step is done and whose worker is not
      yet spawned; winners[a] is the worker that entered address a. */
  datatype State = State(
    pending: Option<Target>,
    closed: bool,
    targets: seq<Target>,
    workers: seq<Worker>,
    winners: map<string, nat>,
    reports: seq<Report>,
    anyFailed: bool,
    position: nat,
    length: nat)

  datatype Event =
    | Receive(target: Target)
    | SpawnWorker
    | Close
    | EnterSeen(w: nat)
    | Query(w: nat, response: Response)
    | RaiseFlag(w: nat)
    | Push(w: nat)
    | Advance(w: nat)

  const INITIAL := State(None, false, [], [], map[], [], false, 0, 0)

  predicate WorkerAt(s: State, w: nat) {
    w < |s.workers| && w < |s.targets|
  }

  predicate Enabled(s: State, e: Event) {
    match e
    case Receive(_) => !s.closed && s.pending.None?
    case SpawnWorker => s.pending.Some?
    case Close => !s.closed && s.pending.None?
    case EnterSeen(w) => WorkerAt(s, w) && s.workers[w].Started?
    case Query(w, _) => WorkerAt(s, w) && s.workers[w].Querying?
    case RaiseFlag(w) => WorkerAt(s, w) && s.workers[w].Answered?
    case Push(w) => WorkerAt(s, w) && s.workers[w].Flagged?
    case Advance(w) => WorkerAt(s, w) && (s.workers[w].Duplicate? || s.workers[w].Reported?)
  }

  function Shown(t: Target): string {
    if t.name.Some? then t.name.value else t.address
  }

  function Apply(s: State, e: Event): State
    requires Enabled(s, e)
  {
    match e
    case Receive(t) => s.(pending := Some(t), length := s.length + 1)
    case SpawnWorker =>
      s.(pending := None, targets := s.targets + [s.pending.value], workers := s.workers + [Started])
    case Close => s.(closed := true)
    case EnterSeen(w) =>
      var a := s.targets[w].address;
      if a in s.winners then s.(workers := s.workers[w := Duplicate])
      else s.(workers := s.workers[w := Querying], winners := s.winners[a := w])
    case Query(w, response) => s.(workers := s.workers[w := Answered(Judge(response))])
    case RaiseFlag(w) =>
      var v := s.workers[w].verdict;
      s.(workers := s.workers[w := Flagged(v)], anyFailed := s.anyFailed || v.failed)
    case Push(w) =>
      var v := s.workers[w].verdict;
      s.(workers := s.workers[w := Reported],
         reports := s.reports + [Report(w, Shown(s.targets[w]), v.failed, v.outdated)])
    case Advance(w) => s.(workers := s.workers[w := Done(s.workers[w].Reported?)], position := s.position + 1)
  }

  function Exec(run: seq<Event>): Option<State> {
    if |run| == 0 then Some(INITIAL)
    else
      match Exec(run[..|run| - 1])
      case None => None
      case Some(s) => if Enabled(s, run[|run| - 1]) then Some(Apply(s, run[|run| - 1])) else None
  }

  // ----- the invariant -----

  predicate HasWon(w: Worker) {
    w.Querying? || w.Answered? || w.Flagged? || w.Reported? || w == Done(true)
  }

  predicate HasReported(w: Worker) {
    w.Reported? || w == Done(true)
  }

  /** A worker past the seen-set finds its address there, under its own number
      exactly if it goes on to query and report. */
  ghost predicate WorkerRight(s: State, w: nat)
    requires w < |s.workers| == |s.targets|
  {
    var a := s.targets[w].address;
    && (!s.workers[w].Started? ==> a in s.winners)
    && (HasWon(s.workers[w]) <==> a in s.winners && s.winners[a] == w)
  }

  ghost predicate WinnersRight(s: State) {
    && |s.workers| == |s.targets|
    && (forall w | 0 <= w < |s.workers| :: WorkerRight(s, w))
    && (forall a | a in s.winners :: s.winners[a] < |s.workers| && s.targets[s.winners[a]].address == a)
  }

  ghost predicate VerdictFine(w: Worker) {
    w.Answered? || w.Flagged? ==> !(w.verdict.failed && w.verdict.outdated)
  }

  ghost predicate ReportRight(s: State, r: Report) {
    r.worker < |s.targets| && r.name == Shown(s.targets[r.worker]) && !(r.failed && r.outdated)
  }

  function Reporters(reports: seq<Report>): set<nat> {
    set r | r in reports :: r.worker
  }

  /** Each worker that has reported did so once. */
  ghost predicate ReportsRight(s: State) {
    && |s.workers| == |s.targets|
    && (forall r | r in s.reports :: ReportRight(s, r))
    && (forall j, k | 0 <= j < k < |s.reports| :: s.reports[j].worker != s.reports[k].worker)
    && (forall w: nat | w < |s.workers| :: HasReported(s.workers[w]) <==> w in Reporters(s.reports))
    && (forall w | 0 <= w < |s.workers| :: VerdictFine(s.workers[w]))
  }

  /** The flag is up exactly when a failure has been noted. */
  ghost predicate FlagRight(s: State) {
    s.anyFailed <==>
    || (exists w | 0 <= w < |s.workers| :: s.workers[w].Flagged? && s.workers[w].verdict.failed)
    || (exists k | 0 <= k < |s.reports| :: s.reports[k].failed)
  }

  function DoneCount(workers: seq<Worker>): nat {
    if |workers| == 0 then 0
    else DoneCount(workers[..|workers| - 1]) + if workers[|workers| - 1].Done? then 1 else 0
  }

  ghost predicate ProgressRight(s: State) {
    && s.position == DoneCount(s.workers)
    && s.length == |s.workers| + if s.pending.Some? then 1 else 0
  }

  ghost predicate Inv(s: State) {
    WinnersRight(s) && ReportsRight(s) && FlagRight(s) && ProgressRight(s)
  }

  lemma {:induction false} DoneCountBound(workers: seq<Worker>)
    ensures DoneCount(workers) <= |workers|
    ensures DoneCount(workers) == |workers| <==> forall w | 0 <= w < |workers| :: workers[w].Done?
  {
    if |workers| > 0 {
      DoneCountBound(workers[..|workers| - 1]);
    }
  }

  lemma {:induction false} DoneCountUpdate(workers: seq<Worker>, w: nat, after: Worker)
    requires w < |workers| && !workers[w].Done?
    ensures DoneCount(workers[w := after]) == DoneCount(workers) + if after.Done? then 1 else 0
  {
    var n := |workers| - 1;
    if w < n {
      assert workers[w := after][..n] == workers[..n][w := after];
      DoneCountUpdate(workers[..n], w, after);
    } else {
      assert workers[w := after][..n] == workers[..n];
    }
  }

  /** A worker past the seen-set moves on without changing what it won. */
  lemma MovedOnKeepsWinners(s: State, after: State, w: nat, next: Worker)
    requires WinnersRight(s) && WorkerAt(s, w)
    requires !s.workers[w].Started? && !next.Started? && HasWon(s.workers[w]) == HasWon(next)
    requires after.workers == s.workers[w := next] && after.targets == s.targets && after.winners == s.winners
    ensures WinnersRight(after)
  {
    forall v | 0 <= v < |after.workers| ensures WorkerRight(after, v) {
      assert WorkerRight(s, v);
    }
  }

  lemma EnterSeenKeepsWinners(s: State, w: nat)
    requires WinnersRight(s) && Enabled(s, EnterSeen(w))
    ensures WinnersRight(Apply(s, EnterSeen(w)))
  {
    var after := Apply(s, EnterSeen(w));
    assert WorkerRight(s, w);
    forall v | 0 <= v < |after.workers| ensures WorkerRight(after, v) {
      assert WorkerRight(s, v);
    }
  }

  lemma StepKeepsWinners(s: State, e: Event)
    requires Enabled(s, e) && WinnersRight(s)
    ensures WinnersRight(Apply(s, e))
  {
    var after := Apply(s, e);
    match e {
      case SpawnWorker =>
        forall w | 0 <= w < |after.workers| ensures WorkerRight(after, w) {
          if w < |s.workers| { assert WorkerRight(s, w); }
        }
      case EnterSeen(w) => EnterSeenKeepsWinners(s, w);
      case Query(w, _) => MovedOnKeepsWinners(s, after, w, after.workers[w]);
      case RaiseFlag(w) => MovedOnKeepsWinners(s, after, w, after.workers[w]);
      case Push(w) => MovedOnKeepsWinners(s, after, w, after.workers[w]);
      case Advance(w) => MovedOnKeepsWinners(s, after, w, after.workers[w]);
      case _ =>
        forall w | 0 <= w < |after.workers| ensures WorkerRight(after, w) {
          assert WorkerRight(s, w);
        }
    }
  }

  /** A worker moves on without reporting anything. */
  lemma MovedOnKeepsReports(s: State, after: State, w: nat, next: Worker)
    requires ReportsRight(s) && WorkerAt(s, w)
    requires HasReported(s.workers[w]) == HasReported(next) && VerdictFine(next)
    requires after.workers == s.workers[w := next] && after.targets == s.targets && after.reports == s.reports
    ensures ReportsRight(after)
  {
  }

  lemma PushKeepsReports(s: State, w: nat)
    requires ReportsRight(s) && Enabled(s, Push(w))
    ensures ReportsRight(Apply(s, Push(w)))
  {
  }

  lemma StepKeepsReports(s: State, e: Event)
    requires Enabled(s, e) && ReportsRight(s)
    ensures ReportsRight(Apply(s, e))
  {
    var after := Apply(s, e);
    match e {
      case SpawnWorker =>
        assert forall w | 0 <= w < |s.workers| :: after.workers[w] == s.workers[w] && after.targets[w] == s.targets[w];
      case EnterSeen(w) => MovedOnKeepsReports(s, after, w, after.workers[w]);
      case Query(w, _) => MovedOnKeepsReports(s, after, w, after.workers[w]);
      case RaiseFlag(w) => MovedOnKeepsReports(s, after, w, after.workers[w]);
      case Push(w) => PushKeepsReports(s, w);
      case Advance(w) => MovedOnKeepsReports(s, after, w, after.workers[w]);
      case _ =>
    }
  }

  lemma StepKeepsFlag(s: State, e: Event)
    requires Enabled(s, e) && WinnersRight(s) && FlagRight(s)
    ensures FlagRight(Apply(s, e))
  {
    var after := Apply(s, e);
    match e {
      case RaiseFlag(w) =>
        assert after.workers[w] == Flagged(s.workers[w].verdict);
        assert forall v | 0 <= v < |s.workers| && v != w :: after.workers[v] == s.workers[v];
      case Push(w) =>
        assert after.reports[|s.reports|].failed == s.workers[w].verdict.failed;
        assert forall k | 0 <= k < |s.reports| :: after.reports[k] == s.reports[k];
        assert forall v | 0 <= v < |s.workers| && v != w :: after.workers[v] == s.workers[v];
      case SpawnWorker =>
        assert forall v | 0 <= v < |s.workers| :: after.workers[v] == s.workers[v];
      case _ =>
        assert forall v | 0 <= v < |s.workers| && s.workers[v].Flagged? :: after.workers[v] == s.workers[v];
        assert forall v | 0 <= v < |s.workers| && after.workers[v].Flagged? :: after.workers[v] == s.workers[v];
    }
  }

  lemma StepKeepsProgress(s: State, e: Event)
    requires Enabled(s, e) && ProgressRight(s)
    ensures ProgressRight(Apply(s, e))
  {
    match e {
      case SpawnWorker => assert (s.workers + [Started])[..|s.workers|] == s.workers;
      case EnterSeen(w) => DoneCountUpdate(s.workers, w, Apply(s, e).workers[w]);
      case Query(w, _) => DoneCountUpdate(s.workers, w, Apply(s, e).workers[w]);
      case RaiseFlag(w) => DoneCountUpdate(s.workers, w, Apply(s, e).workers[w]);
      case Push(w) => DoneCountUpdate(s.workers, w, Apply(s, e).workers[w]);
      case Advance(w) => DoneCountUpdate(s.workers, w, Apply(s, e).workers[w]);
      case _ =>
    }
  }

  lemma {:induction false} RunsKeepInv(run: seq<Event>)
    requires Exec(run).Some?
    ensures Inv(Exec(run).value)
  {
    if |run| > 0 {
      var s, e := Exec(run[..|run| - 1]).value, run[|run| - 1];
      RunsKeepInv(run[..|run| - 1]);
      StepKeepsWinners(s, e);
      StepKeepsReports(s, e);
      StepKeepsFlag(s, e);
      StepKeepsProgress(s, e);
    }
  }

  // ----- main results -----

  /** Progress never runs ahead, and it is full exactly when every worker of
      every received target is done. */
  lemma ProgressIsBounded(run: seq<Event>)
    requires Exec(run).Some?
    ensures var s := Exec(run).value;
            && s.position <= s.length
            && (s.position == s.length <==> s.pending.None? && forall w | 0 <= w < |s.workers| :: s.workers[w].Done?)
  {
    RunsKeepInv(run);
    DoneCountBound(Exec(run).value.workers);
  }

  /** The command is over: no more targets and every worker done. */
  ghost predicate Complete(s: State) {
    s.closed && s.pending.None? && forall w | 0 <= w < |s.workers| :: s.workers[w].Done?
  }

  function ReceivedAddresses(s: State): set<string> {
    set t | t in s.targets :: t.address
  }

  function ReportedAddresses(s: State): (r: seq<string>)
    requires forall k | 0 <= k < |s.reports| :: s.reports[k].worker < |s.targets|
    ensures |r| == |s.reports|
  {
    seq(|s.reports|, k requires 0 <= k < |s.reports| => s.targets[s.reports[k].worker].address)
  }

  lemma {:induction false} DistinctSeqIsItsSet(items: seq<string>)
    requires forall j, k | 0 <= j < k < |items| :: items[j] != items[k]
    ensures multiset(items) == multiset(set x | x in items)
  {
    if |items| > 0 {
      var n := |items| - 1;
      DistinctSeqIsItsSet(items[..n]);
      assert items == items[..n] + [items[n]];
      assert (set x | x in items) == (set x | x in items[..n]) + {items[n]};
      assert items[n] !in items[..n];
    }
  }

  lemma ReportsNameWorkers(s: State)
    requires ReportsRight(s)
    ensures forall k | 0 <= k < |s.reports| ::
              && s.reports[k].worker < |s.targets| && ReportRight(s, s.reports[k])
              && s.reports[k].worker in Reporters(s.reports)
  {
    forall k | 0 <= k < |s.reports|
      ensures s.reports[k].worker < |s.targets| && ReportRight(s, s.reports[k])
      ensures s.reports[k].worker in Reporters(s.reports)
    {
      assert s.reports[k] in s.reports;
    }
  }

  lemma ReportedAreDistinct(s: State)
    requires WinnersRight(s) && ReportsRight(s)
    ensures forall k | 0 <= k < |s.reports| :: s.reports[k].worker < |s.targets|
    ensures forall j, k | 0 <= j < k < |s.reports| :: ReportedAddresses(s)[j] != ReportedAddresses(s)[k]
  {
    ReportsNameWorkers(s);
    forall j, k | 0 <= j < k < |s.reports| ensures ReportedAddresses(s)[j] != ReportedAddresses(s)[k] {
      assert s.reports[j] in s.reports && s.reports[k] in s.reports;
      assert WorkerRight(s, s.reports[j].worker) && WorkerRight(s, s.reports[k].worker);
    }
  }

  lemma ReceivedAreReported(s: State)
    requires WinnersRight(s) && ReportsRight(s) && Complete(s)
    ensures forall k | 0 <= k < |s.reports| :: s.reports[k].worker < |s.targets|
    ensures ReceivedAddresses(s) == set a | a in ReportedAddresses(s)
  {
    ReportsNameWorkers(s);
    var reported := ReportedAddresses(s);
    forall w | 0 <= w < |s.targets| ensures s.targets[w].address in reported {
      assert WorkerRight(s, w);
      var winner := s.winners[s.targets[w].address];
      assert WorkerRight(s, winner);
      assert winner in Reporters(s.reports);
      var r :| r in s.reports && r.worker == winner;
      var k :| 0 <= k < |s.reports| && s.reports[k] == r;
      assert reported[k] == s.targets[w].address;
    }
    forall a | a in reported ensures a in ReceivedAddresses(s) {
      var k :| 0 <= k < |reported| && reported[k] == a;
      assert s.targets[s.reports[k].worker] in s.targets;
    }
  }

  /** When the command is over there is exactly one report for every distinct
      address received, under the name the winning target carried; the failure
      flag is up exactly when some report failed; no report is both failed and
      outdated; and progress is full. */
  lemma OneReportPerAddress(run: seq<Event>)
    requires Exec(run).Some? && Complete(Exec(run).value)
    ensures var s := Exec(run).value;
            && (forall k | 0 <= k < |s.reports| ::
                  s.reports[k].worker < |s.targets|
                  && var target := s.targets[s.reports[k].worker];
                     s.reports[k].name == if target.name.Some? then target.name.value else target.address)
            && multiset(ReportedAddresses(s)) == multiset(ReceivedAddresses(s))
            && (s.anyFailed <==> exists k | 0 <= k < |s.reports| :: s.reports[k].failed)
            && (forall k | 0 <= k < |s.reports| :: !(s.reports[k].failed && s.reports[k].outdated))
            && s.position == s.length == |s.targets|
  {
    RunsKeepInv(run);
    var s := Exec(run).value;
    DoneCountBound(s.workers);
    ReportsNameWorkers(s);
    ReportedAreDistinct(s);
    ReceivedAreReported(s);
    DistinctSeqIsItsSet(ReportedAddresses(s));
  }

  /** Worker w was answered, and the answer was judged so. */
  ghost predicate WasJudged(run: seq<Event>, w: nat, verdict: Verdict) {
    exists i | 0 <= i < |run| :: run[i].Query? && run[i].w == w && Judge(run[i].response) == verdict
  }

  lemma JudgedBefore(run: seq<Event>, n: nat, w: nat, verdict: Verdict)
    requires n <= |run| && WasJudged(run[..n], w, verdict)
    ensures WasJudged(run, w, verdict)
  {
  }

  /** Every report says what its worker's own query found. */
  lemma {:induction false} ReportsSayWhatWasFound(run: seq<Event>)
    requires Exec(run).Some?
    ensures var s := Exec(run).value;
            && (forall k | 0 <= k < |s.reports| ::
                  WasJudged(run, s.reports[k].worker, Verdict(s.reports[k].failed, s.reports[k].outdated)))
            && (forall w | 0 <= w < |s.workers| && (s.workers[w].Answered? || s.workers[w].Flagged?) ::
                  WasJudged(run, w, s.workers[w].verdict))
  {
    if |run| > 0 {
      var n := |run| - 1;
      var before, after, e := Exec(run[..n]).value, Exec(run).value, run[n];
      ReportsSayWhatWasFound(run[..n]);
      forall k | 0 <= k < |after.reports|
        ensures WasJudged(run, after.reports[k].worker, Verdict(after.reports[k].failed, after.reports[k].outdated))
      {
        if k < |before.reports| {
          JudgedBefore(run, n, before.reports[k].worker, Verdict(before.reports[k].failed, before.reports[k].outdated));
        } else {
          JudgedBefore(run, n, e.w, before.workers[e.w].verdict);
        }
      }
      forall w | 0 <= w < |after.workers| && (after.workers[w].Answered? || after.workers[w].Flagged?)
        ensures WasJudged(run, w, after.workers[w].verdict)
      {
        if e.Query? && e.w == w {
          assert run[n].Query?;
        } else {
          JudgedBefore(run, n, w, before.workers[w].verdict);
        }
      }
    }
  }

  /** What was received is what was sent: nothing is lost between the channel
      and the workers. */
  function Received(run: seq<Event>): seq<Target> {
    if |run| == 0 then []
    else Received(run[..|run| - 1]) + if run[|run| - 1].Receive? then [run[|run| - 1].target] else []
  }

  lemma {:induction false} EveryTargetGetsAWorker(run: seq<Event>)
    requires Exec(run).Some?
    ensures var s := Exec(run).value;
            Received(run) == s.targets + if s.pending.Some? then [s.pending.value] else []
  {
    if |run| > 0 {
      EveryTargetGetsAWorker(run[..|run| - 1]);
    }
  }

  // ----- the command can always finish -----

  /** The steps a worker has before it. */
  function Left(w: Worker): nat {
    match w
    case Started => 5
    case Querying => 4
    case Answered(_) => 3
    case Flagged(_) => 2
    case Reported => 1
    case Duplicate => 1
    case Done(_) => 0
  }

  function AllLeft(workers: seq<Worker>): nat {
    if |workers| == 0 then 0 else AllLeft(workers[..|workers| - 1]) + Left(workers[|workers| - 1])
  }

  lemma {:induction false} AllLeftUpdate(workers: seq<Worker>, w: nat, after: Worker)
    requires w < |workers|
    ensures AllLeft(workers[w := after]) == AllLeft(workers) - Left(workers[w]) + Left(after)
  {
    var n := |workers| - 1;
    if w < n {
      assert workers[w := after][..n] == workers[..n][w := after];
      AllLeftUpdate(workers[..n], w, after);
    } else {
      assert workers[w := after][..n] == workers[..n];
    }
  }

  function StepsLeft(s: State): nat {
    AllLeft(s.workers) + (if s.pending.Some? then 6 else 0) + if s.closed then 0 else 1
  }

  lemma FewerLeft(s: State, after: State, w: nat, next: Worker)
    requires w < |s.workers| && after.workers == s.workers[w := next] && Left(next) < Left(s.workers[w])
    requires after.pending == s.pending && after.closed == s.closed
    ensures StepsLeft(after) < StepsLeft(s)
  {
    AllLeftUpdate(s.workers, w, next);
  }

  lemma WorkerGoesOn(s: State, w: nat) returns (e: Event)
    requires |s.workers| == |s.targets| && w < |s.workers| && !s.workers[w].Done?
    ensures Enabled(s, e) && StepsLeft(Apply(s, e)) < StepsLeft(s)
  {
    match s.workers[w] {
      case Started => e := EnterSeen(w);
      case Querying => e := Query(w, TransportError);
      case Answered(_) => e := RaiseFlag(w);
      case Flagged(_) => e := Push(w);
      case Duplicate => e := Advance(w);
      case Reported => e := Advance(w);
    }
    FewerLeft(s, Apply(s, e), w, Apply(s, e).workers[w]);
  }

  lemma CommandGoesOn(s: State) returns (e: Event)
    requires |s.workers| == |s.targets| && !Complete(s)
    ensures Enabled(s, e) && StepsLeft(Apply(s, e)) < StepsLeft(s)
  {
    if s.pending.Some? {
      e := SpawnWorker;
      assert (s.workers + [Started])[..|s.workers|] == s.workers;
    } else if !s.closed {
      e := Close;
    } else {
      var w :| 0 <= w < |s.workers| && !s.workers[w].Done?;
      e := WorkerGoesOn(s, w);
    }
  }

  lemma ExecOneMore(run: seq<Event>, e: Event)
    requires Exec(run).Some? && Enabled(Exec(run).value, e)
    ensures Exec(run + [e]) == Some(Apply(Exec(run).value, e))
  {
    assert (run + [e])[..|run|] == run;
  }

  lemma Regroup(a: seq<Event>, b: seq<Event>, c: seq<Event>)
    ensures a + b + c == a + (b + c)
  {
  }

  lemma TargetsHaveWorkers(run: seq<Event>)
    requires Exec(run).Some?
    ensures |Exec(run).value.workers| == |Exec(run).value.targets|
  {
    RunsKeepInv(run);
  }

  /** From wherever a run stands the command can finish: no worker ever waits for
      another. */
  lemma {:induction false} CanComplete(run: seq<Event>) returns (rest: seq<Event>)
    requires Exec(run).Some?
    ensures Exec(run + rest).Some? && Complete(Exec(run + rest).value)
    decreases StepsLeft(Exec(run).value)
  {
    var s := Exec(run).value;
    if Complete(s) {
      rest := [];
      assert run + rest == run;
    } else {
      TargetsHaveWorkers(run);
      var e := CommandGoesOn(s);
      ExecOneMore(run, e);
      var further := CanComplete(run + [e]);
      rest := [e] + further;
      Regroup(run, [e], further);
    }
  }
}
