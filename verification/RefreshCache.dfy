/** How often the package managers refresh their package index: a refresh is
    skipped while the last successful one is younger than a time to live. */
module RefreshCache {
  import opened Wrappers
  import PackageListing

  /** Time in ticks of a clock that never runs backwards. */
  type Time = nat

  predicate Due(ttl: nat, stamp: Option<Time>, now: Time) {
    stamp.None? || ttl == 0 || now >= stamp.value + ttl
  }

  // ----- any calls, overlapping or not -----

  /** A refresh that succeeded: when its call looked at the stamp, how many
      refreshes had succeeded by then, and the stamp it set. */
  datatype Refresh = Refresh(checkedAt: Time, known: nat, stamp: Time)

  datatype Call = Refreshing(checkedAt: Time, known: nat) | Skipped(checkedAt: Time, known: nat) | Over

  datatype State = State(clock: Time, stamp: Option<Time>, calls: map<nat, Call>, refreshes: seq<Refresh>)

  datatype Event = Tick(time: Time) | Check(call: nat) | RefreshFails(call: nat) | RefreshDone(call: nat)

  const INITIAL := State(0, None, map[], [])

  predicate Enabled(s: State, e: Event) {
    match e
    case Tick(t) => t >= s.clock
    case Check(c) => c !in s.calls
    case RefreshFails(c) => c in s.calls && s.calls[c].Refreshing?
    case RefreshDone(c) => c in s.calls && s.calls[c].Refreshing?
  }

  function Apply(ttl: nat, s: State, e: Event): State
    requires Enabled(s, e)
  {
    match e
    case Tick(t) => s.(clock := t)
    case Check(c) =>
      var call := if Due(ttl, s.stamp, s.clock) then Refreshing(s.clock, |s.refreshes|)
                  else Skipped(s.clock, |s.refreshes|);
      s.(calls := s.calls[c := call])
    case RefreshFails(c) => s.(calls := s.calls[c := Over])
    case RefreshDone(c) =>
      s.(calls := s.calls[c := Over], stamp := Some(s.clock),
         refreshes := s.refreshes + [Refresh(s.calls[c].checkedAt, s.calls[c].known, s.clock)])
  }

  function Exec(ttl: nat, run: seq<Event>): Option<State> {
    if |run| == 0 then Some(INITIAL)
    else
      match Exec(ttl, run[..|run| - 1])
      case None => None
      case Some(s) => if Enabled(s, run[|run| - 1]) then Some(Apply(ttl, s, run[|run| - 1])) else None
  }

  /** A call that saw k refreshes checked at least ttl after the k-th. */
  ghost predicate CheckedLate(ttl: nat, refreshes: seq<Refresh>, checkedAt: Time, known: nat) {
    known <= |refreshes| && (known > 0 ==> checkedAt >= refreshes[known - 1].stamp + ttl)
  }

  ghost predicate StampsRise(s: State) {
    && (forall i, j | 0 <= i < j < |s.refreshes| :: s.refreshes[i].stamp <= s.refreshes[j].stamp)
    && (forall i | 0 <= i < |s.refreshes| :: s.refreshes[i].checkedAt <= s.refreshes[i].stamp <= s.clock)
    && s.stamp == if |s.refreshes| == 0 then None else Some(s.refreshes[|s.refreshes| - 1].stamp)
  }

  /** A call that skipped saw a refresh less than ttl old. */
  ghost predicate SkippedFresh(ttl: nat, refreshes: seq<Refresh>, checkedAt: Time, known: nat) {
    0 < known <= |refreshes| && refreshes[known - 1].stamp <= checkedAt < refreshes[known - 1].stamp + ttl
  }

  ghost predicate CallRight(ttl: nat, s: State, call: Call) {
    match call
    case Refreshing(at, known) => CheckedLate(ttl, s.refreshes, at, known) && at <= s.clock
    case Skipped(at, known) => SkippedFresh(ttl, s.refreshes, at, known)
    case Over => true
  }

  ghost predicate RefreshesRight(ttl: nat, s: State) {
    forall j | 0 <= j < |s.refreshes| ::
      s.refreshes[j].known <= j && CheckedLate(ttl, s.refreshes, s.refreshes[j].checkedAt, s.refreshes[j].known)
  }

  ghost predicate CallsRight(ttl: nat, s: State) {
    forall c | c in s.calls :: CallRight(ttl, s, s.calls[c])
  }

  ghost predicate Inv(ttl: nat, s: State) {
    StampsRise(s) && RefreshesRight(ttl, s) && CallsRight(ttl, s)
  }

  lemma StepKeepsStamps(ttl: nat, s: State, e: Event)
    requires Enabled(s, e) && StampsRise(s) && CallsRight(ttl, s)
    ensures StampsRise(Apply(ttl, s, e))
  {
  }

  lemma StepKeepsKnown(ttl: nat, s: State, e: Event)
    requires Enabled(s, e) && StampsRise(s) && RefreshesRight(ttl, s) && CallsRight(ttl, s)
    ensures RefreshesRight(ttl, Apply(ttl, s, e))
  {
    if e.RefreshDone? {
      assert CallRight(ttl, s, s.calls[e.call]);
    }
  }

  lemma StepKeepsCalls(ttl: nat, s: State, e: Event)
    requires Enabled(s, e) && StampsRise(s) && CallsRight(ttl, s)
    ensures CallsRight(ttl, Apply(ttl, s, e))
  {
    var after := Apply(ttl, s, e);
    forall c | c in after.calls ensures CallRight(ttl, after, after.calls[c]) {
      assert c in s.calls ==> CallRight(ttl, s, s.calls[c]);
    }
  }

  lemma {:induction false} RunsKeepInv(ttl: nat, run: seq<Event>)
    requires Exec(ttl, run).Some?
    ensures Inv(ttl, Exec(ttl, run).value)
  {
    if |run| > 0 {
      var s, e := Exec(ttl, run[..|run| - 1]).value, run[|run| - 1];
      RunsKeepInv(ttl, run[..|run| - 1]);
      StepKeepsStamps(ttl, s, e);
      StepKeepsKnown(ttl, s, e);
      StepKeepsCalls(ttl, s, e);
    }
  }

  lemma KnownAreSpaced(ttl: nat, s: State, i: nat, j: nat)
    requires StampsRise(s) && RefreshesRight(ttl, s)
    requires i < j < |s.refreshes| && i < s.refreshes[j].known
    ensures s.refreshes[j].stamp >= s.refreshes[i].stamp + ttl
  {
    assert s.refreshes[i].stamp <= s.refreshes[s.refreshes[j].known - 1].stamp;
  }

  /** The times at which refreshes of the run succeeded. */
  function DoneTimes(ttl: nat, run: seq<Event>): seq<Time>
    requires Exec(ttl, run).Some?
  {
    if |run| == 0 then []
    else
      var n := |run| - 1;
      DoneTimes(ttl, run[..n]) + if run[n].RefreshDone? then [Exec(ttl, run[..n]).value.clock] else []
  }

  function LastTick(run: seq<Event>): Time {
    if |run| == 0 then 0
    else if run[|run| - 1].Tick? then run[|run| - 1].time else LastTick(run[..|run| - 1])
  }

  /** Only a success leaves a stamp, the time it had then: a failed refresh or a
      skipped one leaves none. */
  lemma {:induction false} StampsAreDoneTimes(ttl: nat, run: seq<Event>)
    requires Exec(ttl, run).Some?
    ensures Stamps(Exec(ttl, run).value) == DoneTimes(ttl, run)
    ensures Exec(ttl, run).value.clock == LastTick(run)
  {
    if |run| > 0 {
      StampsAreDoneTimes(ttl, run[..|run| - 1]);
    }
  }

  /** What must have happened for a call to stand where it does. */
  ghost predicate CallExplained(s: State, run: seq<Event>, c: nat) {
    if c !in s.calls then Check(c) !in run && RefreshDone(c) !in run && RefreshFails(c) !in run
    else
      && Check(c) in run
      && match s.calls[c]
         case Over => RefreshDone(c) in run <==> RefreshFails(c) !in run
         case _ => RefreshDone(c) !in run && RefreshFails(c) !in run
  }

  lemma CallStep(ttl: nat, s: State, e: Event, run: seq<Event>, c: nat)
    requires Enabled(s, e) && CallExplained(s, run, c)
    ensures CallExplained(Apply(ttl, s, e), run + [e], c)
  {
    assert forall f :: f in run + [e] <==> f in run || f == e;
  }

  /** A call ends once, with a success or a failure, and after its check. */
  lemma {:induction false} CallsAreExplained(ttl: nat, run: seq<Event>, c: nat)
    requires Exec(ttl, run).Some?
    ensures CallExplained(Exec(ttl, run).value, run, c)
  {
    if |run| > 0 {
      var n := |run| - 1;
      CallsAreExplained(ttl, run[..n], c);
      CallStep(ttl, Exec(ttl, run[..n]).value, run[n], run[..n], c);
      assert run == run[..n] + [run[n]];
    }
  }

  /** In every run, overlapping calls included: stamps never decrease; a refresh
      comes at least ttl after every refresh its call knew of; and a skipped one
      follows a success stamped less than ttl before the check. */
  lemma RefreshesAreSpaced(ttl: nat, run: seq<Event>)
    requires Exec(ttl, run).Some?
    ensures var s := Exec(ttl, run).value;
            && (forall i, j | 0 <= i < j < |s.refreshes| :: s.refreshes[i].stamp <= s.refreshes[j].stamp)
            && (forall i, j | 0 <= i < j < |s.refreshes| && i < s.refreshes[j].known ::
                  s.refreshes[j].stamp >= s.refreshes[i].stamp + ttl)
            && (forall c | c in s.calls && s.calls[c].Skipped? ::
                  SkippedFresh(ttl, s.refreshes, s.calls[c].checkedAt, s.calls[c].known))
  {
    RunsKeepInv(ttl, run);
    var s := Exec(ttl, run).value;
    forall i, j | 0 <= i < j < |s.refreshes| && i < s.refreshes[j].known
      ensures s.refreshes[j].stamp >= s.refreshes[i].stamp + ttl
    {
      KnownAreSpaced(ttl, s, i, j);
    }
    forall c | c in s.calls && s.calls[c].Skipped?
      ensures SkippedFresh(ttl, s.refreshes, s.calls[c].checkedAt, s.calls[c].known)
    {
      assert CallRight(ttl, s, s.calls[c]);
    }
  }

  // ----- the bound -----

  function Stamps(s: State): (r: seq<Time>)
    ensures |r| == |s.refreshes|
  {
    seq(|s.refreshes|, i requires 0 <= i < |s.refreshes| => s.refreshes[i].stamp)
  }

  ghost predicate Spaced(ttl: nat, stamps: seq<Time>) {
    forall i | 0 < i < |stamps| :: stamps[i] >= stamps[i - 1] + ttl
  }

  /** From any refresh to any later one, each step between them takes ttl. */
  ghost predicate Bounded(ttl: nat, stamps: seq<Time>) {
    forall i, j | 0 <= i <= j < |stamps| :: stamps[i] + (j - i) * ttl <= stamps[j]
  }

  lemma {:induction false} SpacedBound(ttl: nat, stamps: seq<Time>, i: nat, j: nat)
    requires i <= j < |stamps| && Spaced(ttl, stamps)
    ensures stamps[i] + (j - i) * ttl <= stamps[j]
  {
    if i < j {
      SpacedBound(ttl, stamps, i, j - 1);
      assert stamps[j] >= stamps[j - 1] + ttl;
      assert (j - i) * ttl == (j - 1 - i) * ttl + ttl;
    }
  }

  lemma BoundedIffSpaced(ttl: nat, stamps: seq<Time>)
    ensures Bounded(ttl, stamps) <==> Spaced(ttl, stamps)
  {
    if Spaced(ttl, stamps) {
      forall i, j | 0 <= i <= j < |stamps| ensures stamps[i] + (j - i) * ttl <= stamps[j] {
        SpacedBound(ttl, stamps, i, j);
      }
    } else {
      var i :| 0 < i < |stamps| && stamps[i] < stamps[i - 1] + ttl;
      assert stamps[i] < stamps[i - 1] + (i - (i - 1)) * ttl;
    }
  }

  /** A refresh succeeds sooner than ttl after the one before it.  That its call
      did not know of that one then follows (HastyIffTooSoon); it is said here
      because it names what went wrong. */
  predicate Hasty(ttl: nat, s: State, e: Event) {
    && e.RefreshDone? && e.call in s.calls && s.calls[e.call].Refreshing?
    && s.calls[e.call].known < |s.refreshes| && s.stamp.Some? && s.clock < s.stamp.value + ttl
  }

  lemma HastyIffTooSoon(ttl: nat, s: State, e: Event)
    requires Enabled(s, e) && e.RefreshDone? && StampsRise(s) && CallsRight(ttl, s)
    ensures Hasty(ttl, s, e) <==> s.stamp.Some? && s.clock < s.stamp.value + ttl
  {
    assert CallRight(ttl, s, s.calls[e.call]);
  }

  ghost predicate NeverHasty(ttl: nat, run: seq<Event>) {
    forall k | 0 <= k < |run| && Exec(ttl, run[..k]).Some? :: !Hasty(ttl, Exec(ttl, run[..k]).value, run[k])
  }

  lemma SpacedOneMore(ttl: nat, stamps: seq<Time>, now: Time)
    ensures Spaced(ttl, stamps + [now]) <==>
            Spaced(ttl, stamps) && (|stamps| > 0 ==> now >= stamps[|stamps| - 1] + ttl)
  {
    var longer := stamps + [now];
    assert forall i | 0 <= i < |stamps| :: longer[i] == stamps[i];
    if Spaced(ttl, longer) {
      assert |stamps| > 0 ==> longer[|stamps|] >= longer[|stamps| - 1] + ttl;
      forall i | 0 < i < |stamps| ensures stamps[i] >= stamps[i - 1] + ttl {
        assert longer[i] >= longer[i - 1] + ttl;
      }
    }
  }

  lemma SpacedStep(ttl: nat, s: State, e: Event)
    requires Enabled(s, e) && StampsRise(s) && CallsRight(ttl, s)
    ensures Spaced(ttl, Stamps(Apply(ttl, s, e))) <==> Spaced(ttl, Stamps(s)) && !Hasty(ttl, s, e)
  {
    var before, after := Stamps(s), Stamps(Apply(ttl, s, e));
    if e.RefreshDone? {
      HastyIffTooSoon(ttl, s, e);
      assert after == before + [s.clock];
      SpacedOneMore(ttl, before, s.clock);
    } else {
      assert after == before;
    }
  }

  lemma NeverHastyUnfolds(ttl: nat, run: seq<Event>)
    requires |run| > 0 && Exec(ttl, run[..|run| - 1]).Some?
    ensures var n := |run| - 1;
            NeverHasty(ttl, run) <==> NeverHasty(ttl, run[..n]) && !Hasty(ttl, Exec(ttl, run[..n]).value, run[n])
  {
    var n := |run| - 1;
    assert forall k | 0 <= k < n :: run[..n][..k] == run[..k] && run[..n][k] == run[k];
  }

  lemma {:induction false} SpacedIffNeverHasty(ttl: nat, run: seq<Event>)
    requires Exec(ttl, run).Some?
    ensures Spaced(ttl, Stamps(Exec(ttl, run).value)) <==> NeverHasty(ttl, run)
  {
    if |run| > 0 {
      var n := |run| - 1;
      SpacedIffNeverHasty(ttl, run[..n]);
      RunsKeepInv(ttl, run[..n]);
      SpacedStep(ttl, Exec(ttl, run[..n]).value, run[n]);
      NeverHastyUnfolds(ttl, run);
    }
  }

  /** The refresh spacing bound holds over every stretch of a run, overlapping
      calls or not, exactly when no refresh of that run is hasty. */
  lemma BoundedIffNeverHasty(ttl: nat, run: seq<Event>)
    requires Exec(ttl, run).Some?
    ensures Bounded(ttl, Stamps(Exec(ttl, run).value)) <==> NeverHasty(ttl, run)
  {
    BoundedIffSpaced(ttl, Stamps(Exec(ttl, run).value));
    SpacedIffNeverHasty(ttl, run);
  }

  /** Every refresh that succeeds knew of the one before it. */
  ghost predicate Informed(ttl: nat, run: seq<Event>) {
    forall k | 0 <= k < |run| && run[k].RefreshDone? && Exec(ttl, run[..k]).Some? ::
      var s := Exec(ttl, run[..k]).value;
      run[k].call in s.calls && s.calls[run[k].call].Refreshing? ==> s.calls[run[k].call].known == |s.refreshes|
  }

  /** Then n of them take (n - 1) * ttl at least. */
  lemma InformedRefreshBound(ttl: nat, run: seq<Event>)
    requires Exec(ttl, run).Some? && Informed(ttl, run)
    ensures Bounded(ttl, Stamps(Exec(ttl, run).value))
  {
    BoundedIffNeverHasty(ttl, run);
  }

  /** Calls follow one another: nobody checks while a refresh is under way. */
  ghost predicate OneAtATime(ttl: nat, run: seq<Event>) {
    forall k | 0 <= k < |run| && run[k].Check? && Exec(ttl, run[..k]).Some? ::
      forall c | c in Exec(ttl, run[..k]).value.calls :: !Exec(ttl, run[..k]).value.calls[c].Refreshing?
  }

  lemma {:induction false} OneAtATimeKnowsAll(ttl: nat, run: seq<Event>)
    requires Exec(ttl, run).Some? && OneAtATime(ttl, run)
    ensures var s := Exec(ttl, run).value;
            && (forall c, d | c in s.calls && d in s.calls && s.calls[c].Refreshing? && s.calls[d].Refreshing? ::
                  c == d)
            && (forall c | c in s.calls && s.calls[c].Refreshing? :: s.calls[c].known == |s.refreshes|)
  {
    if |run| > 0 {
      var n := |run| - 1;
      assert forall k | 0 <= k < n :: run[..n][..k] == run[..k] && run[..n][k] == run[k];
      OneAtATimeKnowsAll(ttl, run[..n]);
      if run[n].Check? {
        assert forall c | c in Exec(ttl, run[..n]).value.calls :: !Exec(ttl, run[..n]).value.calls[c].Refreshing?;
      }
    }
  }

  /** Calls that do not overlap know of every refresh, so the bound holds. */
  lemma {:induction false} SequentialRefreshBound(ttl: nat, run: seq<Event>)
    requires Exec(ttl, run).Some? && OneAtATime(ttl, run)
    ensures Informed(ttl, run) && Bounded(ttl, Stamps(Exec(ttl, run).value))
  {
    forall k | 0 <= k < |run| && run[k].RefreshDone? && Exec(ttl, run[..k]).Some?
      ensures var s := Exec(ttl, run[..k]).value;
              run[k].call in s.calls && s.calls[run[k].call].Refreshing? ==>
                s.calls[run[k].call].known == |s.refreshes|
    {
      assert forall j | 0 <= j < k :: run[..k][..j] == run[..j] && run[..k][j] == run[j];
      OneAtATimeKnowsAll(ttl, run[..k]);
    }
    InformedRefreshBound(ttl, run);
  }

  /** Two calls can both find the stamp missing and refresh at once. */
  lemma OverlapBreaksSpacing(ttl: nat)
    requires ttl > 0
    ensures exists run :: Exec(ttl, run).Some? && !Bounded(ttl, Stamps(Exec(ttl, run).value))
  {
    var run, s := Step(ttl, [], INITIAL, Check(0));
    run, s := Step(ttl, run, s, Check(1));
    run, s := Step(ttl, run, s, RefreshDone(0));
    run, s := Step(ttl, run, s, RefreshDone(1));
    assert Stamps(s)[0] == 0 && Stamps(s)[1] == 0;
    assert !Spaced(ttl, Stamps(s));
    BoundedIffSpaced(ttl, Stamps(Exec(ttl, run).value));
  }

  /** But overlapping calls need not: one that fails does no harm. */
  lemma OverlapMayBeFine(ttl: nat)
    ensures exists run :: Exec(ttl, run).Some? && !OneAtATime(ttl, run) && NeverHasty(ttl, run)
  {
    var run, s := Step(ttl, [], INITIAL, Check(0));
    var overlapping, s' := Step(ttl, run, s, Check(1));
    assert overlapping[..1] == run && overlapping[1].Check? && s.calls[0].Refreshing?;
    run, s := Step(ttl, overlapping, s', RefreshFails(1));
    run, s := Step(ttl, run, s, RefreshDone(0));
    assert run[..1] == overlapping[..1] && run[1] == overlapping[1];
    assert !OneAtATime(ttl, run);
    SpacedIffNeverHasty(ttl, run);
  }

  lemma Step(ttl: nat, run: seq<Event>, s: State, e: Event) returns (longer: seq<Event>, next: State)
    requires Exec(ttl, run) == Some(s) && Enabled(s, e)
    ensures longer == run + [e] && next == Apply(ttl, s, e) && Exec(ttl, longer) == Some(next)
  {
    longer, next := run + [e], Apply(ttl, s, e);
    assert longer[..|run|] == run;
  }

  // ----- the object -----

  datatype Backend = Apt | Brew

  /** A command that could not be started, or its exit status and output. */
  datatype CommandResult = NotStarted | Exited(success: bool, stdout: string)

  datatype UpdateError = CannotRun | RefreshFailed | ListingFailed

  function ParseListing(backend: Backend, text: string): seq<string> {
    match backend
    case Apt => PackageListing.ParseUpdates(text)
    case Brew => PackageListing.ParseOutdated(text)
  }

  class PackageIndex {
    const backend: Backend
    const ttl: nat
    var lastUpdate: Option<Time>
    ghost var stamps: seq<Time>

    ghost predicate Valid()
      reads this
    {
      && Spaced(ttl, stamps)
      && lastUpdate == if |stamps| == 0 then None else Some(stamps[|stamps| - 1])
    }

    constructor (backend: Backend, intervalMinutes: nat, ticksPerSecond: nat)
      ensures Valid() && stamps == [] && this.backend == backend
      ensures ttl == intervalMinutes * 60 * ticksPerSecond
    {
      this.backend := backend;
      ttl := intervalMinutes * 60 * ticksPerSecond;
      lastUpdate, stamps := None, [];
    }

    /** One call of get_updates that no other call overlaps: it looks at the
        clock before the refresh and again after it. */
    method GetUpdates(checkAt: Time, refresh: CommandResult, doneAt: Time, listing: CommandResult)
      returns (r: Result<seq<string>, UpdateError>)
      requires Valid() && checkAt <= doneAt
      requires lastUpdate.Some? ==> lastUpdate.value <= checkAt
      modifies this
      ensures Valid()
      ensures var due := old(lastUpdate).None? || ttl == 0 || checkAt - old(lastUpdate).value >= ttl;
              && stamps == (if due && refresh.Exited? && refresh.success then old(stamps) + [doneAt] else old(stamps))
              && r == if due && refresh.NotStarted? then Err(CannotRun)
                      else if due && !refresh.success then Err(RefreshFailed)
                      else if listing.NotStarted? then Err(CannotRun)
                      else if !listing.success then Err(ListingFailed)
                      else if backend.Apt? then Ok(PackageListing.ParseUpdates(listing.stdout))
                      else Ok(PackageListing.ParseOutdated(listing.stdout))
    {
      var shouldUpdate := match lastUpdate case Some(last) => ttl == 0 || checkAt - last >= ttl case None => true;
      if shouldUpdate {
        if refresh.NotStarted? {
          return Err(CannotRun);
        }
        if !refresh.success {
          return Err(RefreshFailed);
        }
        lastUpdate := Some(doneAt);
        stamps := stamps + [doneAt];
      }
      if listing.NotStarted? {
        return Err(CannotRun);
      }
      if !listing.success {
        return Err(ListingFailed);
      }
      r := Ok(ParseListing(backend, listing.stdout));
    }

    /** What Valid means for a caller: the bound on the number of refreshes. */
    lemma RefreshBound()
      requires Valid() && |stamps| > 0
      ensures Bounded(ttl, stamps) && stamps[0] + (|stamps| - 1) * ttl <= lastUpdate.value
    {
      BoundedIffSpaced(ttl, stamps);
    }
  }

  /** Homebrew is looked for in three places: the first one that can be started
      answers, and the last error stands if none can. */
  method RunBrew<Output, Error>(start: string -> Result<Output, Error>) returns (r: Result<Output, Error>)
    ensures r.Ok? <==> exists k | 0 <= k < |BREW_PATHS| :: start(BREW_PATHS[k]).Ok?
    ensures r.Ok? ==> exists k | 0 <= k < |BREW_PATHS| ::
              r == start(BREW_PATHS[k]) && forall j | 0 <= j < k :: start(BREW_PATHS[j]).Err?
    ensures r.Err? ==> r == start(BREW_PATHS[|BREW_PATHS| - 1])
  {
    var lastErr: Option<Error> := None;
    var k := 0;
    while k < |BREW_PATHS|
      invariant k <= |BREW_PATHS|
      invariant forall j | 0 <= j < k :: start(BREW_PATHS[j]).Err?
      invariant k > 0 ==> lastErr.Some? && start(BREW_PATHS[k - 1]) == Err(lastErr.value)
    {
      var outcome := start(BREW_PATHS[k]);
      match outcome {
        case Ok(_) => return outcome;
        case Err(e) => lastErr := Some(e);
      }
      k := k + 1;
    }
    r := Err(lastErr.value);
  }

  const BREW_PATHS: seq<string> := ["brew", "/opt/homebrew/bin/brew", "/usr/local/bin/brew"]
}
