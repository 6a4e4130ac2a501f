/** The daemon's upgrade and reboot protocol as steps of concurrent request
    handlers, spawned upgrade tasks and the shutdown sequence.

    A successful compare-exchange on the upgrading flag hands out a ticket, the
    number of the accepted upgrade.  The flag is owned by that ticket until the
    guard of its task is dropped: first by the handler, between the exchange and
    the spawn, then by the task, before, while and after its guard exists. */
module UpgradeProtocol {
  import opened Wrappers

  datatype Settings = Settings(available: bool, allowReboot: bool)

  datatype Ending = Succeeded | Failed | Panicked | Aborted

  /** Dropped is a task aborted before its guard existed. */
  datatype Task = Unstarted | Guarded | Running | Ended(how: Ending) | Dropped

  datatype Reply =
    | Unavailable
    | DryRunAnswered(ok: bool)
    | AlreadyUpgrading
    | UpgradeTriggered(ticket: nat)
    | RebootLocked(busyAtCheck: bool)
    | RebootForbidden
    | RebootTriggered(busyAtCheck: bool)

  /** Where a handler stands.  The busyAtCheck notes record what was the case
      when the reboot handler looked at the flag. */
  datatype Handler =
    | UpgradeAsked(dryRun: bool)
    | Claimed(ticket: nat)
    | Spawned(ticket: nat)
    | Stored(ticket: nat)
    | RebootAsked
    | RebootCleared(busyAtCheck: bool)
    | Replied(reply: Reply)

  datatype Phase = Serving | Draining(handle: nat) | Stopped

  /** owners[t] is the handler that won ticket t; stored are the tickets whose
      task handle has been put into the slot at some time. */
  datatype State = State(
    upgrading: bool,
    owners: seq<nat>,
    handlers: map<nat, Handler>,
    tasks: map<nat, Task>,
    slot: Option<nat>,
    stored: set<nat>,
    phase: Phase)

  datatype Event =
    | AskUpgrade(h: nat, dryRun: bool)
    | AskReboot(h: nat)
    | Refuse(h: nat)
    | AnswerDryRun(h: nat, ok: bool)
    | Claim(h: nat)
    | Rebuff(h: nat)
    | Spawn(h: nat)
    | Store(h: nat)
    | ReplyTriggered(h: nat)
    | CheckFlag(h: nat)
    | AnswerReboot(h: nat)
    | CreateGuard(t: nat)
    | BeginUpgrade(t: nat)
    | EndUpgrade(t: nat, how: Ending)
    | Shutdown
    | Drained
    | AbortTask

  const INITIAL := State(false, [], map[], map[], None, {}, Serving)

  predicate Is(s: State, h: nat, phase: Handler) {
    h in s.handlers && s.handlers[h] == phase
  }

  predicate TaskIs(s: State, t: nat, phase: Task) {
    t in s.tasks && s.tasks[t] == phase
  }

  /** Accepted and not over: no guard has been dropped for it. */
  predicate Unfinished(s: State, t: nat) {
    t < |s.owners| && (t in s.tasks ==> !s.tasks[t].Ended?)
  }

  predicate Busy(s: State) {
    exists t | 0 <= t < |s.owners| :: Unfinished(s, t)
  }

  predicate Enabled(env: Settings, s: State, e: Event) {
    match e
    case AskUpgrade(h, _) => h !in s.handlers
    case AskReboot(h) => h !in s.handlers
    case Refuse(h) => !env.available && h in s.handlers && (s.handlers[h].UpgradeAsked? || s.handlers[h].RebootAsked?)
    case AnswerDryRun(h, _) => env.available && Is(s, h, UpgradeAsked(true))
    case Claim(h) => env.available && Is(s, h, UpgradeAsked(false)) && !s.upgrading
    case Rebuff(h) => env.available && Is(s, h, UpgradeAsked(false)) && s.upgrading
    case Spawn(h) => h in s.handlers && s.handlers[h].Claimed?
    case Store(h) => h in s.handlers && s.handlers[h].Spawned? && !s.phase.Draining?
    case ReplyTriggered(h) => h in s.handlers && s.handlers[h].Stored?
    case CheckFlag(h) => env.available && Is(s, h, RebootAsked)
    case AnswerReboot(h) => h in s.handlers && s.handlers[h].RebootCleared?
    case CreateGuard(t) => TaskIs(s, t, Unstarted)
    case BeginUpgrade(t) => TaskIs(s, t, Guarded)
    case EndUpgrade(t, how) => TaskIs(s, t, Running) && !how.Aborted?
    case Shutdown => s.phase.Serving?
    case Drained => s.phase.Draining? && s.phase.handle in s.tasks && s.tasks[s.phase.handle].Ended?
    case AbortTask => s.phase.Draining?
  }

  function At(s: State, h: nat, phase: Handler): State {
    s.(handlers := s.handlers[h := phase])
  }

  function Apply(env: Settings, s: State, e: Event): State
    requires Enabled(env, s, e)
  {
    match e
    case AskUpgrade(h, dryRun) => At(s, h, UpgradeAsked(dryRun))
    case AskReboot(h) => At(s, h, RebootAsked)
    case Refuse(h) => At(s, h, Replied(Unavailable))
    case AnswerDryRun(h, ok) => At(s, h, Replied(DryRunAnswered(ok)))
    case Claim(h) => At(s, h, Claimed(|s.owners|)).(upgrading := true, owners := s.owners + [h])
    case Rebuff(h) => At(s, h, Replied(AlreadyUpgrading))
    case Spawn(h) =>
      var t := s.handlers[h].ticket;
      At(s, h, Spawned(t)).(tasks := s.tasks[t := Unstarted])
    case Store(h) =>
      var t := s.handlers[h].ticket;
      At(s, h, Stored(t)).(slot := Some(t), stored := s.stored + {t})
    case ReplyTriggered(h) => At(s, h, Replied(UpgradeTriggered(s.handlers[h].ticket)))
    case CheckFlag(h) =>
      if s.upgrading then At(s, h, Replied(RebootLocked(Busy(s)))) else At(s, h, RebootCleared(Busy(s)))
    case AnswerReboot(h) =>
      At(s, h, Replied(if env.allowReboot then RebootTriggered(s.handlers[h].busyAtCheck) else RebootForbidden))
    case CreateGuard(t) => s.(tasks := s.tasks[t := Guarded])
    case BeginUpgrade(t) => s.(tasks := s.tasks[t := Running])
    case EndUpgrade(t, how) => s.(tasks := s.tasks[t := Ended(how)], upgrading := false)
    case Shutdown => s.(slot := None, phase := if s.slot.Some? then Draining(s.slot.value) else Stopped)
    case Drained => s.(phase := Stopped)
    case AbortTask => Aborting(s, s.phase.handle)
  }

  /** Aborting a task drops its guard if there is one already. */
  function Aborting(s: State, t: nat): State {
    var over := s.(phase := Stopped);
    if t !in s.tasks then over
    else
      match s.tasks[t]
      case Unstarted => over.(tasks := s.tasks[t := Dropped])
      case Guarded => over.(tasks := s.tasks[t := Ended(Aborted)], upgrading := false)
      case Running => over.(tasks := s.tasks[t := Ended(Aborted)], upgrading := false)
      case _ => over
  }

  /** The state after a run of events, None when some event was not possible. */
  function Exec(env: Settings, run: seq<Event>): Option<State> {
    if |run| == 0 then Some(INITIAL)
    else
      match Exec(env, run[..|run| - 1])
      case None => None
      case Some(s) => if Enabled(env, s, run[|run| - 1]) then Some(Apply(env, s, run[|run| - 1])) else None
  }

  // ----- the invariant -----

  function Ticket(h: Handler): Option<nat> {
    match h
    case Claimed(t) => Some(t)
    case Spawned(t) => Some(t)
    case Stored(t) => Some(t)
    case Replied(UpgradeTriggered(t)) => Some(t)
    case _ => None
  }

  /** Every ticket belongs to the handler that won it, which spawns and stores
      its task in that order. */
  ghost predicate TicketsOwned(s: State) {
    && (forall h | h in s.handlers && Ticket(s.handlers[h]).Some? ::
          var t := Ticket(s.handlers[h]).value;
          && t < |s.owners| && s.owners[t] == h
          && (t in s.tasks <==> !s.handlers[h].Claimed?)
          && (t in s.stored <==> !s.handlers[h].Claimed? && !s.handlers[h].Spawned?))
    && (forall t | 0 <= t < |s.owners| ::
          s.owners[t] in s.handlers && Ticket(s.handlers[s.owners[t]]) == Some(t))
    && (forall t | t in s.tasks :: t < |s.owners|)
    && (forall t | t in s.stored :: t in s.tasks)
  }

  /** All tickets but the newest are over, and the flag tells about the newest. */
  ghost predicate OnlyNewestOpen(s: State) {
    && (forall t | 0 <= t < |s.owners| - 1 :: !Unfinished(s, t))
    && (s.upgrading <==> |s.owners| > 0 && Unfinished(s, |s.owners| - 1))
  }

  ghost predicate ChecksHonest(s: State) {
    forall h | h in s.handlers ::
      match s.handlers[h]
      case RebootCleared(busy) => !busy
      case Replied(RebootTriggered(busy)) => !busy
      case Replied(RebootLocked(busy)) => busy
      case _ => true
  }

  ghost predicate Inv(s: State) {
    TicketsOwned(s) && OnlyNewestOpen(s) && ChecksHonest(s)
  }

  /** Steps of handlers that hold no ticket. */
  lemma TicketlessStep(s: State, h: nat, phase: Handler)
    requires TicketsOwned(s)
    requires h in s.handlers ==> Ticket(s.handlers[h]).None?
    requires Ticket(phase).None?
    ensures TicketsOwned(At(s, h, phase))
  {
  }

  /** Steps of tasks. */
  lemma TaskStep(s: State, after: State)
    requires TicketsOwned(s)
    requires after.owners == s.owners && after.handlers == s.handlers && after.stored == s.stored
    requires after.tasks.Keys == s.tasks.Keys
    ensures TicketsOwned(after)
  {
  }

  lemma ClaimStep(env: Settings, s: State, h: nat)
    requires TicketsOwned(s) && Enabled(env, s, Claim(h))
    ensures TicketsOwned(Apply(env, s, Claim(h)))
  {
  }

  /** Steps of the handler that holds a ticket: it moves on, and its ticket's
      task and handle with it. */
  lemma OwnerStep(s: State, after: State, h: nat, t: nat, phase: Handler)
    requires TicketsOwned(s) && h in s.handlers && Ticket(s.handlers[h]) == Some(t) && Ticket(phase) == Some(t)
    requires after.owners == s.owners && after.handlers == s.handlers[h := phase]
    requires after.tasks.Keys == s.tasks.Keys || after.tasks.Keys == s.tasks.Keys + {t}
    requires after.stored == s.stored || after.stored == s.stored + {t}
    requires t in after.tasks <==> !phase.Claimed?
    requires t in after.stored <==> !phase.Claimed? && !phase.Spawned?
    ensures TicketsOwned(after)
  {
    forall g | g in after.handlers && Ticket(after.handlers[g]).Some?
      ensures var u := Ticket(after.handlers[g]).value;
              && u < |after.owners| && after.owners[u] == g
              && (t == u ==> g == h)
    {
      assert Ticket(s.handlers[g]) == Ticket(after.handlers[g]);
    }
    forall u | 0 <= u < |s.owners| ensures Ticket(after.handlers[s.owners[u]]) == Some(u) {
      assert Ticket(s.handlers[s.owners[u]]) == Some(u);
    }
  }

  lemma OwnerEventKeepsTickets(env: Settings, s: State, e: Event)
    requires Enabled(env, s, e) && TicketsOwned(s)
    requires e.Spawn? || e.Store? || e.ReplyTriggered?
    ensures TicketsOwned(Apply(env, s, e))
  {
    var after, t := Apply(env, s, e), s.handlers[e.h].ticket;
    OwnerStep(s, after, e.h, t, after.handlers[e.h]);
  }

  predicate IsTaskEvent(e: Event) {
    e.CreateGuard? || e.BeginUpgrade? || e.EndUpgrade? || e.Shutdown? || e.Drained? || e.AbortTask?
  }

  lemma TaskEventKeepsTickets(env: Settings, s: State, e: Event)
    requires Enabled(env, s, e) && TicketsOwned(s) && IsTaskEvent(e)
    ensures TicketsOwned(Apply(env, s, e))
  {
    TaskStep(s, Apply(env, s, e));
  }

  lemma {:induction false} StepKeepsTickets(env: Settings, s: State, e: Event)
    requires Enabled(env, s, e) && TicketsOwned(s)
    ensures TicketsOwned(Apply(env, s, e))
  {
    if IsTaskEvent(e) {
      TaskEventKeepsTickets(env, s, e);
    } else if e.Spawn? || e.Store? || e.ReplyTriggered? {
      OwnerEventKeepsTickets(env, s, e);
    } else if e.Claim? {
      ClaimStep(env, s, e.h);
    } else {
      TicketlessStep(s, e.h, Apply(env, s, e).handlers[e.h]);
    }
  }

  /** A step on a ticket that is not over is a step on the newest one. */
  lemma OpenIsNewest(s: State, t: nat)
    requires OnlyNewestOpen(s) && Unfinished(s, t)
    ensures t == |s.owners| - 1 && s.upgrading
  {
  }

  /** Changing only the newest ticket's task, and the flag with it. */
  lemma NewestStep(s: State, after: State)
    requires OnlyNewestOpen(s) && after.owners == s.owners && |s.owners| > 0
    requires after.tasks.Keys <= s.tasks.Keys + {|s.owners| - 1}
    requires forall t: nat | t < |s.owners| - 1 && t in s.tasks :: t in after.tasks && after.tasks[t] == s.tasks[t]
    requires after.upgrading <==> Unfinished(after, |s.owners| - 1)
    ensures OnlyNewestOpen(after)
  {
    forall t | 0 <= t < |s.owners| - 1 ensures !Unfinished(after, t) {
      assert !Unfinished(s, t);
    }
  }

  lemma StepKeepsNewestOpen(env: Settings, s: State, e: Event)
    requires Enabled(env, s, e) && Inv(s)
    ensures OnlyNewestOpen(Apply(env, s, e))
  {
    var after := Apply(env, s, e);
    match e {
      case Claim(_) =>
        forall t | 0 <= t < |s.owners| ensures !Unfinished(after, t) {
          assert !Unfinished(s, t);
        }
      case Spawn(h) =>
        assert Ticket(s.handlers[h]).Some?;
        OpenIsNewest(s, s.handlers[h].ticket);
        NewestStep(s, after);
      case CreateGuard(t) => OpenIsNewest(s, t); NewestStep(s, after);
      case BeginUpgrade(t) => OpenIsNewest(s, t); NewestStep(s, after);
      case EndUpgrade(t, _) => OpenIsNewest(s, t); NewestStep(s, after);
      case AbortTask =>
        var t := s.phase.handle;
        if t in s.tasks && !s.tasks[t].Ended? {
          OpenIsNewest(s, t);
          NewestStep(s, after);
        } else {
          SameTickets(s, after);
        }
      case _ => SameTickets(s, after);
    }
  }

  lemma SameTickets(s: State, after: State)
    requires OnlyNewestOpen(s)
    requires after.owners == s.owners && after.tasks == s.tasks && after.upgrading == s.upgrading
    ensures OnlyNewestOpen(after)
  {
    forall t: nat ensures Unfinished(s, t) == Unfinished(after, t) {
    }
  }

  lemma BusyIffUpgrading(s: State)
    requires OnlyNewestOpen(s)
    ensures Busy(s) <==> s.upgrading
  {
  }

  lemma StepKeepsInv(env: Settings, s: State, e: Event)
    requires Enabled(env, s, e) && Inv(s)
    ensures Inv(Apply(env, s, e))
  {
    StepKeepsTickets(env, s, e);
    StepKeepsNewestOpen(env, s, e);
    BusyIffUpgrading(s);
  }

  lemma {:induction false} RunsKeepInv(env: Settings, run: seq<Event>)
    requires Exec(env, run).Some?
    ensures Inv(Exec(env, run).value)
  {
    if |run| > 0 {
      RunsKeepInv(env, run[..|run| - 1]);
      StepKeepsInv(env, Exec(env, run[..|run| - 1]).value, run[|run| - 1]);
    }
  }

  // ----- main results -----

  /** Mutual exclusion: in every reachable state at most one accepted upgrade is
      not over, the flag is set exactly when there is one, and its handler has
      the token exactly until the task exists. */
  lemma AtMostOneUpgrade(env: Settings, run: seq<Event>)
    requires Exec(env, run).Some?
    ensures var s := Exec(env, run).value;
            && (forall t: nat, u: nat :: Unfinished(s, t) && Unfinished(s, u) ==> t == u)
            && (s.upgrading <==> exists t: nat :: Unfinished(s, t))
            && (forall t: nat | Unfinished(s, t) :: t in s.tasks <==> !Is(s, s.owners[t], Claimed(t)))
  {
    RunsKeepInv(env, run);
    var s := Exec(env, run).value;
    if s.upgrading {
      assert Unfinished(s, |s.owners| - 1);
    }
    forall t: nat | Unfinished(s, t) ensures t in s.tasks <==> !Is(s, s.owners[t], Claimed(t)) {
      assert Ticket(s.handlers[s.owners[t]]) == Some(t);
    }
  }

  function Claims(run: seq<Event>): nat {
    if |run| == 0 then 0 else Claims(run[..|run| - 1]) + if run[|run| - 1].Claim? then 1 else 0
  }

  function EndedTasks(s: State): set<nat> {
    set t | t in s.tasks && s.tasks[t].Ended?
  }

  function Below(n: nat): (r: set<nat>)
    ensures |r| == n
    ensures forall t :: t in r <==> 0 <= t < n
  {
    if n == 0 then {} else Below(n - 1) + {n - 1}
  }

  lemma OwnersStep(env: Settings, s: State, e: Event)
    requires Enabled(env, s, e)
    ensures Apply(env, s, e).owners == s.owners + if e.Claim? then [e.h] else []
  {
  }

  lemma {:induction false} ClaimsAreTickets(env: Settings, run: seq<Event>)
    requires Exec(env, run).Some?
    ensures |Exec(env, run).value.owners| == Claims(run)
  {
    if |run| > 0 {
      ClaimsAreTickets(env, run[..|run| - 1]);
      OwnersStep(env, Exec(env, run[..|run| - 1]).value, run[|run| - 1]);
    }
  }

  /** Conservation: successful exchanges equal ended upgrades plus one if the
      flag is set, in every run, even one cut short by a shutdown. */
  lemma ClaimsAreConserved(env: Settings, run: seq<Event>)
    requires Exec(env, run).Some?
    ensures var s := Exec(env, run).value;
            Claims(run) == |EndedTasks(s)| + if s.upgrading then 1 else 0
  {
    RunsKeepInv(env, run);
    ClaimsAreTickets(env, run);
    var s := Exec(env, run).value;
    var n := if s.upgrading then |s.owners| - 1 else |s.owners|;
    forall t: nat ensures t in EndedTasks(s) <==> t in Below(n) {
      assert t < |s.owners| ==> (t in EndedTasks(s) <==> !Unfinished(s, t));
    }
    assert EndedTasks(s) == Below(n);
  }

  /** Every "triggered" answer belongs to an exchange of its own, and every
      reboot answer to what was the case when the flag was checked: a reboot is
      triggered only if no accepted upgrade was open then, and refused as locked
      only if one was. */
  lemma AnswersAreHonest(env: Settings, run: seq<Event>)
    requires Exec(env, run).Some?
    ensures var s := Exec(env, run).value;
            && (forall h: nat, t: nat | Is(s, h, Replied(UpgradeTriggered(t))) ::
                  t < |s.owners| == Claims(run) && s.owners[t] == h)
            && (forall h: nat, busy | Is(s, h, Replied(RebootTriggered(busy))) :: !busy)
            && (forall h: nat, busy | Is(s, h, Replied(RebootLocked(busy))) :: busy)
  {
    RunsKeepInv(env, run);
    ClaimsAreTickets(env, run);
    var s := Exec(env, run).value;
    forall h: nat, t: nat | Is(s, h, Replied(UpgradeTriggered(t)))
      ensures t < |s.owners| == Claims(run) && s.owners[t] == h
    {
      assert Ticket(s.handlers[h]) == Some(t);
    }
  }

  /** The exchange tells the truth about accepted upgrades: it succeeds only when
      none is open, and fails only when one is. */
  lemma ExchangesAreHonest(env: Settings, run: seq<Event>, k: nat)
    requires Exec(env, run).Some? && k < |run|
    ensures Exec(env, run[..k]).Some?
    ensures run[k].Claim? ==> !Busy(Exec(env, run[..k]).value)
    ensures run[k].Rebuff? ==> Busy(Exec(env, run[..k]).value)
  {
    PrefixRuns(env, run, k);
    RunsKeepInv(env, run[..k]);
    BusyIffUpgrading(Exec(env, run[..k]).value);
  }

  ghost predicate HandlerRespects(env: Settings, h: Handler) {
    match h
    case Replied(Unavailable) => !env.available
    case Replied(RebootTriggered(_)) => env.available && env.allowReboot
    case Replied(RebootForbidden) => env.available && !env.allowReboot
    case UpgradeAsked(_) => true
    case RebootAsked => true
    case _ => env.available
  }

  lemma StepRespects(env: Settings, s: State, e: Event)
    requires Enabled(env, s, e)
    requires forall h | h in s.handlers :: HandlerRespects(env, s.handlers[h])
    ensures forall h | h in Apply(env, s, e).handlers :: HandlerRespects(env, Apply(env, s, e).handlers[h])
    ensures Apply(env, s, e).upgrading ==> s.upgrading || e.Claim?
  {
  }

  /** Nothing but a refusal happens without a package manager, and reboots are
      triggered or forbidden as the settings say. */
  lemma {:induction false} SettingsAreRespected(env: Settings, run: seq<Event>)
    requires Exec(env, run).Some?
    ensures forall h | h in Exec(env, run).value.handlers :: HandlerRespects(env, Exec(env, run).value.handlers[h])
    ensures !env.available ==> Claims(run) == 0 && !Exec(env, run).value.upgrading
  {
    if |run| > 0 {
      SettingsAreRespected(env, run[..|run| - 1]);
      StepRespects(env, Exec(env, run[..|run| - 1]).value, run[|run| - 1]);
    }
  }

  // ----- a flag that never clears again -----

  /** The abort that ends the wait of a shutdown hits a task that has not run yet. */
  predicate HitsUnstarted(s: State, e: Event) {
    e.AbortTask? && s.phase.Draining? && TaskIs(s, s.phase.handle, Unstarted)
  }

  ghost predicate AbortsUnstarted(env: Settings, run: seq<Event>) {
    exists k | 0 <= k < |run| :: Exec(env, run[..k]).Some? && HitsUnstarted(Exec(env, run[..k]).value, run[k])
  }

  /** However the run goes on, the flag is set. */
  ghost predicate FlagStuck(env: Settings, run: seq<Event>) {
    forall rest: seq<Event> :: Exec(env, run + rest).Some? ==> Exec(env, run + rest).value.upgrading
  }

  ghost predicate SomeDropped(s: State) {
    exists t: nat :: TaskIs(s, t, Dropped)
  }

  lemma DroppedStep(env: Settings, s: State, e: Event)
    requires Enabled(env, s, e) && TicketsOwned(s)
    ensures SomeDropped(Apply(env, s, e)) <==> SomeDropped(s) || HitsUnstarted(s, e)
  {
    var after := Apply(env, s, e);
    forall t | TaskIs(s, t, Dropped) ensures TaskIs(after, t, Dropped) {
    }
    if HitsUnstarted(s, e) {
      assert TaskIs(after, s.phase.handle, Dropped);
    }
    forall t | TaskIs(after, t, Dropped) ensures TaskIs(s, t, Dropped) || HitsUnstarted(s, e) {
    }
  }

  lemma AbortsUnstartedUnfolds(env: Settings, run: seq<Event>)
    requires |run| > 0 && Exec(env, run[..|run| - 1]).Some?
    ensures var n := |run| - 1;
            AbortsUnstarted(env, run) <==>
            AbortsUnstarted(env, run[..n]) || HitsUnstarted(Exec(env, run[..n]).value, run[n])
  {
    var n := |run| - 1;
    assert forall k | 0 <= k < n :: run[..n][..k] == run[..k] && run[..n][k] == run[k];
  }

  lemma {:induction false} DroppedIffAbortsUnstarted(env: Settings, run: seq<Event>)
    requires Exec(env, run).Some?
    ensures SomeDropped(Exec(env, run).value) <==> AbortsUnstarted(env, run)
  {
    if |run| > 0 {
      var n := |run| - 1;
      DroppedIffAbortsUnstarted(env, run[..n]);
      RunsKeepInv(env, run[..n]);
      DroppedStep(env, Exec(env, run[..n]).value, run[n]);
      AbortsUnstartedUnfolds(env, run);
    }
  }

  lemma TaskCanEnd(env: Settings, run: seq<Event>, s: State, t: nat) returns (longer: seq<Event>, end: State)
    requires Exec(env, run) == Some(s) && (TaskIs(s, t, Unstarted) || TaskIs(s, t, Guarded) || TaskIs(s, t, Running))
    ensures run <= longer && Exec(env, longer) == Some(end) && !end.upgrading
  {
    longer, end := run, s;
    if TaskIs(end, t, Unstarted) {
      longer, end := Step(env, longer, end, CreateGuard(t));
    }
    if TaskIs(end, t, Guarded) {
      longer, end := Step(env, longer, end, BeginUpgrade(t));
    }
    longer, end := Step(env, longer, end, EndUpgrade(t, Succeeded));
  }

  lemma OpenUpgradeStands(s: State) returns (t: nat)
    requires Inv(s) && s.upgrading && !SomeDropped(s)
    ensures t < |s.owners| && (t !in s.tasks ==> Is(s, s.owners[t], Claimed(t)))
    ensures t in s.tasks ==> TaskIs(s, t, Unstarted) || TaskIs(s, t, Guarded) || TaskIs(s, t, Running)
  {
    t := |s.owners| - 1;
    assert Unfinished(s, t) && Ticket(s.handlers[s.owners[t]]) == Some(t) && !TaskIs(s, t, Dropped);
  }

  /** Without a dropped task the open upgrade can run to its end. */
  lemma OpenUpgradeCanEnd(env: Settings, run: seq<Event>) returns (rest: seq<Event>)
    requires Exec(env, run).Some? && Exec(env, run).value.upgrading && !SomeDropped(Exec(env, run).value)
    ensures Exec(env, run + rest).Some? && !Exec(env, run + rest).value.upgrading
  {
    RunsKeepInv(env, run);
    var longer, s := run, Exec(env, run).value;
    var t := OpenUpgradeStands(s);
    if t !in s.tasks {
      longer, s := Step(env, longer, s, Spawn(s.owners[t]));
    }
    longer, s := TaskCanEnd(env, longer, s, t);
    rest := longer[|run|..];
    assert longer == run + rest;
  }

  lemma AbortedRunsGoOn(env: Settings, run: seq<Event>, rest: seq<Event>)
    requires AbortsUnstarted(env, run)
    ensures AbortsUnstarted(env, run + rest)
  {
    var k :| 0 <= k < |run| && Exec(env, run[..k]).Some? && HitsUnstarted(Exec(env, run[..k]).value, run[k]);
    assert (run + rest)[..k] == run[..k] && (run + rest)[k] == run[k];
  }

  /** The flag can never clear again exactly when the run aborted a task that had
      not run yet: in every other run what is open can still end. */
  lemma FlagStuckIff(env: Settings, run: seq<Event>)
    requires Exec(env, run).Some?
    ensures FlagStuck(env, run) <==> AbortsUnstarted(env, run)
  {
    DroppedIffAbortsUnstarted(env, run);
    if AbortsUnstarted(env, run) {
      forall rest: seq<Event> | Exec(env, run + rest).Some? ensures Exec(env, run + rest).value.upgrading {
        AbortedRunsGoOn(env, run, rest);
        DroppedIffAbortsUnstarted(env, run + rest);
        RunsKeepInv(env, run + rest);
        var t :| TaskIs(Exec(env, run + rest).value, t, Dropped);
        OpenIsNewest(Exec(env, run + rest).value, t);
      }
    } else if Exec(env, run).value.upgrading {
      var rest := OpenUpgradeCanEnd(env, run);
      assert !FlagStuck(env, run);
    } else {
      assert run + [] == run;
    }
  }

  /** It does happen: a shutdown right after an accepted request. */
  lemma FlagCanStick(env: Settings)
    requires env.available
    ensures exists run :: Exec(env, run).Some? && FlagStuck(env, run)
  {
    var run, s := Step(env, [], INITIAL, AskUpgrade(0, false));
    run, s := Step(env, run, s, Claim(0));
    run, s := Step(env, run, s, Spawn(0));
    run, s := Step(env, run, s, Store(0));
    run, s := Step(env, run, s, Shutdown);
    run, s := Step(env, run, s, AbortTask);
    assert TaskIs(s, 0, Dropped);
    DroppedIffAbortsUnstarted(env, run);
    FlagStuckIff(env, run);
  }

  // ----- dry runs -----

  function WithoutDryRuns(run: seq<Event>): seq<Event> {
    if |run| == 0 then []
    else WithoutDryRuns(run[..|run| - 1]) + if run[|run| - 1].AnswerDryRun? then [] else [run[|run| - 1]]
  }

  /** Equal but for dry runs that only s has answered. */
  ghost predicate EqualButDryRuns(s: State, u: State) {
    && s.(handlers := u.handlers) == u
    && s.handlers.Keys == u.handlers.Keys
    && forall h | h in s.handlers && s.handlers[h] != u.handlers[h] ::
         s.handlers[h].Replied? && u.handlers[h] == UpgradeAsked(true)
  }

  lemma LiveHandlersAgree(s: State, u: State)
    requires EqualButDryRuns(s, u)
    ensures forall h | h in s.handlers && !s.handlers[h].Replied? :: u.handlers[h] == s.handlers[h]
    ensures Busy(s) == Busy(u)
  {
    forall t: nat ensures Unfinished(s, t) == Unfinished(u, t) {
    }
  }

  /** The same step of one handler on both sides. */
  lemma SameHandlerStep(s: State, u: State, h: nat, phase: Handler)
    requires EqualButDryRuns(s, u)
    ensures EqualButDryRuns(At(s, h, phase), At(u, h, phase))
  {
    assert At(s, h, phase).(handlers := At(u, h, phase).handlers) == At(u, h, phase);
  }

  /** Task and shutdown events neither read nor change the handlers. */
  lemma TaskEventIgnoresHandlers(env: Settings, s: State, hs: map<nat, Handler>, e: Event)
    requires Enabled(env, s, e) && IsTaskEvent(e)
    ensures Enabled(env, s.(handlers := hs), e)
    ensures Apply(env, s.(handlers := hs), e) == Apply(env, s, e).(handlers := hs)
    ensures Apply(env, s, e).handlers == s.handlers
  {
  }

  lemma TaskEventUnderDryRuns(env: Settings, s: State, u: State, e: Event)
    requires EqualButDryRuns(s, u) && Enabled(env, s, e) && IsTaskEvent(e)
    ensures Enabled(env, u, e) && EqualButDryRuns(Apply(env, s, e), Apply(env, u, e))
  {
    TaskEventIgnoresHandlers(env, s, u.handlers, e);
    var a, b := Apply(env, s, e), Apply(env, u, e);
    assert b.handlers == u.handlers && a.(handlers := b.handlers) == b;
  }

  lemma HandlerEventUnderDryRuns(env: Settings, s: State, u: State, e: Event)
    requires EqualButDryRuns(s, u) && Enabled(env, s, e) && !IsTaskEvent(e) && !e.AnswerDryRun?
    ensures Enabled(env, u, e) && EqualButDryRuns(Apply(env, s, e), Apply(env, u, e))
  {
    LiveHandlersAgree(s, u);
    SameHandlerStep(s, u, e.h, Apply(env, s, e).handlers[e.h]);
  }

  lemma DryRunStep(env: Settings, s: State, u: State, e: Event)
    requires EqualButDryRuns(s, u) && Enabled(env, s, e)
    ensures e.AnswerDryRun? ==> EqualButDryRuns(Apply(env, s, e), u)
    ensures !e.AnswerDryRun? ==> Enabled(env, u, e) && EqualButDryRuns(Apply(env, s, e), Apply(env, u, e))
  {
    if IsTaskEvent(e) {
      TaskEventUnderDryRuns(env, s, u, e);
    } else if e.AnswerDryRun? {
      LiveHandlersAgree(s, u);
    } else {
      HandlerEventUnderDryRuns(env, s, u, e);
    }
  }

  lemma ExecOneMore(env: Settings, run: seq<Event>, e: Event)
    ensures Exec(env, run + [e]) ==
            match Exec(env, run)
            case None => None
            case Some(s) => if Enabled(env, s, e) then Some(Apply(env, s, e)) else None
  {
    assert (run + [e])[..|run|] == run;
  }

  /** Dry runs are invisible: striking all of them from a run leaves a run that
      ends with the same flag, tickets, tasks, stored handle and phase. */
  lemma {:induction false} DryRunsAreInvisible(env: Settings, run: seq<Event>)
    requires Exec(env, run).Some?
    ensures Exec(env, WithoutDryRuns(run)).Some?
    ensures EqualButDryRuns(Exec(env, run).value, Exec(env, WithoutDryRuns(run)).value)
  {
    if |run| > 0 {
      var shorter, e := run[..|run| - 1], run[|run| - 1];
      DryRunsAreInvisible(env, shorter);
      DryRunStep(env, Exec(env, shorter).value, Exec(env, WithoutDryRuns(shorter)).value, e);
      if e.AnswerDryRun? {
        assert WithoutDryRuns(run) == WithoutDryRuns(shorter);
      } else {
        ExecOneMore(env, WithoutDryRuns(shorter), e);
      }
    }
  }

  // ----- the handle that shutdown waits for -----

  /** While serving, the slot names the newest upgrade whose handle was stored. */
  ghost predicate Tracks(s: State) {
    s.phase.Serving? ==>
      && (s.slot.Some? ==> s.slot.value in s.stored)
      && (forall t | t in s.stored :: s.slot.Some? && t <= s.slot.value)
  }

  /** A late store: the handle of an older upgrade replaces that of a newer one. */
  ghost predicate Overwrites(s: State, e: Event) {
    && s.phase.Serving? && e.Store? && e.h in s.handlers && s.handlers[e.h].Spawned?
    && exists t | t in s.stored :: t > s.handlers[e.h].ticket
  }

  lemma TracksStep(env: Settings, s: State, e: Event)
    requires Enabled(env, s, e) && Inv(s)
    ensures Overwrites(s, e) ==> !Tracks(Apply(env, s, e))
    ensures !Overwrites(s, e) && Tracks(s) ==> Tracks(Apply(env, s, e))
  {
  }

  lemma {:induction false} PrefixRuns(env: Settings, run: seq<Event>, k: nat)
    requires Exec(env, run).Some? && k <= |run|
    ensures Exec(env, run[..k]).Some?
    ensures k < |run| ==>
              && Enabled(env, Exec(env, run[..k]).value, run[k])
              && Exec(env, run[..k + 1]) == Some(Apply(env, Exec(env, run[..k]).value, run[k]))
  {
    if k < |run| {
      var n := |run| - 1;
      if k < n {
        PrefixRuns(env, run[..n], k);
        assert run[..n][..k] == run[..k] && run[..n][..k + 1] == run[..k + 1];
      } else {
        assert run[..k + 1] == run;
      }
    } else {
      assert run[..k] == run;
    }
  }

  ghost predicate TracksThroughout(env: Settings, run: seq<Event>) {
    forall k | 0 <= k <= |run| :: Exec(env, run[..k]).Some? && Tracks(Exec(env, run[..k]).value)
  }

  ghost predicate NeverOverwrites(env: Settings, run: seq<Event>) {
    forall k | 0 <= k < |run| :: Exec(env, run[..k]).Some? && !Overwrites(Exec(env, run[..k]).value, run[k])
  }

  lemma NeverOverwritesBefore(env: Settings, run: seq<Event>, k: nat)
    requires NeverOverwrites(env, run) && k <= |run|
    ensures NeverOverwrites(env, run[..k])
  {
    assert forall j | 0 <= j < k :: run[..k][..j] == run[..j] && run[..k][j] == run[j];
  }

  lemma {:induction false} NoOverwriteTracks(env: Settings, run: seq<Event>)
    requires Exec(env, run).Some? && NeverOverwrites(env, run)
    ensures Tracks(Exec(env, run).value)
  {
    if |run| > 0 {
      var n := |run| - 1;
      NeverOverwritesBefore(env, run, n);
      NoOverwriteTracks(env, run[..n]);
      RunsKeepInv(env, run[..n]);
      TracksStep(env, Exec(env, run[..n]).value, run[n]);
    }
  }

  /** The slot names the newest stored upgrade all along a run exactly when no
      store in that run comes late. */
  lemma {:induction false} TracksIffNeverOverwrites(env: Settings, run: seq<Event>)
    requires Exec(env, run).Some?
    ensures TracksThroughout(env, run) <==> NeverOverwrites(env, run)
  {
    if NeverOverwrites(env, run) {
      forall k | 0 <= k <= |run| ensures Exec(env, run[..k]).Some? && Tracks(Exec(env, run[..k]).value) {
        PrefixRuns(env, run, k);
        NeverOverwritesBefore(env, run, k);
        NoOverwriteTracks(env, run[..k]);
      }
    } else {
      var k :| 0 <= k < |run| && !(Exec(env, run[..k]).Some? && !Overwrites(Exec(env, run[..k]).value, run[k]));
      PrefixRuns(env, run, k);
      RunsKeepInv(env, run[..k]);
      TracksStep(env, Exec(env, run[..k]).value, run[k]);
      assert !Tracks(Exec(env, run[..k + 1]).value);
    }
  }

  /** Every handler stores its handle before the next exchange succeeds. */
  ghost predicate StoresBeforeNextClaim(env: Settings, run: seq<Event>) {
    forall k | 0 <= k < |run| && run[k].Claim? && Exec(env, run[..k]).Some? ::
      forall t | 0 <= t < |Exec(env, run[..k]).value.owners| :: t in Exec(env, run[..k]).value.stored
  }

  lemma {:induction false} OlderAreStored(env: Settings, run: seq<Event>, k: nat)
    requires Exec(env, run).Some? && StoresBeforeNextClaim(env, run) && k <= |run|
    ensures Exec(env, run[..k]).Some?
    ensures forall t | 0 <= t < |Exec(env, run[..k]).value.owners| - 1 :: t in Exec(env, run[..k]).value.stored
  {
    PrefixRuns(env, run, k);
    if k > 0 {
      OlderAreStored(env, run, k - 1);
      PrefixRuns(env, run, k - 1);
      var s := Exec(env, run[..k - 1]).value;
      assert s.stored <= Apply(env, s, run[k - 1]).stored;
    }
  }

  /** Then no store comes late. */
  lemma {:induction false} OrderlyRunsTrack(env: Settings, run: seq<Event>)
    requires Exec(env, run).Some? && StoresBeforeNextClaim(env, run)
    ensures TracksThroughout(env, run)
  {
    forall k | 0 <= k < |run|
      ensures Exec(env, run[..k]).Some? && !Overwrites(Exec(env, run[..k]).value, run[k])
    {
      OlderAreStored(env, run, k);
      RunsKeepInv(env, run[..k]);
    }
    TracksIffNeverOverwrites(env, run);
  }

  /** The handler that stored a handle last. */
  function LastStore(run: seq<Event>): Option<nat> {
    if |run| == 0 then None
    else if run[|run| - 1].Store? then Some(run[|run| - 1].h) else LastStore(run[..|run| - 1])
  }

  /** The handler that won the exchange last. */
  function LastClaim(run: seq<Event>): Option<nat> {
    if |run| == 0 then None
    else if run[|run| - 1].Claim? then Some(run[|run| - 1].h) else LastClaim(run[..|run| - 1])
  }

  function NewestOwner(s: State): Option<nat> {
    if |s.owners| == 0 then None else Some(s.owners[|s.owners| - 1])
  }

  lemma {:induction false} LastClaimIsNewest(env: Settings, run: seq<Event>)
    requires Exec(env, run).Some?
    ensures LastClaim(run) == NewestOwner(Exec(env, run).value)
  {
    if |run| > 0 {
      LastClaimIsNewest(env, run[..|run| - 1]);
      OwnersStep(env, Exec(env, run[..|run| - 1]).value, run[|run| - 1]);
    }
  }

  /** The slot, as a run of stores leaves it. */
  ghost predicate SlotNames(s: State, last: Option<nat>) {
    match s.slot
    case None => last == None
    case Some(t) => t in s.stored && t < |s.owners| && last == Some(s.owners[t])
  }

  lemma SlotStep(env: Settings, s: State, e: Event, last: Option<nat>)
    requires Enabled(env, s, e) && TicketsOwned(s) && Apply(env, s, e).phase.Serving?
    requires SlotNames(s, last)
    ensures SlotNames(Apply(env, s, e), if e.Store? then Some(e.h) else last)
  {
    if e.Store? {
      assert Ticket(s.handlers[e.h]) == Some(s.handlers[e.h].ticket);
    }
  }

  lemma ServingBefore(env: Settings, s: State, e: Event)
    requires Enabled(env, s, e) && Apply(env, s, e).phase.Serving?
    ensures s.phase.Serving?
  {
  }

  lemma {:induction false} SlotIsLastStore(env: Settings, run: seq<Event>)
    requires Exec(env, run).Some? && Exec(env, run).value.phase.Serving?
    ensures SlotNames(Exec(env, run).value, LastStore(run))
  {
    if |run| > 0 {
      var before, e := Exec(env, run[..|run| - 1]).value, run[|run| - 1];
      ServingBefore(env, before, e);
      SlotIsLastStore(env, run[..|run| - 1]);
      RunsKeepInv(env, run[..|run| - 1]);
      SlotStep(env, before, e, LastStore(run[..|run| - 1]));
    }
  }

  lemma OwnersDiffer(s: State, t: nat, u: nat)
    requires TicketsOwned(s) && t < |s.owners| && u < |s.owners| && s.owners[t] == s.owners[u]
    ensures t == u
  {
    assert Ticket(s.handlers[s.owners[t]]) == Some(t) && Ticket(s.handlers[s.owners[u]]) == Some(u);
  }

  /** Every open upgrade is the one that shutdown waits for. */
  ghost predicate WaitsForTheOpen(s: State) {
    forall t: nat | Unfinished(s, t) :: s.phase == Draining(t)
  }

  lemma ShutdownTakes(env: Settings, s: State)
    requires Inv(s) && s.phase.Serving?
    ensures WaitsForTheOpen(Apply(env, s, Shutdown)) <==> (s.upgrading ==> s.slot == Some(|s.owners| - 1))
  {
    var after := Apply(env, s, Shutdown);
    if s.upgrading {
      assert Unfinished(after, |s.owners| - 1);
    }
    forall t: nat | Unfinished(after, t) ensures s.upgrading && t == |s.owners| - 1 {
      assert Unfinished(s, t);
      OpenIsNewest(s, t);
    }
  }

  lemma SlotNamesNewestIff(s: State, last: Option<nat>)
    requires TicketsOwned(s) && SlotNames(s, last) && |s.owners| > 0
    ensures s.slot == Some(|s.owners| - 1) <==> last == Some(s.owners[|s.owners| - 1])
  {
    if s.slot.Some? && last == Some(s.owners[|s.owners| - 1]) {
      OwnersDiffer(s, s.slot.value, |s.owners| - 1);
    }
  }

  lemma ShutdownWaitsIff(env: Settings, s: State, last: Option<nat>)
    requires Inv(s) && s.phase.Serving? && SlotNames(s, last)
    ensures Apply(env, s, Shutdown).slot == None
    ensures WaitsForTheOpen(Apply(env, s, Shutdown)) <==> (s.upgrading ==> last == NewestOwner(s))
  {
    ShutdownTakes(env, s);
    if s.upgrading {
      SlotNamesNewestIff(s, last);
    }
  }

  /** A shutdown waits for whatever is open exactly when the flag is clear or the
      handler that last won the exchange is also the last to have stored. */
  lemma ShutdownWaitsForOpenIff(env: Settings, run: seq<Event>)
    requires Exec(env, run).Some? && Exec(env, run).value.phase.Serving?
    ensures var s := Exec(env, run).value;
            && Apply(env, s, Shutdown).slot == None
            && (WaitsForTheOpen(Apply(env, s, Shutdown)) <==> (s.upgrading ==> LastStore(run) == LastClaim(run)))
  {
    RunsKeepInv(env, run);
    SlotIsLastStore(env, run);
    LastClaimIsNewest(env, run);
    ShutdownWaitsIff(env, Exec(env, run).value, LastStore(run));
  }

  lemma NewestIsNamed(s: State)
    requires TicketsOwned(s) && Tracks(s) && s.phase.Serving? && |s.owners| - 1 in s.stored
    ensures s.slot == Some(|s.owners| - 1)
  {
    assert forall t | t in s.stored :: t in s.tasks && t < |s.owners|;
  }

  lemma TracksAtTheEnd(env: Settings, run: seq<Event>)
    requires TracksThroughout(env, run)
    ensures Exec(env, run).Some? && Tracks(Exec(env, run).value)
  {
    assert run[..|run|] == run;
  }

  /** Orderly runs whose newest handle is stored are of that kind. */
  lemma OrderlyShutdownWaits(env: Settings, run: seq<Event>)
    requires Exec(env, run).Some? && StoresBeforeNextClaim(env, run)
    requires Exec(env, run).value.phase.Serving?
    requires |Exec(env, run).value.owners| > 0 ==> |Exec(env, run).value.owners| - 1 in Exec(env, run).value.stored
    ensures WaitsForTheOpen(Apply(env, Exec(env, run).value, Shutdown))
  {
    RunsKeepInv(env, run);
    OrderlyRunsTrack(env, run);
    TracksAtTheEnd(env, run);
    var s := Exec(env, run).value;
    ShutdownTakes(env, s);
    if s.upgrading {
      NewestIsNamed(s);
    }
  }

  /** A shutdown waits for one of the first n upgrades, those accepted before it,
      and no other is ever dropped. */
  ghost predicate WaitsForOneOf(s: State, n: nat) {
    && !s.phase.Serving? && n <= |s.owners|
    && (s.phase.Draining? ==> s.phase.handle in s.tasks && s.phase.handle < n)
    && (forall t: nat | TaskIs(s, t, Dropped) :: t < n && s.phase.Stopped?)
  }

  /** Each of them is over, waited for or dropped. */
  ghost predicate OverOrAwaited(s: State, n: nat) {
    forall t: nat | t < n && Unfinished(s, t) :: s.phase == Draining(t) || TaskIs(s, t, Dropped)
  }

  lemma WaitStep(env: Settings, s: State, e: Event, n: nat)
    requires Enabled(env, s, e) && TicketsOwned(s) && WaitsForOneOf(s, n)
    ensures WaitsForOneOf(Apply(env, s, e), n)
  {
    var after := Apply(env, s, e);
    forall t: nat | TaskIs(after, t, Dropped) ensures t < n && after.phase.Stopped? {
      assert TaskIs(s, t, Dropped) || HitsUnstarted(s, e);
    }
  }

  lemma AwaitedStep(env: Settings, s: State, e: Event, n: nat)
    requires Enabled(env, s, e) && TicketsOwned(s) && WaitsForOneOf(s, n) && OverOrAwaited(s, n)
    ensures OverOrAwaited(Apply(env, s, e), n)
  {
    var after := Apply(env, s, e);
    forall t: nat | t < n && Unfinished(after, t) ensures after.phase == Draining(t) || TaskIs(after, t, Dropped) {
      assert Unfinished(s, t);
    }
  }

  lemma {:induction false} ServingHasDroppedNone(env: Settings, run: seq<Event>)
    requires Exec(env, run).Some? && Exec(env, run).value.phase.Serving?
    ensures !SomeDropped(Exec(env, run).value)
  {
    if |run| > 0 {
      var before, e := Exec(env, run[..|run| - 1]).value, run[|run| - 1];
      ServingBefore(env, before, e);
      ServingHasDroppedNone(env, run[..|run| - 1]);
      RunsKeepInv(env, run[..|run| - 1]);
      DroppedStep(env, before, e);
    }
  }

  lemma ShutdownBegins(env: Settings, run: seq<Event>)
    requires Exec(env, run).Some? && Exec(env, run).value.phase.Serving?
    requires Exec(env, run).value.upgrading ==> LastStore(run) == LastClaim(run)
    ensures WaitsForOneOf(Apply(env, Exec(env, run).value, Shutdown), |Exec(env, run).value.owners|)
    ensures OverOrAwaited(Apply(env, Exec(env, run).value, Shutdown), |Exec(env, run).value.owners|)
  {
    ShutdownWaitsForOpenIff(env, run);
    SlotIsLastStore(env, run);
    RunsKeepInv(env, run);
    ServingHasDroppedNone(env, run);
    var s := Exec(env, run).value;
    forall t: nat | TaskIs(Apply(env, s, Shutdown), t, Dropped) ensures false {
      assert TaskIs(s, t, Dropped);
    }
  }

  lemma {:induction false} ShutdownGoesOn(env: Settings, run: seq<Event>, rest: seq<Event>)
    requires Exec(env, run).Some? && Exec(env, run).value.phase.Serving?
    requires Exec(env, run).value.upgrading ==> LastStore(run) == LastClaim(run)
    requires Exec(env, run + [Shutdown] + rest).Some?
    ensures WaitsForOneOf(Exec(env, run + [Shutdown] + rest).value, |Exec(env, run).value.owners|)
    ensures OverOrAwaited(Exec(env, run + [Shutdown] + rest).value, |Exec(env, run).value.owners|)
  {
    var whole := run + [Shutdown] + rest;
    if |rest| == 0 {
      assert whole == run + [Shutdown];
      ExecOneMore(env, run, Shutdown);
      ShutdownBegins(env, run);
    } else {
      var shorter, e := rest[..|rest| - 1], rest[|rest| - 1];
      var before := run + [Shutdown] + shorter;
      assert whole == before + [e];
      ExecOneMore(env, before, e);
      ShutdownGoesOn(env, run, shorter);
      RunsKeepInv(env, before);
      WaitStep(env, Exec(env, before).value, e, |Exec(env, run).value.owners|);
      AwaitedStep(env, Exec(env, before).value, e, |Exec(env, run).value.owners|);
    }
  }

  /** Once such a shutdown has stopped waiting, every upgrade accepted before it
      is over, exactly unless its abort hit a task that had not run yet. */
  lemma ShutdownLeavesNothingOpenIff(env: Settings, run: seq<Event>, rest: seq<Event>)
    requires Exec(env, run).Some? && Exec(env, run).value.phase.Serving?
    requires Exec(env, run).value.upgrading ==> LastStore(run) == LastClaim(run)
    requires Exec(env, run + [Shutdown] + rest).Some? && Exec(env, run + [Shutdown] + rest).value.phase.Stopped?
    ensures var end := Exec(env, run + [Shutdown] + rest).value;
            (forall t: nat | t < |Exec(env, run).value.owners| :: !Unfinished(end, t))
            <==> !AbortsUnstarted(env, run + [Shutdown] + rest)
  {
    ShutdownGoesOn(env, run, rest);
    DroppedIffAbortsUnstarted(env, run + [Shutdown] + rest);
    var n, end := |Exec(env, run).value.owners|, Exec(env, run + [Shutdown] + rest).value;
    if SomeDropped(end) {
      var t: nat :| TaskIs(end, t, Dropped);
      assert t < n && Unfinished(end, t);
    }
  }

  lemma DrainingStep(env: Settings, s: State, e: Event)
    requires Enabled(env, s, e) && (s.phase.Draining? ==> s.slot == None)
    ensures Apply(env, s, e).phase.Draining? ==> Apply(env, s, e).slot == None
  {
  }

  /** While shutdown waits it keeps the lock: no handle is stored meanwhile, and
      the slot it emptied stays empty. */
  lemma {:induction false} DrainingKeepsSlotEmpty(env: Settings, run: seq<Event>)
    requires Exec(env, run).Some? && Exec(env, run).value.phase.Draining?
    ensures Exec(env, run).value.slot == None
  {
    var n := |run| - 1;
    var before := Exec(env, run[..n]).value;
    if before.phase.Draining? {
      DrainingKeepsSlotEmpty(env, run[..n]);
    }
    DrainingStep(env, before, run[n]);
  }

  lemma NoStoreNeverOverwrites(env: Settings, run: seq<Event>)
    requires Exec(env, run).Some? && forall e | e in run :: !e.Store?
    ensures NeverOverwrites(env, run)
  {
    forall k | 0 <= k < |run| ensures Exec(env, run[..k]).Some? && !run[k].Store? {
      PrefixRuns(env, run, k);
    }
  }

  lemma SpawnedOnly(env: Settings) returns (run: seq<Event>, s: State)
    requires env.available
    ensures Exec(env, run) == Some(s) && forall e | e in run :: !e.Store?
    ensures s.phase.Serving? && s.slot == None && |s.owners| == 1 && TaskIs(s, 0, Unstarted)
  {
    run, s := Step(env, [], INITIAL, AskUpgrade(0, false));
    run, s := Step(env, run, s, Claim(0));
    run, s := Step(env, run, s, Spawn(0));
  }

  /** A handler between spawn and store: shutdown finds no handle and stops at
      once, with the upgrade open and no store ever late. */
  lemma UnstoredUpgradeIsLost(env: Settings)
    requires env.available
    ensures exists run ::
              && Exec(env, run + [Shutdown]).Some? && TracksThroughout(env, run)
              && Exec(env, run + [Shutdown]).value.phase.Stopped? && Unfinished(Exec(env, run + [Shutdown]).value, 0)
  {
    var run, s := SpawnedOnly(env);
    NoStoreNeverOverwrites(env, run);
    TracksIffNeverOverwrites(env, run);
    var down, after := Step(env, run, s, Shutdown);
    assert Unfinished(after, 0);
  }

  /** Two requests come in; the first upgrade is accepted and its task runs to
      its end before its handler has stored the handle. */
  lemma FirstUpgradeEnds(env: Settings) returns (run: seq<Event>, s: State)
    requires env.available
    ensures Exec(env, run) == Some(s)
    ensures !s.upgrading && s.owners == [0] && s.phase == Serving && s.stored == {}
    ensures Is(s, 0, Spawned(0)) && Is(s, 1, UpgradeAsked(false)) && TaskIs(s, 0, Ended(Succeeded))
  {
    run, s := [], INITIAL;
    run, s := Step(env, run, s, AskUpgrade(0, false));
    run, s := Step(env, run, s, AskUpgrade(1, false));
    run, s := Step(env, run, s, Claim(0));
    run, s := Step(env, run, s, Spawn(0));
    run, s := Step(env, run, s, CreateGuard(0));
    run, s := Step(env, run, s, BeginUpgrade(0));
    run, s := Step(env, run, s, EndUpgrade(0, Succeeded));
  }

  lemma Step(env: Settings, run: seq<Event>, s: State, e: Event) returns (longer: seq<Event>, next: State)
    requires Exec(env, run) == Some(s) && Enabled(env, s, e)
    ensures longer == run + [e] && next == Apply(env, s, e) && Exec(env, longer) == Some(next)
  {
    ExecOneMore(env, run, e);
    longer, next := run + [e], Apply(env, s, e);
  }

  /** After a late store, shutdown waits for an upgrade that is over while the
      newer one is still open. */
  ghost predicate LosesTheUpgrade(env: Settings, run: seq<Event>, late: Event) {
    && Exec(env, run).Some? && Overwrites(Exec(env, run).value, late)
    && Exec(env, run + [late, Shutdown]).Some?
    && var s := Exec(env, run + [late, Shutdown]).value;
       s.phase == Draining(0) && Unfinished(s, 1) && !Unfinished(s, 0)
  }

  /** The order of stores matters: some run does lose an upgrade. */
  lemma LateStoreLosesTheUpgrade(env: Settings)
    requires env.available
    ensures exists run, late :: LosesTheUpgrade(env, run, late)
  {
    var run, s := FirstUpgradeEnds(env);
    run, s := Step(env, run, s, Claim(1));
    run, s := Step(env, run, s, Spawn(1));
    run, s := Step(env, run, s, Store(1));
    var late := Store(0);
    var stored, s' := Step(env, run, s, late);
    var down, s'' := Step(env, stored, s', Shutdown);
    assert down == run + [late, Shutdown];
    assert LosesTheUpgrade(env, run, late);
  }
}
