/** What answers, tasks and the shutdown phase say about the run that led to them,
    and that every request can be answered. */
module UpgradeHistory {
  import opened Wrappers
  import opened UpgradeProtocol

  // ----- handlers -----

  /** The run has the event e at a moment at which some accepted upgrade was open,
      or at which none was. */
  ghost predicate Met(env: Settings, run: seq<Event>, e: Event, busy: bool) {
    exists k | 0 <= k < |run| ::
      run[k] == e && Exec(env, run[..k]).Some? && Busy(Exec(env, run[..k]).value) == busy
  }

  /** What must have happened for handler h to stand where it does. */
  ghost predicate Explained(env: Settings, run: seq<Event>, h: nat, phase: Handler) {
    match phase
    case UpgradeAsked(dryRun) => AskUpgrade(h, dryRun) in run
    case Claimed(_) => AskUpgrade(h, false) in run && Met(env, run, Claim(h), false)
    case Spawned(_) => AskUpgrade(h, false) in run && Met(env, run, Claim(h), false) && Spawn(h) in run
    case Stored(_) => AskUpgrade(h, false) in run && Met(env, run, Claim(h), false) && Store(h) in run
    case RebootAsked => AskReboot(h) in run
    case RebootCleared(_) => AskReboot(h) in run && Met(env, run, CheckFlag(h), false)
    case Replied(reply) => ReplyExplained(env, run, h, reply)
  }

  ghost predicate ReplyExplained(env: Settings, run: seq<Event>, h: nat, reply: Reply) {
    match reply
    case Unavailable =>
      !env.available && (AskUpgrade(h, false) in run || AskUpgrade(h, true) in run || AskReboot(h) in run)
    case DryRunAnswered(ok) => AskUpgrade(h, true) in run && AnswerDryRun(h, ok) in run
    case AlreadyUpgrading => AskUpgrade(h, false) in run && Met(env, run, Rebuff(h), true)
    case UpgradeTriggered(_) => AskUpgrade(h, false) in run && Met(env, run, Claim(h), false) && Store(h) in run
    case RebootLocked(_) => AskReboot(h) in run && Met(env, run, CheckFlag(h), true)
    case RebootForbidden => AskReboot(h) in run && Met(env, run, CheckFlag(h), false) && !env.allowReboot
    case RebootTriggered(_) => AskReboot(h) in run && Met(env, run, CheckFlag(h), false) && env.allowReboot
  }

  lemma MetBefore(env: Settings, run: seq<Event>, e: Event, busy: bool)
    requires |run| > 0 && Met(env, run[..|run| - 1], e, busy)
    ensures Met(env, run, e, busy)
  {
    var n := |run| - 1;
    var k :| 0 <= k < n && run[..n][k] == e && Exec(env, run[..n][..k]).Some?
             && Busy(Exec(env, run[..n][..k]).value) == busy;
    assert run[..n][..k] == run[..k] && run[k] == e;
  }

  lemma MetNow(env: Settings, run: seq<Event>)
    requires |run| > 0 && Exec(env, run[..|run| - 1]).Some?
    ensures Met(env, run, run[|run| - 1], Busy(Exec(env, run[..|run| - 1]).value))
  {
  }

  lemma ExplainedBefore(env: Settings, run: seq<Event>, h: nat, phase: Handler)
    requires |run| > 0 && Explained(env, run[..|run| - 1], h, phase)
    ensures Explained(env, run, h, phase)
  {
    var before := run[..|run| - 1];
    assert forall e | e in before :: e in run;
    if Met(env, before, Claim(h), false) { MetBefore(env, run, Claim(h), false); }
    if Met(env, before, Rebuff(h), true) { MetBefore(env, run, Rebuff(h), true); }
    if Met(env, before, CheckFlag(h), false) { MetBefore(env, run, CheckFlag(h), false); }
    if Met(env, before, CheckFlag(h), true) { MetBefore(env, run, CheckFlag(h), true); }
  }

  /** What the last event makes of its handler is explained by what it made of it. */
  lemma ExplainedStep(env: Settings, run: seq<Event>, s: State, e: Event)
    requires Enabled(env, s, e) && !IsTaskEvent(e) && e in run
    requires e.h in s.handlers ==> Explained(env, run, e.h, s.handlers[e.h])
    requires e.Claim? ==> Met(env, run, e, false)
    requires e.Rebuff? ==> Met(env, run, e, true)
    requires e.CheckFlag? ==> Met(env, run, e, s.upgrading)
    ensures Explained(env, run, e.h, Apply(env, s, e).handlers[e.h])
  {
  }

  /** Every handler stands where the run has brought it: a request is answered only
      by what became of that very request, and what an answer says of open
      upgrades was so at the moment its handler looked. */
  lemma {:induction false} HandlersAreExplained(env: Settings, run: seq<Event>, h: nat)
    requires Exec(env, run).Some? && h in Exec(env, run).value.handlers
    ensures Explained(env, run, h, Exec(env, run).value.handlers[h])
  {
    assert |run| > 0;
    var n := |run| - 1;
    var s, e := Exec(env, run[..n]).value, run[n];
    if h in s.handlers {
      HandlersAreExplained(env, run[..n], h);
      ExplainedBefore(env, run, h, s.handlers[h]);
    }
    if IsTaskEvent(e) || e.h != h {
      OtherHandlersStay(env, s, e, h);
    } else {
      RunsKeepInv(env, run[..n]);
      BusyIffUpgrading(s);
      MetNow(env, run);
      ExplainedStep(env, run, s, e);
    }
  }

  lemma OtherHandlersStay(env: Settings, s: State, e: Event, h: nat)
    requires Enabled(env, s, e) && (IsTaskEvent(e) || e.h != h)
    ensures h in Apply(env, s, e).handlers <==> h in s.handlers
    ensures h in s.handlers ==> Apply(env, s, e).handlers[h] == s.handlers[h]
  {
  }

  /** In particular a reboot is triggered or forbidden only to a handler that looked
      when no accepted upgrade was open, and locked only to one that looked when
      one was. */
  lemma RebootAnswersFollowTheCheck(env: Settings, run: seq<Event>, h: nat)
    requires Exec(env, run).Some? && h in Exec(env, run).value.handlers
    requires Exec(env, run).value.handlers[h].Replied?
    ensures var reply := Exec(env, run).value.handlers[h].reply;
            && (reply.RebootTriggered? || reply.RebootForbidden? ==>
                  exists k | 0 <= k < |run| ::
                    run[k] == CheckFlag(h) && Exec(env, run[..k]).Some? && !Busy(Exec(env, run[..k]).value))
            && (reply.RebootLocked? ==>
                  exists k | 0 <= k < |run| ::
                    run[k] == CheckFlag(h) && Exec(env, run[..k]).Some? && Busy(Exec(env, run[..k]).value))
  {
    HandlersAreExplained(env, run, h);
  }

  // ----- tasks -----

  /** a comes before b in the run. */
  ghost predicate InOrder(run: seq<Event>, a: Event, b: Event) {
    exists i, j | 0 <= i < j < |run| :: run[i] == a && run[j] == b
  }

  /** What must have happened for a task to be what it is. */
  ghost predicate TaskExplained(run: seq<Event>, owner: nat, t: nat, task: Task) {
    match task
    case Unstarted => Spawn(owner) in run && CreateGuard(t) !in run
    case Guarded => InOrder(run, Spawn(owner), CreateGuard(t))
    case Running => InOrder(run, Spawn(owner), CreateGuard(t)) && InOrder(run, CreateGuard(t), BeginUpgrade(t))
    case Ended(Aborted) => InOrder(run, CreateGuard(t), AbortTask)
    case Ended(how) =>
      InOrder(run, CreateGuard(t), BeginUpgrade(t)) && InOrder(run, BeginUpgrade(t), EndUpgrade(t, how))
    case Dropped => InOrder(run, Spawn(owner), AbortTask) && CreateGuard(t) !in run
  }

  lemma OneEventMore(run: seq<Event>, last: Event)
    requires |run| > 0 && last == run[|run| - 1]
    ensures forall e :: e in run <==> e in run[..|run| - 1] || e == last
    ensures forall a, b :: InOrder(run[..|run| - 1], a, b) ==> InOrder(run, a, b)
    ensures forall a | a in run[..|run| - 1] :: InOrder(run, a, last)
  {
    var n := |run| - 1;
    assert run == run[..n] + [run[n]];
    forall a, b | InOrder(run[..n], a, b) ensures InOrder(run, a, b) {
      var i, j :| 0 <= i < j < n && run[..n][i] == a && run[..n][j] == b;
      assert run[i] == a && run[j] == b;
    }
    forall a | a in run[..n] ensures InOrder(run, a, last) {
      var i :| 0 <= i < n && run[..n][i] == a;
      assert run[i] == a;
    }
  }

  lemma InOrderFirst(run: seq<Event>, a: Event, b: Event)
    requires InOrder(run, a, b)
    ensures a in run && b in run
  {
  }

  /** A task keeps what explained it, unless it is touched. */
  lemma UntouchedTaskStep(env: Settings, run: seq<Event>, s: State, e: Event, t: nat, owner: nat)
    requires |run| > 0 && e == run[|run| - 1] && Enabled(env, s, e)
    requires t in s.tasks && TaskExplained(run[..|run| - 1], owner, t, s.tasks[t])
    requires t in Apply(env, s, e).tasks && Apply(env, s, e).tasks[t] == s.tasks[t]
    ensures TaskExplained(run, owner, t, s.tasks[t])
  {
    OneEventMore(run, e);
  }

  lemma TouchedTaskStep(env: Settings, run: seq<Event>, s: State, e: Event, t: nat, owner: nat)
    requires |run| > 0 && e == run[|run| - 1] && Enabled(env, s, e)
    requires t in s.tasks && TaskExplained(run[..|run| - 1], owner, t, s.tasks[t])
    requires t in Apply(env, s, e).tasks && Apply(env, s, e).tasks[t] != s.tasks[t] && !e.Spawn?
    ensures TaskExplained(run, owner, t, Apply(env, s, e).tasks[t])
  {
    OneEventMore(run, e);
    if s.tasks[t].Guarded? || s.tasks[t].Running? {
      InOrderFirst(run[..|run| - 1], Spawn(owner), CreateGuard(t));
    }
    if s.tasks[t].Running? {
      InOrderFirst(run[..|run| - 1], CreateGuard(t), BeginUpgrade(t));
    }
  }

  lemma {:induction false} NoGuardBeforeSpawn(env: Settings, run: seq<Event>, t: nat)
    requires Exec(env, run).Some? && t !in Exec(env, run).value.tasks
    ensures CreateGuard(t) !in run
  {
    if |run| > 0 {
      var n := |run| - 1;
      TasksOnlyGrow(env, Exec(env, run[..n]).value, run[n]);
      NoGuardBeforeSpawn(env, run[..n], t);
      OneEventMore(run, run[n]);
    }
  }

  lemma TasksOnlyGrow(env: Settings, s: State, e: Event)
    requires Enabled(env, s, e)
    ensures s.tasks.Keys <= Apply(env, s, e).tasks.Keys
    ensures forall t | t in Apply(env, s, e).tasks && t !in s.tasks ::
              e.Spawn? && s.handlers[e.h].ticket == t && Apply(env, s, e).tasks[t] == Unstarted
    ensures e.CreateGuard? ==> e.t in s.tasks
  {
  }

  /** Every task is what the run has made of it, in this order: spawned by the
      handler that won its ticket, guarded, begun, ended as it did, or aborted
      with its guard or before there was one. */
  lemma {:induction false} TasksAreExplained(env: Settings, run: seq<Event>, t: nat)
    requires Exec(env, run).Some? && t in Exec(env, run).value.tasks
    ensures t < |Exec(env, run).value.owners|
    ensures TaskExplained(run, Exec(env, run).value.owners[t], t, Exec(env, run).value.tasks[t])
  {
    RunsKeepInv(env, run);
    assert |run| > 0;
    var n := |run| - 1;
    var s, e := Exec(env, run[..n]).value, run[n];
    RunsKeepInv(env, run[..n]);
    TasksOnlyGrow(env, s, e);
    OwnersStep(env, s, e);
    if t in s.tasks {
      TasksAreExplained(env, run[..n], t);
      if Apply(env, s, e).tasks[t] == s.tasks[t] {
        UntouchedTaskStep(env, run, s, e, t, s.owners[t]);
      } else {
        SpawnedOnce(env, s, e, t);
        TouchedTaskStep(env, run, s, e, t, s.owners[t]);
      }
    } else {
      NoGuardBeforeSpawn(env, run[..n], t);
      OneEventMore(run, e);
      assert Ticket(s.handlers[e.h]) == Some(t);
    }
  }

  lemma SpawnedOnce(env: Settings, s: State, e: Event, t: nat)
    requires Enabled(env, s, e) && TicketsOwned(s) && t in s.tasks && Apply(env, s, e).tasks[t] != s.tasks[t]
    ensures !e.Spawn?
  {
  }

  // ----- the shutdown -----

  /** The phase, from the run: a shutdown that found a handle waits for it until it
      is drained or gives up; any other stops at once. */
  ghost predicate PhaseExplained(env: Settings, run: seq<Event>, phase: Phase) {
    match phase
    case Serving => Shutdown !in run && Drained !in run && AbortTask !in run
    case Draining(t) => ShutdownFound(env, run, Some(t)) && Drained !in run && AbortTask !in run
    case Stopped =>
      ShutdownFound(env, run, None) || InOrder(run, Shutdown, Drained) || InOrder(run, Shutdown, AbortTask)
  }

  ghost predicate ShutdownFound(env: Settings, run: seq<Event>, slot: Option<nat>) {
    exists k | 0 <= k < |run| ::
      run[k] == Shutdown && Exec(env, run[..k]).Some? && Exec(env, run[..k]).value.slot == slot
  }

  lemma ShutdownFoundBefore(env: Settings, run: seq<Event>, slot: Option<nat>)
    requires |run| > 0 && ShutdownFound(env, run[..|run| - 1], slot)
    ensures ShutdownFound(env, run, slot) && Shutdown in run[..|run| - 1]
  {
    var n := |run| - 1;
    var k :| 0 <= k < n && run[..n][k] == Shutdown && Exec(env, run[..n][..k]).Some?
             && Exec(env, run[..n][..k]).value.slot == slot;
    assert run[..n][..k] == run[..k] && run[k] == Shutdown;
  }

  lemma PhaseStep(env: Settings, s: State, e: Event)
    requires Enabled(env, s, e)
    ensures var after := Apply(env, s, e).phase;
            && (e == Shutdown ==> s.phase.Serving? && after == if s.slot.Some? then Draining(s.slot.value) else Stopped)
            && (e == Drained || e == AbortTask ==> s.phase.Draining? && after == Stopped)
            && (e != Shutdown && e != Drained && e != AbortTask ==> after == s.phase)
  {
  }

  lemma {:induction false} PhaseIsExplained(env: Settings, run: seq<Event>)
    requires Exec(env, run).Some?
    ensures PhaseExplained(env, run, Exec(env, run).value.phase)
  {
    if |run| > 0 {
      var n := |run| - 1;
      var s, e := Exec(env, run[..n]).value, run[n];
      PhaseIsExplained(env, run[..n]);
      PhaseStep(env, s, e);
      OneEventMore(run, e);
      match s.phase {
        case Serving =>
          assert e == Shutdown ==> ShutdownFound(env, run, s.slot);
        case Draining(t) => ShutdownFoundBefore(env, run, Some(t));
        case Stopped =>
          if ShutdownFound(env, run[..n], None) {
            ShutdownFoundBefore(env, run, None);
          }
      }
    }
  }

  // ----- getting an answer -----

  /** How far a handler is from its answer. */
  function Distance(phase: Handler): nat {
    match phase
    case UpgradeAsked(_) => 4
    case Claimed(_) => 3
    case Spawned(_) => 2
    case Stored(_) => 1
    case RebootAsked => 2
    case RebootCleared(_) => 1
    case Replied(_) => 0
  }

  /** The next step of a handler: nothing but a draining shutdown can keep it from
      taking one. */
  lemma HandlerGoesOn(env: Settings, s: State, h: nat) returns (e: Event)
    requires h in s.handlers && !s.handlers[h].Replied? && !s.phase.Draining?
    ensures Enabled(env, s, e) && Apply(env, s, e).phase == s.phase && h in Apply(env, s, e).handlers
    ensures Distance(Apply(env, s, e).handlers[h]) < Distance(s.handlers[h])
  {
    match s.handlers[h] {
      case UpgradeAsked(dryRun) =>
        e := if !env.available then Refuse(h) else if dryRun then AnswerDryRun(h, true)
             else if s.upgrading then Rebuff(h) else Claim(h);
      case Claimed(_) => e := Spawn(h);
      case Spawned(_) => e := Store(h);
      case Stored(_) => e := ReplyTriggered(h);
      case RebootAsked => e := if env.available then CheckFlag(h) else Refuse(h);
      case RebootCleared(_) => e := AnswerReboot(h);
    }
  }

  /** Every request can be answered by steps of its own handler alone, whatever the
      others do. */
  lemma {:induction false} CanBeAnswered(env: Settings, run: seq<Event>, h: nat) returns (rest: seq<Event>)
    requires Exec(env, run).Some? && h in Exec(env, run).value.handlers
    requires !Exec(env, run).value.phase.Draining?
    ensures Exec(env, run + rest).Some? && h in Exec(env, run + rest).value.handlers
    ensures Exec(env, run + rest).value.handlers[h].Replied?
    decreases Distance(Exec(env, run).value.handlers[h])
  {
    var s := Exec(env, run).value;
    if s.handlers[h].Replied? {
      rest := [];
      assert run + rest == run;
    } else {
      var e := HandlerGoesOn(env, s, h);
      var longer, after := Step(env, run, s, e);
      rest := CanBeAnswered(env, longer, h);
      assert longer + rest == run + ([e] + rest);
      rest := [e] + rest;
    }
  }

  lemma OrdinaryRequest(env: Settings) returns (run: seq<Event>, s: State)
    requires env.available
    ensures Exec(env, run) == Some(s) && s.phase.Serving? && s.slot == Some(0)
    ensures TaskIs(s, 0, Unstarted) && Is(s, 0, Replied(UpgradeTriggered(0)))
  {
    run, s := Step(env, [], INITIAL, AskUpgrade(0, false));
    run, s := Step(env, run, s, Claim(0));
    run, s := Step(env, run, s, Spawn(0));
    run, s := Step(env, run, s, Store(0));
    run, s := Step(env, run, s, ReplyTriggered(0));
  }

  lemma OrdinaryUpgrade(env: Settings, run: seq<Event>, s: State) returns (longer: seq<Event>, end: State)
    requires Exec(env, run) == Some(s) && s.phase.Serving? && s.slot == Some(0) && TaskIs(s, 0, Unstarted)
    ensures Exec(env, longer) == Some(end) && end.phase == Draining(0)
    ensures TaskIs(end, 0, Ended(Succeeded)) && !end.upgrading && end.handlers == s.handlers
  {
    longer, end := Step(env, run, s, CreateGuard(0));
    longer, end := Step(env, longer, end, BeginUpgrade(0));
    longer, end := Step(env, longer, end, Shutdown);
    longer, end := Step(env, longer, end, EndUpgrade(0, Succeeded));
  }

  /** An upgrade that a shutdown waits for can end, and the wait with it. */
  lemma OrdinaryShutdown(env: Settings)
    requires env.available
    ensures exists run ::
              && |run| > 0 && run[|run| - 1] == Drained
              && Exec(env, run).Some? && Exec(env, run).value.phase.Stopped? && !Exec(env, run).value.upgrading
              && Is(Exec(env, run).value, 0, Replied(UpgradeTriggered(0)))
              && TaskIs(Exec(env, run).value, 0, Ended(Succeeded))
  {
    var run, s := OrdinaryRequest(env);
    run, s := OrdinaryUpgrade(env, run, s);
    var longer, end := Step(env, run, s, Drained);
    assert longer[|longer| - 1] == Drained;
  }
}
