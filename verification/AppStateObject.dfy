/** The state the daemon's handlers and tasks share, with its atomic operations,
    each of which is one step of the upgrade protocol. */
module AppStateObject {
  import opened Wrappers
  import opened UpgradeProtocol
  import Address

  class AppState {
    var isUpgrading: bool
    var upgradeHandle: Option<nat>
    const settings: Settings
    ghost var world: State

    ghost predicate Valid()
      reads this
    {
      world.upgrading == isUpgrading && world.slot == upgradeHandle && Inv(world)
    }

    constructor (settings: Settings)
      ensures Valid() && world == INITIAL && this.settings == settings
    {
      this.settings := settings;
      isUpgrading, upgradeHandle, world := false, None, INITIAL;
    }

    /** A request to upgrade comes in; its handler gets a number of its own. */
    ghost method AskUpgrade(h: nat, dryRun: bool)
      requires Valid() && h !in world.handlers
      modifies `world
      ensures Valid() && Is(world, h, UpgradeAsked(dryRun))
      ensures world == Apply(settings, old(world), UpgradeProtocol.AskUpgrade(h, dryRun))
    {
      TakeStep(UpgradeProtocol.AskUpgrade(h, dryRun));
    }

    /** A request to reboot comes in. */
    ghost method AskReboot(h: nat)
      requires Valid() && h !in world.handlers
      modifies `world
      ensures Valid() && Is(world, h, RebootAsked)
      ensures world == Apply(settings, old(world), UpgradeProtocol.AskReboot(h))
    {
      TakeStep(UpgradeProtocol.AskReboot(h));
    }

    /** A step of the world that touches neither the flag nor the slot. */
    ghost method TakeStep(e: Event)
      requires Valid() && Enabled(settings, world, e)
      requires Apply(settings, world, e).upgrading == isUpgrading && Apply(settings, world, e).slot == upgradeHandle
      modifies `world
      ensures Valid() && world == Apply(settings, old(world), e)
    {
      StepKeepsInv(settings, world, e);
      world := Apply(settings, world, e);
    }

    /** The compare-exchange of the upgrade handler: it wins exactly when no
        accepted upgrade is open, and then nobody else can. */
    method CompareExchange(ghost h: nat) returns (won: bool)
      requires Valid() && settings.available && Is(world, h, UpgradeAsked(false))
      modifies this
      ensures Valid() && isUpgrading
      ensures won <==> !old(Busy(world))
      ensures world == Apply(settings, old(world), if won then Claim(h) else Rebuff(h))
    {
      BusyIffUpgrading(world);
      won := !isUpgrading;
      ghost var e := if won then Claim(h) else Rebuff(h);
      StepKeepsInv(settings, world, e);
      world := Apply(settings, world, e);
      if won {
        isUpgrading := true;
      }
    }

    /** Spawns the task of an accepted upgrade and yields its handle. */
    method SpawnTask(ghost h: nat, ticket: nat) returns (handle: nat)
      requires Valid() && Is(world, h, Claimed(ticket))
      modifies `world
      ensures Valid() && Is(world, h, Spawned(handle)) && TaskIs(world, handle, Unstarted)
      ensures world == Apply(settings, old(world), Spawn(h))
    {
      TakeStep(Spawn(h));
      handle := ticket;
    }

    /** The task starts by making its guard; the flag is set already. */
    method NewGuard(ghost t: nat)
      requires Valid() && TaskIs(world, t, Unstarted)
      modifies `world
      ensures Valid() && isUpgrading && TaskIs(world, t, Guarded)
      ensures world == Apply(settings, old(world), CreateGuard(t))
    {
      OpenIsNewest(world, t);
      TakeStep(CreateGuard(t));
    }

    /** Then it runs the upgrade. */
    method RunUpgrade(ghost t: nat)
      requires Valid() && TaskIs(world, t, Guarded)
      modifies `world
      ensures Valid() && isUpgrading && TaskIs(world, t, Running)
      ensures world == Apply(settings, old(world), BeginUpgrade(t))
    {
      OpenIsNewest(world, t);
      TakeStep(BeginUpgrade(t));
    }

    /** Puts the handle of the spawned task into the slot. */
    method StoreHandle(ghost h: nat, handle: nat)
      requires Valid() && Is(world, h, Spawned(handle)) && !world.phase.Draining?
      modifies this
      ensures Valid() && upgradeHandle == Some(handle)
      ensures world == Apply(settings, old(world), Store(h))
    {
      StepKeepsInv(settings, world, Store(h));
      world := Apply(settings, world, Store(h));
      upgradeHandle := Some(handle);
    }

    /** The flag check of the reboot handler. */
    method CheckNotUpgrading(ghost h: nat) returns (clear: bool)
      requires Valid() && settings.available && Is(world, h, RebootAsked)
      modifies this`world
      ensures Valid()
      ensures clear <==> !old(Busy(world))
      ensures clear <==> h in world.handlers && world.handlers[h].RebootCleared?
      ensures world == Apply(settings, old(world), CheckFlag(h))
    {
      BusyIffUpgrading(world);
      StepKeepsInv(settings, world, CheckFlag(h));
      world := Apply(settings, world, CheckFlag(h));
      clear := !isUpgrading;
    }

    /** Dropping the guard at the end of an upgrade task frees the flag. */
    method DropGuard(ghost t: nat, ghost how: Ending)
      requires Valid() && TaskIs(world, t, Running) && !how.Aborted?
      modifies this
      ensures Valid() && !isUpgrading && !Busy(world)
      ensures world == Apply(settings, old(world), EndUpgrade(t, how))
    {
      StepKeepsInv(settings, world, EndUpgrade(t, how));
      world := Apply(settings, world, EndUpgrade(t, how));
      isUpgrading := false;
      BusyIffUpgrading(world);
    }

    /** Shutdown takes the handle out of the slot. */
    method TakeHandle() returns (handle: Option<nat>)
      requires Valid() && world.phase.Serving?
      modifies this
      ensures Valid() && upgradeHandle == None
      ensures handle == old(upgradeHandle)
      ensures world == Apply(settings, old(world), Shutdown)
      ensures world.phase == if handle.Some? then Draining(handle.value) else Stopped
    {
      StepKeepsInv(settings, world, Shutdown);
      handle := upgradeHandle;
      world := Apply(settings, world, Shutdown);
      upgradeHandle := None;
    }
  }

  const DEFAULT_PORT := 4712

  /** Without a configured port the daemon takes the first free one from the
      default port on. */
  method HuntPort(free: int -> bool) returns (port: Option<int>)
    ensures port.Some? ==> DEFAULT_PORT <= port.value <= Address.MAX_PORT && free(port.value)
    ensures port.Some? ==> forall p | DEFAULT_PORT <= p < port.value :: !free(p)
    ensures port.None? ==> forall p | DEFAULT_PORT <= p <= Address.MAX_PORT :: !free(p)
  {
    var candidate := DEFAULT_PORT;
    while true
      invariant DEFAULT_PORT <= candidate <= Address.MAX_PORT
      invariant forall p | DEFAULT_PORT <= p < candidate :: !free(p)
      decreases Address.MAX_PORT - candidate
    {
      if free(candidate) {
        return Some(candidate);
      }
      if candidate == Address.MAX_PORT {
        return None;
      }
      candidate := candidate + 1;
    }
  }
}
