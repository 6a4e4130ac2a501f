/** Whole runs of the client: every command loads the configuration file, works
    on it in memory and perhaps saves it. */
module Commands {
  import opened Wrappers
  import opened Registry
  import opened Pins
  import Lookup
  import MergeStability
  import Sanitize
  import Sequences

  datatype ConfigData = ConfigData(active: string, profiles: map<string, Profile>, legacy: seq<Node>)

  /** The file on disk; None when there is none. */
  type File = Option<ConfigData>

  const DEFAULT_PROFILE := "default"

  function ProfileOf(c: ConfigData, name: string): Profile {
    if name in c.profiles then c.profiles[name] else []
  }

  function ActiveNodes(c: ConfigData): Profile {
    ProfileOf(c, c.active)
  }

  // ----- loading -----

  function CleanName(n: Node): Node {
    n.(name := if n.name.Some? then Some(Sanitize.SanitizeDisplay(n.name.value)) else None)
  }

  function CleanNames(nodes: Profile): Profile {
    seq(|nodes|, i requires 0 <= i < |nodes| => CleanName(nodes[i]))
  }

  function Migrated(c: ConfigData): ConfigData {
    if |c.legacy| == 0 then c
    else c.(profiles := c.profiles[DEFAULT_PROFILE := ProfileOf(c, DEFAULT_PROFILE) + c.legacy], legacy := [])
  }

  function Sanitized(c: ConfigData): ConfigData {
    c.(profiles := map p | p in c.profiles :: CleanNames(c.profiles[p]))
  }

  function WithActiveProfile(c: ConfigData): ConfigData {
    if c.active in c.profiles then c else c.(profiles := c.profiles[c.active := []])
  }

  function Load(file: File): ConfigData {
    match file
    case None => ConfigData(DEFAULT_PROFILE, map[DEFAULT_PROFILE := []], [])
    case Some(c) => WithActiveProfile(Sanitized(Migrated(c)))
  }

  predicate CleanNode(n: Node) {
    n.name.Some? ==> Sanitize.Clean(n.name.value)
  }

  /** What a loaded configuration always is. */
  ghost predicate Normal(c: ConfigData) {
    && c.legacy == []
    && c.active in c.profiles
    && forall p, i | p in c.profiles && 0 <= i < |c.profiles[p]| :: CleanNode(c.profiles[p][i])
  }

  lemma LoadedIsNormal(file: File)
    ensures Normal(Load(file))
  {
  }

  /** Loading what was saved changes nothing. */
  lemma LoadOfNormal(c: ConfigData)
    requires Normal(c)
    ensures Load(Some(c)) == c
  {
    forall p | p in c.profiles ensures CleanNames(c.profiles[p]) == c.profiles[p] {
      forall i | 0 <= i < |c.profiles[p]| ensures CleanNames(c.profiles[p])[i] == c.profiles[p][i] {
        assert CleanNode(c.profiles[p][i]);
      }
    }
    assert Sanitized(c).profiles == c.profiles;
  }

  /** Loading keeps every node in place, but for its sanitized name: the legacy
      list follows the old nodes of the default profile. */
  lemma LoadConservesNodes(c: ConfigData, p: string)
    ensures ProfileOf(Load(Some(c)), p) ==
            CleanNames(ProfileOf(c, p)) + if p == DEFAULT_PROFILE then CleanNames(c.legacy) else []
    ensures p in Load(Some(c)).profiles <==>
            p in c.profiles || p == c.active || (p == DEFAULT_PROFILE && |c.legacy| > 0)
    ensures Load(Some(c)).active == c.active
    ensures Load(Some(Load(Some(c)))) == Load(Some(c))
  {
    assert CleanNames(ProfileOf(c, p) + c.legacy) == CleanNames(ProfileOf(c, p)) + CleanNames(c.legacy);
    LoadOfNormal(Load(Some(c)));
  }

  /** Node by node: a loaded node differs from the one in the file only by the
      control characters of its name. */
  lemma LoadedNode(c: ConfigData, p: string, i: nat)
    requires i < |ProfileOf(c, p)|
    ensures i < |ProfileOf(Load(Some(c)), p)|
    ensures var n, after := ProfileOf(c, p)[i], ProfileOf(Load(Some(c)), p)[i];
            && after.address == n.address && after.fingerprint == n.fingerprint
            && after.name.Some? == n.name.Some?
            && (n.name.Some? ==> after.name.value == Sanitize.SanitizeDisplay(n.name.value))
  {
    LoadConservesNodes(c, p);
  }

  /** Without a file there is one profile, the default one, active and empty. */
  lemma LoadedFromNothing()
    ensures var c := Load(None);
            && c.active == "default" && c.profiles.Keys == {"default"} && ActiveNodes(c) == [] && c.legacy == []
  {
  }

  // ----- commands -----

  datatype Command =
    | Discover(found: seq<Found>)
    | Version(answers: seq<Answer>)
    | Status(all: bool, targets: seq<string>, answers: seq<Answer>)
    | NodeAction(requests: seq<string>, answers: seq<Answer>)
    | Repin(name: string, answer: Answer)
    | UseProfile(profile: string)
    | CreateProfile(profile: string)
    | DeleteProfile(profile: string)

  /** A command in memory: the configuration it leaves, whether it asks for a
      save, and whether it succeeds if that save does. */
  datatype Outcome = Outcome(memory: ConfigData, save: bool, ok: bool)

  function WithNodes(c: ConfigData, nodes: Profile): ConfigData {
    c.(profiles := c.profiles[c.active := nodes])
  }

  /** Discovered identifiers are cleaned before they are merged. */
  function CleanFound(found: seq<Found>): (r: seq<Found>)
    ensures |r| == |found|
    ensures forall i | 0 <= i < |r| :: Sanitize.Clean(r[i].id)
  {
    seq(|found|, i requires 0 <= i < |found| => Found(found[i].address, Sanitize.EntryId(found[i].id)))
  }

  function FirstCalled(nodes: Profile, text: string): (r: Option<nat>)
    ensures r.Some? ==> r.value < |nodes| && (nodes[r.value].name == Some(text) || nodes[r.value].address == text)
    ensures r.Some? ==> forall j | 0 <= j < r.value :: nodes[j].name != Some(text) && nodes[j].address != text
    ensures r.None? ==> forall j | 0 <= j < |nodes| :: nodes[j].name != Some(text) && nodes[j].address != text
  {
    Sequences.Position(nodes, (n: Node) => n.name == Some(text) || n.address == text)
  }

  function StatusAddress(nodes: Profile, target: string): string {
    match FirstCalled(nodes, target) case Some(i) => nodes[i].address case None => target
  }

  function ExplicitAddresses(nodes: Profile, targets: seq<string>): (r: set<string>)
    ensures forall a :: a in r <==> exists t :: t in targets && StatusAddress(nodes, t) == a
  {
    set t | t in targets :: StatusAddress(nodes, t)
  }

  /** The addresses `status` starts with. */
  function StatusTargets(nodes: Profile, all: bool, targets: seq<string>): set<string> {
    var explicit := ExplicitAddresses(nodes, targets);
    if explicit == {} && !all then set n | n in nodes :: n.address else explicit
  }

  function AtAddresses(nodes: Profile, addresses: set<string>): (r: seq<Node>)
    ensures forall n :: n in r <==> n in nodes && n.address in addresses
    ensures forall n :: multiset(r)[n] == if n.address in addresses then multiset(nodes)[n] else 0
  {
    if |nodes| == 0 then []
    else
      assert nodes == [nodes[0]] + nodes[1..];
      var rest := AtAddresses(nodes[1..], addresses);
      if nodes[0].address in addresses then [nodes[0]] + rest else rest
  }

  /** Taken piece by piece, so the nodes keep their order. */
  lemma {:induction false} AtAddressesConcat(a: Profile, b: Profile, addresses: set<string>)
    ensures AtAddresses(a + b, addresses) == AtAddresses(a, addresses) + AtAddresses(b, addresses)
  {
    if |a| == 0 {
      assert a + b == b;
    } else {
      assert (a + b)[1..] == a[1..] + b;
      AtAddressesConcat(a[1..], b, addresses);
    }
  }

  /** The snapshot of nodes whose pins a command checks. */
  function PinList(c: ConfigData, cmd: Command): seq<Node> {
    var nodes := ActiveNodes(c);
    match cmd
    case Version(_) => nodes
    case Status(all, targets, _) =>
      var initial := StatusTargets(nodes, all, targets);
      if initial == {} then if all then [] else nodes else AtAddresses(nodes, initial)
    case NodeAction(requests, _) =>
      (match Lookup.Resolve(nodes, requests) case Ok(list) => list case Err(_) => [])
    case _ => []
  }

  function AnswersOf(cmd: Command): seq<Answer> {
    match cmd
    case Version(answers) => answers
    case Status(_, _, answers) => answers
    case NodeAction(_, answers) => answers
    case _ => []
  }

  function Checked(c: ConfigData, list: seq<Node>, answers: seq<Answer>): ConfigData {
    if c.active in c.profiles then WithNodes(c, Validate(ActiveNodes(c), list, answers)) else c
  }

  function RepinAddress(c: ConfigData, name: string): Option<string> {
    match FirstCalled(ActiveNodes(c), name)
    case Some(i) => Some(ActiveNodes(c)[i].address)
    case None => None
  }

  /** Re-pinning clears the pin, asks the daemon, and stores what it shows. */
  function Repinned(c: ConfigData, name: string, answer: Answer): Outcome {
    match RepinAddress(c, name)
    case None => Outcome(c, false, false)
    case Some(address) =>
      var cleared := WithPin(WithPin(ActiveNodes(c), address, Some("")), address, None);
      match answer
      case Ok(fp) => Outcome(WithNodes(c, WithPin(cleared, address, Some(fp))), true, true)
      case Err(_) => Outcome(WithNodes(c, cleared), false, false)
  }

  function Run(c: ConfigData, cmd: Command): Outcome {
    match cmd
    case Discover(found) =>
      var clean := CleanFound(found);
      Outcome(WithNodes(c, MergeAll(ActiveNodes(c), clean)), Updated(ActiveNodes(c), clean), true)
    case Repin(name, answer) => Repinned(c, name, answer)
    case UseProfile(p) =>
      if p in c.profiles then Outcome(c.(active := p), true, true) else Outcome(c, false, false)
    case CreateProfile(p) =>
      if p in c.profiles then Outcome(c, false, false)
      else Outcome(c.(profiles := c.profiles[p := []]), true, true)
    case DeleteProfile(p) =>
      if p == DEFAULT_PROFILE || p == c.active || p !in c.profiles then Outcome(c, false, false)
      else Outcome(c.(profiles := c.profiles - {p}), true, true)
    case _ =>
      var list, answers := PinList(c, cmd), AnswersOf(cmd);
      Outcome(Checked(c, list, answers), Learns(list, answers),
              !cmd.NodeAction? || Lookup.Resolve(ActiveNodes(c), cmd.requests).Ok?)
  }

  /** A command on the file: it changes only when the command asks for a save
      and the save goes through. */
  function Exec(file: File, cmd: Command, saveOk: bool): File {
    var outcome := Run(Load(file), cmd);
    if outcome.save && saveOk then Some(outcome.memory) else file
  }

  datatype Invocation = Invocation(cmd: Command, saveOk: bool)

  function ExecAll(file: File, run: seq<Invocation>): File {
    if |run| == 0 then file
    else
      var last := run[|run| - 1];
      Exec(ExecAll(file, run[..|run| - 1]), last.cmd, last.saveOk)
  }

  /** A run goes on from the file its first part left. */
  lemma {:induction false} ExecAllConcat(file: File, first: seq<Invocation>, second: seq<Invocation>)
    ensures ExecAll(file, first + second) == ExecAll(ExecAll(file, first), second)
  {
    if |second| == 0 {
      assert first + second == first;
    } else {
      var n := |second| - 1;
      assert (first + second)[..|first| + n] == first + second[..n];
      ExecAllConcat(file, first, second[..n]);
    }
  }

  lemma ExecAllOne(file: File, cmd: Command, saveOk: bool)
    ensures ExecAll(file, [Invocation(cmd, saveOk)]) == Exec(file, cmd, saveOk)
  {
    assert [Invocation(cmd, saveOk)][..0] == [];
  }

  // ----- the active profile and the names -----

  lemma {:induction false} MergeKeepsClean(nodes: Profile, found: seq<Found>)
    requires forall i | 0 <= i < |nodes| :: CleanNode(nodes[i])
    requires forall i | 0 <= i < |found| :: Sanitize.Clean(found[i].id)
    ensures forall i | 0 <= i < |MergeAll(nodes, found)| :: CleanNode(MergeAll(nodes, found)[i])
  {
    if |found| > 0 {
      MergeKeepsClean(nodes, found[..|found| - 1]);
    }
  }

  lemma WithNodesIsNormal(c: ConfigData, nodes: Profile)
    requires Normal(c)
    requires forall i | 0 <= i < |nodes| :: CleanNode(nodes[i])
    ensures Normal(WithNodes(c, nodes))
  {
  }

  lemma SameNodes(c: ConfigData)
    requires Normal(c)
    ensures WithNodes(c, ActiveNodes(c)) == c
  {
  }

  lemma ActiveIsClean(c: ConfigData)
    requires Normal(c)
    ensures forall i | 0 <= i < |ActiveNodes(c)| :: CleanNode(ActiveNodes(c)[i])
  {
  }

  lemma CheckedIsNormal(c: ConfigData, list: seq<Node>, answers: seq<Answer>)
    requires Normal(c)
    ensures Normal(Checked(c, list, answers))
    ensures !Learns(list, answers) ==> Checked(c, list, answers) == c
  {
    var nodes := ActiveNodes(c);
    ValidatePointwise(nodes, list, answers);
    ActiveIsClean(c);
    WithNodesIsNormal(c, Validate(nodes, list, answers));
    SameNodes(c);
  }

  lemma DiscoverIsNormal(c: ConfigData, found: seq<Found>)
    requires Normal(c)
    ensures Normal(WithNodes(c, MergeAll(ActiveNodes(c), CleanFound(found))))
    ensures !Updated(ActiveNodes(c), CleanFound(found)) ==>
              WithNodes(c, MergeAll(ActiveNodes(c), CleanFound(found))) == c
  {
    var nodes, clean := ActiveNodes(c), CleanFound(found);
    ActiveIsClean(c);
    MergeKeepsClean(nodes, clean);
    WithNodesIsNormal(c, MergeAll(nodes, clean));
    MergeFrame(nodes, clean);
    SameNodes(c);
  }

  lemma RepinnedIsNormal(c: ConfigData, name: string, answer: Answer)
    requires Normal(c)
    ensures Normal(Repinned(c, name, answer).memory)
    ensures c.profiles.Keys == Repinned(c, name, answer).memory.profiles.Keys
  {
  }

  lemma RunKeepsNormal(c: ConfigData, cmd: Command)
    requires Normal(c)
    ensures Normal(Run(c, cmd).memory)
    ensures DEFAULT_PROFILE in c.profiles ==> DEFAULT_PROFILE in Run(c, cmd).memory.profiles
    ensures !Run(c, cmd).save && !cmd.Repin? ==> Run(c, cmd).memory == c
  {
    match cmd {
      case Discover(found) => DiscoverIsNormal(c, found);
      case Repin(name, answer) => RepinnedIsNormal(c, name, answer);
      case UseProfile(_) =>
      case CreateProfile(_) =>
      case DeleteProfile(_) =>
      case _ => CheckedIsNormal(c, PinList(c, cmd), AnswersOf(cmd));
    }
  }

  /** In every run, whatever saves fail: the active profile is there, names are
      free of control characters, the default profile once present stays, and
      the file is either untouched or one that loads as it was saved. */
  lemma {:induction false} RunsStayNormal(file: File, run: seq<Invocation>)
    ensures ExecAll(file, run) == file || (ExecAll(file, run).Some? && Normal(ExecAll(file, run).value))
    ensures Normal(Load(ExecAll(file, run)))
    ensures DEFAULT_PROFILE in Load(file).profiles ==> DEFAULT_PROFILE in Load(ExecAll(file, run)).profiles
  {
    LoadedIsNormal(ExecAll(file, run));
    if |run| > 0 {
      var before := ExecAll(file, run[..|run| - 1]);
      RunsStayNormal(file, run[..|run| - 1]);
      RunKeepsNormal(Load(before), run[|run| - 1].cmd);
      if ExecAll(file, run) != before {
        LoadOfNormal(ExecAll(file, run).value);
      }
    }
  }

  // ----- what commands do -----

  /** A save that goes through leaves in the file what the command left in memory,
      a failed re-pin excepted, which saves nothing; without it the file stays. */
  lemma {:induction false} SavedAsInMemory(file: File, cmd: Command)
    requires cmd.Repin? ==> Run(Load(file), cmd).save
    ensures Load(Exec(file, cmd, true)) == Run(Load(file), cmd).memory
    ensures Exec(file, cmd, false) == file
  {
    LoadedIsNormal(file);
    RunKeepsNormal(Load(file), cmd);
    LoadOfNormal(Run(Load(file), cmd).memory);
  }

  /** Only deleting removes a profile and only creating adds one; profiles other
      than the active one keep their nodes, and only switching changes which one
      is active. */
  lemma ProfilesStay(c: ConfigData, cmd: Command, p: string)
    requires c.active in c.profiles
    ensures var after := Run(c, cmd).memory;
            && after.legacy == c.legacy
            && (!cmd.UseProfile? ==> after.active == c.active)
            && (p in c.profiles && cmd != DeleteProfile(p) ==> p in after.profiles)
            && (p in after.profiles && cmd != CreateProfile(p) ==> p in c.profiles)
            && (p in c.profiles && p in after.profiles && (p != c.active || cmd.UseProfile?) ==>
                  after.profiles[p] == c.profiles[p])
  {
  }

  /** Switching needs a profile that is there, creating one that is not, deleting
      one that is there and neither the default nor the active one; then they do
      just that and save, and else they change and save nothing. */
  lemma ProfileCommandsDo(c: ConfigData, p: string)
    requires c.active in c.profiles
    ensures var r := Run(c, UseProfile(p));
            && (r.ok <==> p in c.profiles) && r.save == r.ok
            && r.memory.active == (if p in c.profiles then p else c.active) && r.memory.profiles == c.profiles
    ensures var r := Run(c, CreateProfile(p));
            && (r.ok <==> p !in c.profiles) && r.save == r.ok
            && r.memory.profiles.Keys == c.profiles.Keys + {p}
            && (p !in c.profiles ==> r.memory.profiles[p] == [])
    ensures var r := Run(c, DeleteProfile(p));
            && (r.ok <==> p in c.profiles && p != c.active && p != "default") && r.save == r.ok
            && r.memory.profiles.Keys == (if r.ok then c.profiles.Keys - {p} else c.profiles.Keys)
  {
  }

  /** The node a name stands for in `status` and `--repin`: the first with that
      name or address. */
  ghost predicate Calls(nodes: Profile, text: string, i: nat) {
    && i < |nodes| && (nodes[i].name == Some(text) || nodes[i].address == text)
    && forall j | 0 <= j < i :: nodes[j].name != Some(text) && nodes[j].address != text
  }

  /** Which commands succeed, if the save they ask for does: re-pinning needs a
      node of that name and an answer, an action on nodes needs all its names. */
  lemma WhichSucceed(c: ConfigData, cmd: Command)
    ensures cmd.Discover? || cmd.Version? || cmd.Status? ==> Run(c, cmd).ok
    ensures cmd.NodeAction? ==>
              (Run(c, cmd).ok <==>
               forall k | 0 <= k < |cmd.requests| :: Lookup.IsListed(ActiveNodes(c), cmd.requests[k]))
    ensures cmd.Repin? ==>
              (Run(c, cmd).ok <==> cmd.answer.Ok? && exists i: nat :: Calls(ActiveNodes(c), cmd.name, i))
    ensures cmd.Repin? ==> Run(c, cmd).save == Run(c, cmd).ok
  {
    if cmd.NodeAction? {
      Lookup.ResolveAnswers(ActiveNodes(c), cmd.requests);
    }
    if cmd.Repin? {
      var called := FirstCalled(ActiveNodes(c), cmd.name);
      assert called.Some? ==> Calls(ActiveNodes(c), cmd.name, called.value);
    }
  }

  /** Discovering merges the found daemons, their identifiers stripped of one
      leading "id=" and then of control characters, into the active profile, and
      saves exactly if that changed a node on the way. */
  lemma DiscoverMerges(c: ConfigData, found: seq<Found>, clean: seq<Found>)
    requires c.active in c.profiles
    requires |clean| == |found| && forall i | 0 <= i < |found| ::
               && clean[i].address == found[i].address
               && clean[i].id ==
                  Sanitize.SanitizeDisplay(if "id=" <= found[i].id then found[i].id[3..] else found[i].id)
    ensures ActiveNodes(Run(c, Discover(found)).memory) == MergeAll(c.profiles[c.active], clean)
    ensures Run(c, Discover(found)).save <==> exists k: nat :: ChangesAt(c.profiles[c.active], clean, k)
  {
    assert CleanFound(found) == clean;
    UpdatedIff(c.profiles[c.active], clean);
  }

  /** Step k of a merge changes the profile. */
  ghost predicate ChangesAt(nodes: Profile, found: seq<Found>, k: nat) {
    k < |found| && MergeAll(nodes, found[..k + 1]) != MergeAll(nodes, found[..k])
  }

  lemma {:induction false} UpdatedIff(nodes: Profile, found: seq<Found>)
    ensures Updated(nodes, found) <==> exists k: nat :: ChangesAt(nodes, found, k)
  {
    if |found| > 0 {
      var n := |found| - 1;
      UpdatedIff(nodes, found[..n]);
      assert found[..n + 1] == found;
      assert ChangesAt(nodes, found, n) <==> MergeAll(nodes, found) != MergeAll(nodes, found[..n]);
      forall k: nat | k < n ensures ChangesAt(nodes, found[..n], k) == ChangesAt(nodes, found, k) {
        assert found[..n][..k + 1] == found[..k + 1] && found[..n][..k] == found[..k];
      }
    }
  }

  /** Which nodes have their pins checked: all of them for `version` and for an
      action without names, in order; for one with names the nodes shown under
      them, or none if some name is unknown. */
  lemma PinListMeans(c: ConfigData, requests: seq<string>, answers: seq<Answer>)
    ensures PinList(c, Version(answers)) == ActiveNodes(c)
    ensures PinList(c, NodeAction([], answers)) == ActiveNodes(c)
    ensures var list, nodes := PinList(c, NodeAction(requests, answers)), ActiveNodes(c);
            if exists k | 0 <= k < |requests| :: !Lookup.IsListed(nodes, requests[k]) then list == []
            else |requests| > 0 ==>
              && |list| == |requests|
              && forall k | 0 <= k < |requests| ::
                   && Lookup.FirstAnswering(nodes, requests[k]).Some?
                   && list[k] == nodes[Lookup.FirstAnswering(nodes, requests[k]).value]
  {
    Lookup.ResolveAnswers(ActiveNodes(c), requests);
  }

  /** In the order of the profile, each as often as it is there. */
  lemma StatusListKeepsOrder(c: ConfigData, all: bool, targets: seq<string>, answers: seq<Answer>)
    ensures PinList(c, Status(all, targets, answers)) ==
            AtAddresses(ActiveNodes(c), StatusTargets(ActiveNodes(c), all, targets))
  {
    var nodes := ActiveNodes(c);
    var initial := StatusTargets(nodes, all, targets);
    if |targets| > 0 {
      assert targets[0] in targets && StatusAddress(nodes, targets[0]) in ExplicitAddresses(nodes, targets);
    } else {
      assert ExplicitAddresses(nodes, targets) == {};
      if all {
        NoAddressesNoNodes(nodes);
      } else if |nodes| > 0 {
        assert nodes[0].address in initial;
      }
    }
  }

  lemma {:induction false} NoAddressesNoNodes(nodes: Profile)
    ensures AtAddresses(nodes, {}) == []
  {
    if |nodes| > 0 {
      NoAddressesNoNodes(nodes[1..]);
    }
  }

  /** Check k is the last that was shown a fingerprint for the address. */
  ghost predicate ShowsLast(list: seq<Node>, answers: seq<Answer>, address: string, k: nat) {
    Shows(list, answers, address, k) && forall j | k < j < |list| :: !Shows(list, answers, address, j)
  }

  /** Node i after a round of checks: the first node at an address has the
      fingerprint that the last unpinned node checked there was shown, if any
      was; every other node is as it was. */
  ghost predicate StoredAsShown(nodes: Profile, list: seq<Node>, answers: seq<Answer>, i: nat, after: Node)
    requires i < |nodes|
  {
    if exists j | 0 <= j < i :: nodes[j].address == nodes[i].address then after == nodes[i]
    else
      && (forall k: nat | ShowsLast(list, answers, nodes[i].address, k) ::
            after == nodes[i].(fingerprint := Some(answers[k].value)))
      && ((forall k: nat :: !Shows(list, answers, nodes[i].address, k)) ==> after == nodes[i])
  }

  lemma TaughtAsShown(nodes: Profile, list: seq<Node>, answers: seq<Answer>, i: nat, learned: Option<string>)
    requires i < |nodes|
    requires learned.None? <==> forall k: nat :: !Shows(list, answers, nodes[i].address, k)
    requires forall k: nat | ShowsLast(list, answers, nodes[i].address, k) :: learned == Some(answers[k].value)
    ensures StoredAsShown(nodes, list, answers, i, Taught(nodes, i, learned))
  {
  }

  lemma ValidateStores(nodes: Profile, list: seq<Node>, answers: seq<Answer>, i: nat)
    requires i < |nodes|
    ensures StoredAsShown(nodes, list, answers, i, Validate(nodes, list, answers)[i])
  {
    ValidatePointwise(nodes, list, answers);
    var learned := LastLearned(list, answers, nodes[i].address);
    LastLearnedMeans(list, answers, nodes[i].address);
    forall k: nat | ShowsLast(list, answers, nodes[i].address, k) ensures learned == Some(answers[k].value) {
      LastShownIsLearned(list, answers, nodes[i].address, k);
    }
    TaughtAsShown(nodes, list, answers, i, learned);
  }

  lemma LearnsIffSomeShown(list: seq<Node>, answers: seq<Answer>)
    ensures Learns(list, answers) <==> exists k | 0 <= k < |list| :: Shows(list, answers, list[k].address, k)
  {
    forall k: nat | k < |list| ensures LearnsAt(list, answers, k) <==> Shows(list, answers, list[k].address, k) {
      LearnsIffShows(list, answers, k);
    }
  }

  /** Trust on first use: `version`, `status` and actions on nodes store in the
      active profile what the checks were shown, and ask for a save exactly if
      there was something. */
  lemma LearnedIsStored(c: ConfigData, cmd: Command, i: nat)
    requires c.active in c.profiles && (cmd.Version? || cmd.Status? || cmd.NodeAction?)
    requires i < |ActiveNodes(c)|
    ensures |ActiveNodes(Run(c, cmd).memory)| == |ActiveNodes(c)|
    ensures StoredAsShown(ActiveNodes(c), PinList(c, cmd), cmd.answers, i, ActiveNodes(Run(c, cmd).memory)[i])
    ensures Run(c, cmd).save <==>
            exists k | 0 <= k < |PinList(c, cmd)| :: Shows(PinList(c, cmd), cmd.answers, PinList(c, cmd)[k].address, k)
  {
    ValidateStores(ActiveNodes(c), PinList(c, cmd), cmd.answers, i);
    LearnsIffSomeShown(PinList(c, cmd), cmd.answers);
  }

  /** And so does the file, if the save goes through. */
  lemma LearnedIsSaved(file: File, cmd: Command, i: nat)
    requires cmd.Version? || cmd.Status? || cmd.NodeAction?
    requires i < |ActiveNodes(Load(file))|
    ensures var c, after := Load(file), ActiveNodes(Load(Exec(file, cmd, true)));
            |after| == |ActiveNodes(c)| && StoredAsShown(ActiveNodes(c), PinList(c, cmd), cmd.answers, i, after[i])
  {
    LoadedIsNormal(file);
    SavedAsInMemory(file, cmd);
    LearnedIsStored(Load(file), cmd, i);
  }

  lemma LastShownIsLearned(list: seq<Node>, answers: seq<Answer>, address: string, k: nat)
    requires ShowsLast(list, answers, address, k)
    ensures LastLearned(list, answers, address) == Some(answers[k].value)
  {
    LastLearnedMeans(list, answers, address);
    var j :| 0 <= j < |list| && Shows(list, answers, address, j)
             && (forall i | j < i < |list| :: !Shows(list, answers, address, i))
             && LastLearned(list, answers, address) == Some(answers[j].value);
    assert j == k;
  }

  // ----- where pins come from -----

  type Pair = (string, string)

  /** The (address, fingerprint) pairs a command learned from the daemons. */
  function Observed(c: ConfigData, cmd: Command): set<Pair> {
    var list, answers := PinList(c, cmd), AnswersOf(cmd);
    var checks := set k | 0 <= k < |list| && LearnsAt(list, answers, k) ::
                    (list[k].address, AnswerAt(answers, k).value);
    if cmd.Repin? && cmd.answer.Ok? && RepinAddress(c, cmd.name).Some?
    then {(RepinAddress(c, cmd.name).value, cmd.answer.value)} else checks
  }

  /** What counts as learned was shown by a daemon that was asked at that address. */
  lemma ObservedWasShown(c: ConfigData, cmd: Command, pair: Pair)
    requires pair in Observed(c, cmd)
    ensures if cmd.Repin? then
              cmd.answer == Ok(pair.1)
              && exists i: nat :: Calls(ActiveNodes(c), cmd.name, i) && ActiveNodes(c)[i].address == pair.0
            else
              && (cmd.Version? || cmd.Status? || cmd.NodeAction?)
              && exists k | 0 <= k < |PinList(c, cmd)| ::
                   Shows(PinList(c, cmd), cmd.answers, pair.0, k) && cmd.answers[k] == Ok(pair.1)
  {
    if cmd.Repin? {
      var called := FirstCalled(ActiveNodes(c), cmd.name);
      if called.Some? {
        assert Calls(ActiveNodes(c), cmd.name, called.value);
      }
    } else {
      var list, answers := PinList(c, cmd), AnswersOf(cmd);
      var k :| 0 <= k < |list| && LearnsAt(list, answers, k) && pair == (list[k].address, AnswerAt(answers, k).value);
      LearnsIffShows(list, answers, k);
    }
  }

  function ObservedIn(file: File, run: seq<Invocation>): set<Pair> {
    if |run| == 0 then {}
    else
      var shorter := run[..|run| - 1];
      ObservedIn(file, shorter) + Observed(Load(ExecAll(file, shorter)), run[|run| - 1].cmd)
  }

  ghost predicate NodesFrom(nodes: seq<Node>, pairs: set<Pair>) {
    forall i | 0 <= i < |nodes| && nodes[i].fingerprint.Some? :: (nodes[i].address, nodes[i].fingerprint.value) in pairs
  }

  ghost predicate PinsFrom(c: ConfigData, pairs: set<Pair>) {
    && (forall p | p in c.profiles :: NodesFrom(c.profiles[p], pairs))
    && NodesFrom(c.legacy, pairs)
  }

  function NodePairs(nodes: seq<Node>): set<Pair> {
    set i | 0 <= i < |nodes| && nodes[i].fingerprint.Some? :: (nodes[i].address, nodes[i].fingerprint.value)
  }

  /** The pairs stored in the file. */
  function StoredPairs(file: File): set<Pair> {
    if file.None? then {}
    else
      var c := file.value;
      (set p, pair | p in c.profiles && pair in NodePairs(c.profiles[p]) :: pair) + NodePairs(c.legacy)
  }

  lemma {:induction false} MergePins(nodes: Profile, found: seq<Found>, pairs: set<Pair>)
    requires NodesFrom(nodes, pairs)
    ensures NodesFrom(MergeAll(nodes, found), pairs)
  {
    MergeFrame(nodes, found);
  }

  lemma {:induction false} LearnedWasObserved(list: seq<Node>, answers: seq<Answer>, address: string)
    requires LastLearned(list, answers, address).Some?
    ensures exists k | 0 <= k < |list| ::
              list[k].address == address && LearnsAt(list, answers, k)
              && LastLearned(list, answers, address) == Some(AnswerAt(answers, k).value)
  {
    var k := |list| - 1;
    if !(list[k].address == address && LearnsAt(list, answers, k)) {
      LearnedWasObserved(list[..k], answers, address);
      var j :| 0 <= j < k && list[..k][j].address == address && LearnsAt(list[..k], answers, j)
               && LastLearned(list[..k], answers, address) == Some(AnswerAt(answers, j).value);
      assert list[j].address == address && LearnsAt(list, answers, j);
    } else {
      assert list[k].address == address && LearnsAt(list, answers, k);
    }
  }

  lemma CheckedPins(c: ConfigData, cmd: Command, pairs: set<Pair>)
    requires NodesFrom(ActiveNodes(c), pairs)
    requires cmd.Version? || cmd.Status? || cmd.NodeAction?
    ensures NodesFrom(Validate(ActiveNodes(c), PinList(c, cmd), AnswersOf(cmd)), pairs + Observed(c, cmd))
  {
    var nodes, list, answers := ActiveNodes(c), PinList(c, cmd), AnswersOf(cmd);
    ValidatePointwise(nodes, list, answers);
    var after := Validate(nodes, list, answers);
    forall i | 0 <= i < |after| && after[i].fingerprint.Some?
      ensures (after[i].address, after[i].fingerprint.value) in pairs + Observed(c, cmd)
    {
      if after[i] != nodes[i] {
        LearnedWasObserved(list, answers, nodes[i].address);
      }
    }
  }

  lemma RepinnedPins(c: ConfigData, name: string, answer: Answer, pairs: set<Pair>)
    requires Normal(c) && PinsFrom(c, pairs)
    ensures PinsFrom(Repinned(c, name, answer).memory, pairs + Observed(c, Repin(name, answer)))
  {
    var all := pairs + Observed(c, Repin(name, answer));
    assert forall p | p in c.profiles :: NodesFrom(c.profiles[p], all);
    if RepinAddress(c, name).Some? {
      RepinnedIsOneWrite(c, name, answer);
      assert NodesFrom(ActiveNodes(c), pairs);
    }
  }

  /** One command, successful or not, leaves in memory only pins that were
      there with their address or that it observed at their address. */
  lemma {:induction false} RunPins(c: ConfigData, cmd: Command, pairs: set<Pair>)
    requires Normal(c) && PinsFrom(c, pairs)
    ensures PinsFrom(Run(c, cmd).memory, pairs + Observed(c, cmd))
  {
    var nodes := ActiveNodes(c);
    assert NodesFrom(nodes, pairs);
    var all := pairs + Observed(c, cmd);
    assert forall p | p in c.profiles :: NodesFrom(c.profiles[p], all);
    match cmd {
      case Discover(found) => MergePins(nodes, CleanFound(found), all);
      case Repin(name, answer) => RepinnedPins(c, name, answer, pairs);
      case UseProfile(_) =>
      case CreateProfile(_) =>
      case DeleteProfile(_) =>
      case _ => CheckedPins(c, cmd, pairs);
    }
  }

  lemma LoadPins(file: File, pairs: set<Pair>)
    requires file.Some? ==> PinsFrom(file.value, pairs)
    ensures PinsFrom(Load(file), pairs)
  {
  }

  /** Pin provenance: after any run, with any failures, a stored fingerprint was
      in the first file with its address or was shown by a daemon contacted at
      exactly the address it is stored with. */
  lemma {:induction false} PinProvenance(file: File, run: seq<Invocation>)
    ensures StoredPairs(ExecAll(file, run)) <= StoredPairs(file) + ObservedIn(file, run)
  {
    PinsTraceable(file, run);
    var last := ExecAll(file, run);
    if last.Some? {
      forall pair | pair in StoredPairs(last) ensures pair in StoredPairs(file) + ObservedIn(file, run) {
        if pair !in NodePairs(last.value.legacy) {
          var p :| p in last.value.profiles && pair in NodePairs(last.value.profiles[p]);
          assert NodesFrom(last.value.profiles[p], StoredPairs(file) + ObservedIn(file, run));
        }
      }
    }
  }

  lemma {:induction false} PinsTraceable(file: File, run: seq<Invocation>)
    ensures ExecAll(file, run).Some? ==>
              PinsFrom(ExecAll(file, run).value, StoredPairs(file) + ObservedIn(file, run))
  {
    if |run| == 0 {
      if file.Some? {
        forall p | p in file.value.profiles ensures NodesFrom(file.value.profiles[p], StoredPairs(file)) {
          var nodes := file.value.profiles[p];
          assert NodePairs(nodes) <= StoredPairs(file);
          forall i | 0 <= i < |nodes| && nodes[i].fingerprint.Some?
            ensures (nodes[i].address, nodes[i].fingerprint.value) in NodePairs(nodes)
          {
          }
        }
        assert StoredPairs(file) + {} == StoredPairs(file);
      }
    } else {
      var shorter, last := run[..|run| - 1], run[|run| - 1];
      PinsTraceable(file, shorter);
      var before := ExecAll(file, shorter);
      var known := StoredPairs(file) + ObservedIn(file, shorter);
      LoadPins(before, known);
      LoadedIsNormal(before);
      RunPins(Load(before), last.cmd, known);
      assert StoredPairs(file) + ObservedIn(file, run) == known + Observed(Load(before), last.cmd);
      PinsFromMore(before, known, Observed(Load(before), last.cmd));
    }
  }

  lemma PinsFromMore(file: File, pairs: set<Pair>, more: set<Pair>)
    requires file.Some? ==> PinsFrom(file.value, pairs)
    ensures file.Some? ==> PinsFrom(file.value, pairs + more)
  {
  }

  // ----- how pins get lost -----

  ghost predicate PinKept(c: ConfigData, after: ConfigData, p: string, i: nat)
    requires p in c.profiles && i < |c.profiles[p]|
  {
    && p in after.profiles && i < |after.profiles[p]|
    && after.profiles[p][i].fingerprint == c.profiles[p][i].fingerprint
    && after.profiles[p][i].address == c.profiles[p][i].address
  }

  /** The node a re-pin is about. */
  predicate RepinnedAt(c: ConfigData, cmd: Command, i: nat) {
    cmd.Repin? && RepinAddress(c, cmd.name).Some?
    && FirstAt(ActiveNodes(c), RepinAddress(c, cmd.name).value) == Some(i)
  }

  /** However often it writes, a re-pin comes to one write to one node. */
  lemma RepinnedIsOneWrite(c: ConfigData, name: string, answer: Answer)
    requires RepinAddress(c, name).Some?
    ensures Repinned(c, name, answer).memory ==
            WithNodes(c, WithPin(ActiveNodes(c), RepinAddress(c, name).value,
                                 if answer.Ok? then Some(answer.value) else None))
  {
    var nodes, address := ActiveNodes(c), RepinAddress(c, name).value;
    WithPinTwice(nodes, address, Some(""), None);
    if answer.Ok? {
      WithPinTwice(nodes, address, None, Some(answer.value));
    }
  }

  /** The direct ways to drop or replace the pin of node i of profile p:
      re-pinning that node, moving it in a merge, or deleting its profile. */
  ghost predicate Drops(c: ConfigData, cmd: Command, p: string, i: nat) {
    || (p == c.active && RepinnedAt(c, cmd, i))
    || (p == c.active && cmd.Discover? && i < |ActiveNodes(c)| && MovedAt(ActiveNodes(c), CleanFound(cmd.found), i))
    || (cmd.DeleteProfile? && p == cmd.profile && p != c.active && p != DEFAULT_PROFILE)
  }

  /** There is one more: checking a node without pin at the address of a pinned
      one before it. */
  ghost predicate Endangers(c: ConfigData, cmd: Command, p: string, i: nat) {
    Drops(c, cmd, p, i) || (p == c.active && Shadowed(ActiveNodes(c), PinList(c, cmd)))
  }

  lemma PinsLostOnlyBy(c: ConfigData, cmd: Command, p: string, i: nat)
    requires Normal(c)
    requires p in c.profiles && i < |c.profiles[p]| && c.profiles[p][i].fingerprint.Some?
    requires !Endangers(c, cmd, p, i)
    ensures PinKept(c, Run(c, cmd).memory, p, i)
  {
    var nodes := ActiveNodes(c);
    match cmd {
      case Discover(found) =>
        if p == c.active {
          MergeFrame(nodes, CleanFound(found));
          PinLostIffMoved(nodes, CleanFound(found), i);
        }
      case Repin(name, answer) =>
        if RepinAddress(c, name).Some? {
          RepinnedIsOneWrite(c, name, answer);
        }
      case UseProfile(_) =>
      case CreateProfile(_) =>
      case DeleteProfile(_) =>
      case _ =>
        if p == c.active && !Shadowed(nodes, PinList(c, cmd)) {
          UnshadowedKeepsPins(nodes, PinList(c, cmd), AnswersOf(cmd));
        }
    }
  }

  /** Over any run, whatever the daemons answer and whichever saves fail, a pin
      stays with its node and address unless some command endangers it. */
  lemma {:induction false} PinSurvivesRun(file: File, run: seq<Invocation>, p: string, i: nat)
    requires p in Load(file).profiles && i < |Load(file).profiles[p]|
    requires Load(file).profiles[p][i].fingerprint.Some?
    requires forall k | 0 <= k < |run| :: !Endangers(Load(ExecAll(file, run[..k])), run[k].cmd, p, i)
    ensures PinKept(Load(file), Load(ExecAll(file, run)), p, i)
  {
    if |run| > 0 {
      var shorter, last := run[..|run| - 1], run[|run| - 1];
      assert forall k | 0 <= k < |shorter| :: shorter[..k] == run[..k] && shorter[k] == run[k];
      PinSurvivesRun(file, shorter, p, i);
      var before := ExecAll(file, shorter);
      LoadedIsNormal(before);
      PinsLostOnlyBy(Load(before), last.cmd, p, i);
      RunKeepsNormal(Load(before), last.cmd);
      LoadOfNormal(Run(Load(before), last.cmd).memory);
    }
  }

  ghost predicate DistinctAddresses(nodes: Profile) {
    forall i, j | 0 <= i < j < |nodes| :: nodes[i].address != nodes[j].address
  }

  /** With distinct addresses in the active profile only the direct ways remain. */
  lemma DistinctOnlyDrops(c: ConfigData, cmd: Command, p: string, i: nat)
    requires DistinctAddresses(ActiveNodes(c))
    ensures Endangers(c, cmd, p, i) <==> Drops(c, cmd, p, i)
  {
    PinListIsSnapshot(c, cmd);
    SnapshotOfDistinctIsUnshadowed(ActiveNodes(c), PinList(c, cmd));
  }

  /** So over any run in which every command finds the addresses of the active
      profile distinct, a pin stays with its node until a command re-pins that
      node, moves it or deletes its profile. */
  lemma {:induction false} DistinctPinSurvivesRun(file: File, run: seq<Invocation>, p: string, i: nat)
    requires p in Load(file).profiles && i < |Load(file).profiles[p]|
    requires Load(file).profiles[p][i].fingerprint.Some?
    requires forall k | 0 <= k < |run| ::
               && DistinctAddresses(ActiveNodes(Load(ExecAll(file, run[..k]))))
               && !Drops(Load(ExecAll(file, run[..k])), run[k].cmd, p, i)
    ensures PinKept(Load(file), Load(ExecAll(file, run)), p, i)
  {
    forall k | 0 <= k < |run| ensures !Endangers(Load(ExecAll(file, run[..k])), run[k].cmd, p, i) {
      DistinctOnlyDrops(Load(ExecAll(file, run[..k])), run[k].cmd, p, i);
    }
    PinSurvivesRun(file, run, p, i);
  }

  /** A re-pin changes the file only when the daemon answered and the save went
      through; then it changes one pin and nothing else. */
  lemma RepinEffect(file: File, name: string, answer: Answer, saveOk: bool)
    ensures var c := Load(file);
            var nodes, after := ActiveNodes(c), Exec(file, Repin(name, answer), saveOk);
            match FirstCalled(nodes, name)
            case None => after == file
            case Some(k) =>
              var i := FirstAt(nodes, nodes[k].address).value;
              if answer.Err? || !saveOk then after == file
              else after == Some(WithNodes(c, nodes[i := nodes[i].(fingerprint := Some(answer.value))]))
  {
    if RepinAddress(Load(file), name).Some? {
      RepinnedIsOneWrite(Load(file), name, answer);
    }
  }

  /** The node it changes is the one that was named exactly when that is the first
      at its address: any other keeps what it had. */
  lemma RepinReachesNamedIff(file: File, name: string, fingerprint: string)
    requires FirstCalled(ActiveNodes(Load(file)), name).Some?
    ensures var nodes := ActiveNodes(Load(file));
            var k := FirstCalled(nodes, name).value;
            var after := ActiveNodes(Load(Exec(file, Repin(name, Ok(fingerprint)), true)));
            && |after| == |nodes|
            && (FirstAt(nodes, nodes[k].address) == Some(k) ==> after[k].fingerprint == Some(fingerprint))
            && (FirstAt(nodes, nodes[k].address) != Some(k) ==> after[k] == nodes[k])
  {
    var c := Load(file);
    LoadedIsNormal(file);
    RepinEffect(file, name, Ok(fingerprint), true);
    RunKeepsNormal(c, Repin(name, Ok(fingerprint)));
    LoadOfNormal(Run(c, Repin(name, Ok(fingerprint))).memory);
  }

  /** The nodes whose pins a command checks are taken from the active profile. */
  lemma PinListIsSnapshot(c: ConfigData, cmd: Command)
    ensures forall n | n in PinList(c, cmd) :: n in ActiveNodes(c)
  {
    if cmd.NodeAction? {
      Lookup.ResolveAnswers(ActiveNodes(c), cmd.requests);
    }
  }

  /** A target of `status` means the address of the node it calls, or itself. */
  ghost predicate MeansAddress(nodes: Profile, target: string, address: string) {
    if exists i: nat :: Calls(nodes, target, i)
    then exists i: nat :: Calls(nodes, target, i) && nodes[i].address == address
    else address == target
  }

  lemma StatusAddressMeans(nodes: Profile, target: string, address: string)
    ensures StatusAddress(nodes, target) == address <==> MeansAddress(nodes, target, address)
  {
    match FirstCalled(nodes, target) {
      case Some(i) => assert Calls(nodes, target, i);
      case None =>
    }
  }

  /** `status` starts with the addresses its targets mean or, without any, with all
      of the profile's unless it is to discover them. */
  lemma StatusStartsWith(nodes: Profile, all: bool, targets: seq<string>, address: string)
    ensures address in StatusTargets(nodes, all, targets) <==>
            if |targets| == 0 then !all && exists i | 0 <= i < |nodes| :: nodes[i].address == address
            else exists k | 0 <= k < |targets| :: MeansAddress(nodes, targets[k], address)
  {
    forall k | 0 <= k < |targets|
      ensures StatusAddress(nodes, targets[k]) == address <==> MeansAddress(nodes, targets[k], address)
      ensures StatusAddress(nodes, targets[k]) in ExplicitAddresses(nodes, targets)
    {
      StatusAddressMeans(nodes, targets[k], address);
      assert targets[k] in targets;
    }
    var explicit := ExplicitAddresses(nodes, targets);
    assert explicit == {} <==> |targets| == 0 by {
      if |targets| > 0 {
        assert StatusAddress(nodes, targets[0]) in explicit;
      }
    }
    if address in explicit {
      var t :| t in targets && StatusAddress(nodes, t) == address;
      var k :| 0 <= k < |targets| && targets[k] == t;
      assert MeansAddress(nodes, targets[k], address);
    }
  }

  /** `status` checks the pins of exactly the profile's nodes at the addresses
      it starts with: all of them without targets, none of them with `--all`
      alone, else those that the targets mean. */
  lemma StatusChecksWhatItContacts(c: ConfigData, all: bool, targets: seq<string>, answers: seq<Answer>, n: Node)
    ensures n in PinList(c, Status(all, targets, answers)) <==>
            && n in ActiveNodes(c)
            && if |targets| == 0 then !all
               else exists k | 0 <= k < |targets| :: MeansAddress(ActiveNodes(c), targets[k], n.address)
  {
    StatusListKeepsOrder(c, all, targets, answers);
    StatusStartsWith(ActiveNodes(c), all, targets, n.address);
    if n in ActiveNodes(c) {
      var i :| 0 <= i < |ActiveNodes(c)| && ActiveNodes(c)[i] == n;
    }
  }

  /** Discovering the same consistent daemons again changes nothing, through
      saving and loading. */
  lemma {:induction false} DiscoverAgainIsIdle(file: File, found: seq<Found>, saveOk: bool)
    requires MergeStability.Consistent(CleanFound(found))
    ensures var once := Exec(file, Discover(found), true);
            Exec(once, Discover(found), saveOk) == once && Load(once) == Run(Load(file), Discover(found)).memory
  {
    var c, clean := Load(file), CleanFound(found);
    LoadedIsNormal(file);
    RunKeepsNormal(c, Discover(found));
    LoadOfNormal(Run(c, Discover(found)).memory);
    MergeStability.MergeStableIffConsistent(clean);
    assert MergeStability.SecondMergeIsIdle(ActiveNodes(c), clean);
  }

  /** Creating and deleting a profile undo each other, and so do switching to a
      profile and back; switching makes it the active one. */
  lemma ProfileRoundTrips(c: ConfigData, p: string)
    requires c.active in c.profiles
    ensures p !in c.profiles && p != DEFAULT_PROFILE ==>
              var created := Run(c, CreateProfile(p));
              created.ok && p in created.memory.profiles
              && Run(created.memory, DeleteProfile(p)) == Outcome(c, true, true)
    ensures p in c.profiles ==>
              var switched := Run(c, UseProfile(p));
              switched.ok && ActiveNodes(switched.memory) == c.profiles[p]
              && Run(switched.memory, UseProfile(c.active)) == Outcome(c, true, true)
  {
  }
}
