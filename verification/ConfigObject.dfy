/** The configuration as the client holds it: fields that its operations update
    in place, each tied to what the operation means. */
module ConfigObject {
  import opened Wrappers
  import opened Registry
  import opened Pins
  import opened Commands
  import Lookup

  lemma UpdatedTwice<K, V>(m: map<K, V>, k: K, first: V, second: V)
    ensures m[k := first][k := second] == m[k := second]
  {
  }

  class Config {
    var activeProfile: string
    var profiles: map<string, Profile>
    var nodes: seq<Node>

    function Data(): ConfigData
      reads this
    {
      ConfigData(activeProfile, profiles, nodes)
    }

    constructor (data: ConfigData)
      ensures Data() == data
    {
      activeProfile, profiles, nodes := data.active, data.profiles, data.legacy;
    }

    /** What loading does to a configuration read from the file. */
    method Normalise()
      modifies this
      ensures Data() == Load(Some(old(Data())))
    {
      MigrateNodes();
      SanitizeProfiles();
      if activeProfile !in profiles {
        profiles := profiles[activeProfile := []];
      }
    }

    method MigrateNodes()
      modifies this
      ensures Data() == Migrated(old(Data()))
    {
      if |nodes| != 0 {
        var existing := if DEFAULT_PROFILE in profiles then profiles[DEFAULT_PROFILE] else [];
        profiles, nodes := profiles[DEFAULT_PROFILE := existing + nodes], [];
      }
    }

    method SanitizeProfiles()
      modifies `profiles
      ensures Data() == Sanitized(old(Data()))
    {
      var todo := profiles.Keys;
      while todo != {}
        invariant todo <= profiles.Keys == old(profiles).Keys
        invariant forall p | p in profiles ::
                    profiles[p] == if p in todo then old(profiles)[p] else CleanNames(old(profiles)[p])
        decreases todo
      {
        var p :| p in todo;
        SanitizeNames(p);
        todo := todo - {p};
      }
      assert profiles == Sanitized(old(Data())).profiles;
    }

    method SanitizeNames(p: string)
      requires p in profiles
      modifies `profiles
      ensures profiles == old(profiles)[p := CleanNames(old(profiles)[p])]
    {
      var k := 0;
      while k < |profiles[p]|
        invariant profiles.Keys == old(profiles).Keys
        invariant |profiles[p]| == |old(profiles)[p]| && k <= |profiles[p]|
        invariant forall i | 0 <= i < |profiles[p]| ::
                    profiles[p][i] == if i < k then CleanName(old(profiles)[p][i]) else old(profiles)[p][i]
        invariant forall q | q in profiles && q != p :: profiles[q] == old(profiles)[q]
      {
        profiles := profiles[p := profiles[p][k := CleanName(profiles[p][k])]];
        k := k + 1;
      }
      assert profiles[p] == CleanNames(old(profiles)[p]);
    }

    /** Merges the discovered daemons into the active profile. */
    method MergeNodes(discovered: seq<Found>) returns (updated: bool)
      modifies `profiles
      ensures Data() == WithNodes(old(Data()), MergeAll(old(ActiveNodes(Data())), discovered))
      ensures updated == Updated(old(ActiveNodes(Data())), discovered)
    {
      if activeProfile !in profiles {
        profiles := profiles[activeProfile := []];
      }
      updated := MergeEntries(discovered);
    }

    method MergeEntries(discovered: seq<Found>) returns (updated: bool)
      requires activeProfile in profiles
      modifies `profiles
      ensures profiles == old(profiles)[activeProfile := MergeAll(old(profiles)[activeProfile], discovered)]
      ensures updated == Updated(old(profiles)[activeProfile], discovered)
    {
      updated := false;
      ghost var start := profiles[activeProfile];
      ghost var merged := start;
      var k := 0;
      while k < |discovered|
        invariant k <= |discovered|
        invariant merged == MergeAll(start, discovered[..k])
        invariant updated == Updated(start, discovered[..k])
        invariant profiles == old(profiles)[activeProfile := merged]
      {
        ghost var before := profiles;
        var nodeUpdated := MergeEntry(discovered[k]);
        ghost var next := MergeOne(merged, discovered[k]);
        assert profiles == before[activeProfile := next];
        UpdatedTwice(old(profiles), activeProfile, merged, next);
        MergeNext(start, discovered, k);
        merged := next;
        if nodeUpdated {
          updated := true;
        }
        k := k + 1;
      }
      assert discovered[..k] == discovered;
    }

    /** Merges one discovered daemon and tells whether the profile changed. */
    method MergeEntry(f: Found) returns (nodeUpdated: bool)
      requires activeProfile in profiles
      modifies `profiles
      ensures profiles == old(profiles)[activeProfile := MergeOne(old(profiles)[activeProfile], f)]
      ensures nodeUpdated <==> profiles[activeProfile] != old(profiles)[activeProfile]
    {
      var current := profiles[activeProfile];
      var newName := if f.id == "" then None else Some(f.id);
      var foundIndex: Option<nat> := None;
      if newName.Some? {
        foundIndex := FirstNamed(current, newName.value);
      }
      if foundIndex.None? {
        foundIndex := FirstAt(current, f.address);
      }
      nodeUpdated := false;
      if foundIndex.Some? {
        var index := foundIndex.value;
        var node := current[index];
        if node.address != f.address {
          node := node.(address := f.address, fingerprint := None);
          nodeUpdated := true;
        }
        if node.name != newName {
          node := node.(name := newName);
          nodeUpdated := true;
        }
        assert node == Rewritten(current[index], f);
        profiles := profiles[activeProfile := current[index := node]];
        assert profiles[activeProfile][index] == node;
      } else {
        profiles := profiles[activeProfile := current + [Node(newName, f.address, None)]];
        nodeUpdated := true;
      }
    }

    /** Stores a fingerprint with the first node of the active profile at the address. */
    method UpdateNodeFingerprint(address: string, fingerprint: string)
      modifies `profiles
      ensures Data() == if activeProfile in old(profiles)
                        then WithNodes(old(Data()), WithPin(old(ActiveNodes(Data())), address, Some(fingerprint)))
                        else old(Data())
    {
      if activeProfile in profiles {
        var current := profiles[activeProfile];
        var index := FirstAt(current, address);
        if index.Some? {
          var node := current[index.value].(fingerprint := Some(fingerprint));
          profiles := profiles[activeProfile := current[index.value := node]];
        } else {
          assert profiles == profiles[activeProfile := current];
        }
      }
    }

    /** Clears the pin of the first node at the address. */
    method ClearNodeFingerprint(address: string)
      requires activeProfile in profiles
      modifies `profiles
      ensures Data() == WithNodes(old(Data()), WithPin(old(ActiveNodes(Data())), address, None))
    {
      var current := profiles[activeProfile];
      var index := FirstAt(current, address);
      if index.Some? {
        var node := current[index.value].(fingerprint := None);
        profiles := profiles[activeProfile := current[index.value := node]];
      } else {
        assert profiles == profiles[activeProfile := current];
      }
    }

    /** Checks the pins of the listed nodes and stores those learned. */
    method ValidateAndUpdatePins(list: seq<Node>, answers: seq<Answer>) returns (updated: bool)
      modifies `profiles
      ensures Data() == Checked(old(Data()), list, answers)
      ensures updated == Learns(list, answers)
    {
      updated := false;
      var k := 0;
      assert activeProfile in profiles ==> profiles == profiles[activeProfile := profiles[activeProfile]];
      while k < |list|
        invariant k <= |list|
        invariant Data() == Checked(old(Data()), list[..k], answers)
        invariant updated <==> exists j | 0 <= j < k :: LearnsAt(list, answers, j)
      {
        assert list[..k + 1][..k] == list[..k];
        assert LearnsAt(list[..k + 1], answers, k) == LearnsAt(list, answers, k);
        match CheckPin(list[k], AnswerAt(answers, k)) {
          case Ok(Learned(fingerprint)) =>
            UpdateNodeFingerprint(list[k].address, fingerprint);
            updated := true;
            assert LearnsAt(list, answers, k);
          case Ok(Matched) =>
          case Err(_) =>
        }
        k := k + 1;
      }
      assert list[..k] == list;
    }

    /** The nodes of the active profile that the requests name. */
    method ResolveProfileNodes(requests: seq<string>) returns (r: Result<seq<Node>, string>)
      requires activeProfile in profiles
      ensures r == Lookup.Resolve(ActiveNodes(Data()), requests)
    {
      var current := profiles[activeProfile];
      if |requests| == 0 {
        return Ok(current);
      }
      var matched: seq<Node> := [];
      var k := 0;
      assert requests[0..] == requests;
      assert forall rest: seq<Node> :: matched + rest == rest;
      while k < |requests|
        invariant k <= |requests|
        invariant Lookup.ResolveFrom(current, requests) ==
                  match Lookup.ResolveFrom(current, requests[k..])
                  case Err(e) => Err(e)
                  case Ok(rest) => Ok(matched + rest)
      {
        var index := Lookup.FirstAnswering(current, requests[k]);
        assert requests[k..][1..] == requests[k + 1..];
        if index.None? {
          return Err(requests[k]);
        }
        ghost var shorter := matched;
        matched := matched + [current[index.value]];
        assert forall rest: seq<Node> :: shorter + ([current[index.value]] + rest) == matched + rest;
        k := k + 1;
      }
      assert matched + [] == matched;
      r := Ok(matched);
    }
  }

  /** The file a configuration is saved to; a save replaces it whole or not at all. */
  class ConfigFile {
    var content: File

    constructor ()
      ensures content == None
    {
      content := None;
    }

    method Save(config: Config, saveOk: bool) returns (saved: bool)
      modifies this
      ensures saved == saveOk
      ensures content == if saveOk then Some(config.Data()) else old(content)
    {
      if saveOk {
        content := Some(config.Data());
      }
      saved := saveOk;
    }
  }

  datatype CommandError = NotFound | AlreadyExists | Protected | PinFailed(error: PinError) | SaveFailed

  /** Clearing leaves the first node at the address there, without a pin. */
  lemma ClearedIsUnpinned(nodes: Profile, address: string)
    requires FirstAt(nodes, address).Some?
    ensures var cleared := WithPin(WithPin(nodes, address, Some("")), address, None);
            && FirstAt(cleared, address) == FirstAt(nodes, address)
            && cleared[FirstAt(nodes, address).value].address == address
            && cleared[FirstAt(nodes, address).value].fingerprint == None
  {
    WithPinTwice(nodes, address, Some(""), None);
    FirstAtDependsOnAddresses(nodes, WithPin(nodes, address, None), address);
  }

  method RunRepin(name: string, config: Config, file: ConfigFile, answer: Answer, saveOk: bool)
    returns (r: Result<(), CommandError>)
    requires config.activeProfile in config.profiles
    modifies config, file
    ensures config.Data() == Run(old(config.Data()), Repin(name, answer)).memory
    ensures file.content == if Run(old(config.Data()), Repin(name, answer)).save && saveOk
                            then Some(config.Data()) else old(file.content)
    ensures r == if FirstCalled(old(ActiveNodes(config.Data())), name).None? then Err(NotFound)
                 else if answer.Err? then Err(PinFailed(Unreachable(answer.error)))
                 else if !saveOk then Err(SaveFailed) else Ok(())
  {
    var current := config.profiles[config.activeProfile];
    var called := FirstCalled(current, name);
    if called.None? {
      return Err(NotFound);
    }
    var address := current[called.value].address;

    config.UpdateNodeFingerprint(address, "");
    config.ClearNodeFingerprint(address);
    var cleared := config.profiles[config.activeProfile];
    ClearedIsUnpinned(current, address);
    var node := cleared[FirstAt(cleared, address).value];
    match CheckPin(node, answer) {
      case Ok(Learned(fingerprint)) =>
        config.UpdateNodeFingerprint(node.address, fingerprint);
        var saved := file.Save(config, saveOk);
        r := if saved then Ok(()) else Err(SaveFailed);
      case Ok(Matched) =>
        assert false;
      case Err(e) =>
        r := Err(PinFailed(e));
    }
  }

  /** Saves if something was learned or merged. */
  method SaveIf(updated: bool, config: Config, file: ConfigFile, saveOk: bool) returns (r: Result<(), CommandError>)
    modifies file
    ensures file.content == if updated && saveOk then Some(config.Data()) else old(file.content)
    ensures r == if updated && !saveOk then Err(SaveFailed) else Ok(())
  {
    if updated {
      var saved := file.Save(config, saveOk);
      if !saved {
        return Err(SaveFailed);
      }
    }
    r := Ok(());
  }

  method RunDiscover(found: seq<Found>, config: Config, file: ConfigFile, saveOk: bool)
    returns (r: Result<(), CommandError>)
    modifies config, file
    ensures var outcome := Run(old(config.Data()), Discover(found));
            && config.Data() == outcome.memory
            && file.content == (if outcome.save && saveOk then Some(config.Data()) else old(file.content))
            && r == if outcome.save && !saveOk then Err(SaveFailed) else Ok(())
  {
    var updated := config.MergeNodes(CleanFound(found));
    r := SaveIf(updated, config, file, saveOk);
  }

  /** Asking every node for its version checks its pin first. */
  method RunVersion(answers: seq<Answer>, config: Config, file: ConfigFile, saveOk: bool)
    returns (r: Result<(), CommandError>)
    requires config.activeProfile in config.profiles
    modifies config, file
    ensures var outcome := Run(old(config.Data()), Version(answers));
            && config.Data() == outcome.memory
            && file.content == (if outcome.save && saveOk then Some(config.Data()) else old(file.content))
            && r == if outcome.save && !saveOk then Err(SaveFailed) else Ok(())
  {
    var updated := config.ValidateAndUpdatePins(config.profiles[config.activeProfile], answers);
    r := SaveIf(updated, config, file, saveOk);
  }

  lemma OneMoreTarget(nodes: Profile, targets: seq<string>, k: nat)
    requires k < |targets|
    ensures ExplicitAddresses(nodes, targets[..k + 1]) ==
            ExplicitAddresses(nodes, targets[..k]) + {StatusAddress(nodes, targets[k])}
  {
    assert targets[..k + 1] == targets[..k] + [targets[k]];
  }

  method CollectTargets(nodes: Profile, all: bool, targets: seq<string>) returns (initial: set<string>)
    ensures initial == StatusTargets(nodes, all, targets)
  {
    initial := {};
    for k := 0 to |targets|
      invariant initial == ExplicitAddresses(nodes, targets[..k])
    {
      OneMoreTarget(nodes, targets, k);
      var called := FirstCalled(nodes, targets[k]);
      initial := initial + {if called.Some? then nodes[called.value].address else targets[k]};
    }
    assert targets[..|targets|] == targets;
    if initial == {} && !all {
      for k := 0 to |nodes|
        invariant initial == set i | 0 <= i < k :: nodes[i].address
      {
        initial := initial + {nodes[k].address};
      }
      assert initial == set n | n in nodes :: n.address;
    }
  }

  lemma OneMoreNode(nodes: Profile, addresses: set<string>, k: nat)
    requires k < |nodes|
    ensures AtAddresses(nodes[..k + 1], addresses) ==
            AtAddresses(nodes[..k], addresses) + if nodes[k].address in addresses then [nodes[k]] else []
  {
    assert nodes[..k + 1] == nodes[..k] + [nodes[k]];
    AtAddressesConcat(nodes[..k], [nodes[k]], addresses);
  }

  method NodesAt(nodes: Profile, addresses: set<string>) returns (list: seq<Node>)
    ensures list == AtAddresses(nodes, addresses)
  {
    list := [];
    for k := 0 to |nodes|
      invariant list == AtAddresses(nodes[..k], addresses)
    {
      OneMoreNode(nodes, addresses, k);
      if nodes[k].address in addresses {
        list := list + [nodes[k]];
      }
    }
    assert nodes[..|nodes|] == nodes;
  }

  /** `status` finds the addresses to start with and checks the pins of the
      profile's nodes there. */
  method RunStatus(all: bool, targets: seq<string>, answers: seq<Answer>,
                   config: Config, file: ConfigFile, saveOk: bool)
    returns (r: Result<(), CommandError>)
    requires config.activeProfile in config.profiles
    modifies config, file
    ensures var outcome := Run(old(config.Data()), Status(all, targets, answers));
            && config.Data() == outcome.memory
            && file.content == (if outcome.save && saveOk then Some(config.Data()) else old(file.content))
            && r == if outcome.save && !saveOk then Err(SaveFailed) else Ok(())
  {
    var nodes := config.profiles[config.activeProfile];
    var initial := CollectTargets(nodes, all, targets);
    var list: seq<Node> := [];
    if initial == {} {
      list := if all then [] else nodes;
    } else {
      list := NodesAt(nodes, initial);
    }
    var updated := config.ValidateAndUpdatePins(list, answers);
    r := SaveIf(updated, config, file, saveOk);
  }

  /** An action on nodes checks the pins of those it is for. */
  method RunNode(requests: seq<string>, answers: seq<Answer>, config: Config, file: ConfigFile, saveOk: bool)
    returns (r: Result<(), CommandError>)
    requires config.activeProfile in config.profiles
    modifies config, file
    ensures var outcome := Run(old(config.Data()), NodeAction(requests, answers));
            && config.Data() == outcome.memory
            && file.content == (if outcome.save && saveOk then Some(config.Data()) else old(file.content))
            && r == if !outcome.ok then Err(NotFound)
                    else if outcome.save && !saveOk then Err(SaveFailed) else Ok(())
  {
    var list := config.ResolveProfileNodes(requests);
    if list.Err? {
      NothingToCheck(config.Data(), answers);
      return Err(NotFound);
    }
    if |list.value| == 0 {
      NothingToCheck(config.Data(), answers);
      return Ok(());
    }
    var updated := config.ValidateAndUpdatePins(list.value, answers);
    r := SaveIf(updated, config, file, saveOk);
  }

  lemma NothingToCheck(c: ConfigData, answers: seq<Answer>)
    requires c.active in c.profiles
    ensures Checked(c, [], answers) == c && !Learns([], answers)
  {
    assert c.profiles == c.profiles[c.active := c.profiles[c.active]];
  }

  /** Switching, creating and deleting profiles. */
  method RunProfile(cmd: Command, config: Config, file: ConfigFile, saveOk: bool) returns (r: Result<(), CommandError>)
    requires cmd.UseProfile? || cmd.CreateProfile? || cmd.DeleteProfile?
    modifies config, file
    ensures config.Data() == Run(old(config.Data()), cmd).memory
    ensures file.content ==
            if Run(old(config.Data()), cmd).save && saveOk then Some(config.Data()) else old(file.content)
    ensures Run(old(config.Data()), cmd).ok ==> r == if saveOk then Ok(()) else Err(SaveFailed)
    ensures !Run(old(config.Data()), cmd).ok ==>
              r == Err(if cmd.CreateProfile? then AlreadyExists
                       else if cmd.DeleteProfile? && cmd.profile in {DEFAULT_PROFILE, old(config.activeProfile)}
                       then Protected
                       else NotFound)
  {
    match cmd {
      case UseProfile(name) =>
        if name !in config.profiles {
          return Err(NotFound);
        }
        config.activeProfile := name;
      case CreateProfile(name) =>
        if name in config.profiles {
          return Err(AlreadyExists);
        }
        config.profiles := config.profiles[name := []];
      case DeleteProfile(name) =>
        if name == DEFAULT_PROFILE || name == config.activeProfile {
          return Err(Protected);
        }
        if name !in config.profiles {
          return Err(NotFound);
        }
        config.profiles := config.profiles - {name};
    }
    var saved := file.Save(config, saveOk);
    r := if saved then Ok(()) else Err(SaveFailed);
  }
}
