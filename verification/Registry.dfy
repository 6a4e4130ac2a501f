/** The node registry of the command-line client: its data and what merging
    discovered daemons into a profile means. */
module Registry {
  import opened Wrappers
  import Sequences

  datatype Node = Node(name: Option<string>, address: string, fingerprint: Option<string>)

  type Profile = seq<Node>

  /** One discovered daemon: its address and its (possibly empty) identifier. */
  datatype Found = Found(address: string, id: string)

  function FirstNamed(nodes: Profile, name: string): (r: Option<nat>)
    ensures r.Some? ==> r.value < |nodes| && nodes[r.value].name == Some(name)
    ensures r.Some? ==> forall j | 0 <= j < r.value :: nodes[j].name != Some(name)
    ensures r.None? ==> forall j | 0 <= j < |nodes| :: nodes[j].name != Some(name)
  {
    Sequences.Position(nodes, (n: Node) => n.name == Some(name))
  }

  function FirstAt(nodes: Profile, address: string): (r: Option<nat>)
    ensures r.Some? ==> r.value < |nodes| && nodes[r.value].address == address
    ensures r.Some? ==> forall j | 0 <= j < r.value :: nodes[j].address != address
    ensures r.None? ==> forall j | 0 <= j < |nodes| :: nodes[j].address != address
  {
    Sequences.Position(nodes, (n: Node) => n.address == address)
  }

  function NewName(id: string): Option<string> {
    if id == "" then None else Some(id)
  }

  /** The node a discovered daemon is matched with: by name first, then by address. */
  function Match(nodes: Profile, f: Found): (r: Option<nat>)
    ensures r.Some? ==> r.value < |nodes|
  {
    if f.id != "" && FirstNamed(nodes, f.id).Some? then FirstNamed(nodes, f.id)
    else FirstAt(nodes, f.address)
  }

  /** A matched node takes the daemon's name and address; moving it drops its pin. */
  function Rewritten(n: Node, f: Found): Node {
    Node(NewName(f.id), f.address, if n.address == f.address then n.fingerprint else None)
  }

  function MergeOne(nodes: Profile, f: Found): (r: Profile)
    ensures |nodes| <= |r|
  {
    match Match(nodes, f)
    case Some(i) => nodes[i := Rewritten(nodes[i], f)]
    case None => nodes + [Node(NewName(f.id), f.address, None)]
  }

  function MergeAll(nodes: Profile, found: seq<Found>): (r: Profile)
    ensures |nodes| <= |r|
  {
    if |found| == 0 then nodes
    else MergeOne(MergeAll(nodes, found[..|found| - 1]), found[|found| - 1])
  }

  /** Whether some step of the merge changed the profile: the flag the merge returns. */
  predicate Updated(nodes: Profile, found: seq<Found>) {
    |found| > 0 &&
    var before := MergeAll(nodes, found[..|found| - 1]);
    Updated(nodes, found[..|found| - 1]) || MergeOne(before, found[|found| - 1]) != before
  }

  /** One more daemon merged. */
  lemma MergeNext(nodes: Profile, found: seq<Found>, k: nat)
    requires k < |found|
    ensures MergeAll(nodes, found[..k + 1]) == MergeOne(MergeAll(nodes, found[..k]), found[k])
    ensures Updated(nodes, found[..k + 1]) <==>
            Updated(nodes, found[..k]) || MergeAll(nodes, found[..k + 1]) != MergeAll(nodes, found[..k])
  {
    assert found[..k + 1][..k] == found[..k];
  }

  // ----- what a merge writes -----

  /** The daemon is taken for node k: the first node carrying its identifier if it
      has one and some node does, else the first node at its address. */
  ghost predicate TakenFor(nodes: Profile, f: Found, k: nat)
    requires k < |nodes|
  {
    if f.id != "" && exists j | 0 <= j < |nodes| :: nodes[j].name == Some(f.id) then
      nodes[k].name == Some(f.id) && forall j | 0 <= j < k :: nodes[j].name != Some(f.id)
    else
      nodes[k].address == f.address && forall j | 0 <= j < k :: nodes[j].address != f.address
  }

  /** Only the node the daemon is taken for is written, and it becomes what the
      daemon says, keeping its pin if it does not move; a daemon taken for no node
      is appended. */
  lemma MergeOneWrites(nodes: Profile, f: Found)
    ensures var after := MergeOne(nodes, f);
            var name := if f.id == "" then None else Some(f.id);
            && (forall j | 0 <= j < |nodes| && !TakenFor(nodes, f, j) :: after[j] == nodes[j])
            && (forall k | 0 <= k < |nodes| && TakenFor(nodes, f, k) ::
                  after[k] == Node(name, f.address,
                                   if nodes[k].address == f.address then nodes[k].fingerprint else None))
            && ((exists k | 0 <= k < |nodes| :: TakenFor(nodes, f, k)) ==> |after| == |nodes|)
            && ((forall k | 0 <= k < |nodes| :: !TakenFor(nodes, f, k)) ==>
                  |after| == |nodes| + 1 && after[|nodes|] == Node(name, f.address, None))
  {
    match Match(nodes, f) {
      case Some(i) => assert TakenFor(nodes, f, i);
      case None =>
    }
  }

  /** Step k of a merge is taken for node i. */
  ghost predicate TakenAt(nodes: Profile, found: seq<Found>, k: nat, i: nat)
    requires k < |found| && i < |nodes|
  {
    TakenFor(MergeAll(nodes, found[..k]), found[k], i)
  }

  lemma TakenBefore(nodes: Profile, found: seq<Found>, k: nat, i: nat)
    requires k < |found| - 1 && i < |nodes|
    ensures TakenAt(nodes, found[..|found| - 1], k, i) == TakenAt(nodes, found, k, i)
  {
    assert found[..|found| - 1][..k] == found[..k];
  }

  /** The name and address that the last daemon taken for node i gave it. */
  ghost predicate SaysLast(nodes: Profile, found: seq<Found>, i: nat, after: Node)
    requires i < |nodes|
  {
    exists k | 0 <= k < |found| ::
      && TakenAt(nodes, found, k, i) && (forall j | k < j < |found| :: !TakenAt(nodes, found, j, i))
      && after.address == found[k].address
      && after.name == if found[k].id == "" then None else Some(found[k].id)
  }

  /** What the last step does to node i. */
  lemma LastStepWrites(nodes: Profile, found: seq<Found>, i: nat)
    requires |found| > 0 && i < |nodes|
    ensures var n := |found| - 1;
            var after := MergeAll(nodes, found)[i];
            if TakenAt(nodes, found, n, i)
            then after.address == found[n].address
                 && after.name == if found[n].id == "" then None else Some(found[n].id)
            else after == MergeAll(nodes, found[..n])[i]
  {
    MergeOneWrites(MergeAll(nodes, found[..|found| - 1]), found[|found| - 1]);
  }

  lemma {:induction false} NeverTakenStays(nodes: Profile, found: seq<Found>, i: nat)
    requires i < |nodes| && forall k | 0 <= k < |found| :: !TakenAt(nodes, found, k, i)
    ensures MergeAll(nodes, found)[i] == nodes[i]
  {
    if |found| > 0 {
      var n := |found| - 1;
      forall k | 0 <= k < n ensures !TakenAt(nodes, found[..n], k, i) {
        TakenBefore(nodes, found, k, i);
      }
      NeverTakenStays(nodes, found[..n], i);
      LastStepWrites(nodes, found, i);
    }
  }

  lemma {:induction false} TakenSaysLast(nodes: Profile, found: seq<Found>, k: nat, i: nat)
    requires k < |found| && i < |nodes| && TakenAt(nodes, found, k, i)
    requires forall j | k < j < |found| :: !TakenAt(nodes, found, j, i)
    ensures MergeAll(nodes, found)[i].address == found[k].address
    ensures MergeAll(nodes, found)[i].name == if found[k].id == "" then None else Some(found[k].id)
  {
    var n := |found| - 1;
    LastStepWrites(nodes, found, i);
    if k < n {
      assert !TakenAt(nodes, found, n, i);
      TakenBefore(nodes, found, k, i);
      forall j | k < j < n ensures !TakenAt(nodes, found[..n], j, i) {
        TakenBefore(nodes, found, j, i);
      }
      TakenSaysLast(nodes, found[..n], k, i);
      assert found[..n][k] == found[k];
    }
  }

  lemma {:induction false} LastTaken(nodes: Profile, found: seq<Found>, n: nat, i: nat) returns (k: nat)
    requires n <= |found| && i < |nodes| && exists j | 0 <= j < n :: TakenAt(nodes, found, j, i)
    ensures k < n && TakenAt(nodes, found, k, i) && forall j | k < j < n :: !TakenAt(nodes, found, j, i)
  {
    if TakenAt(nodes, found, n - 1, i) {
      k := n - 1;
    } else {
      k := LastTaken(nodes, found, n - 1, i);
    }
  }

  /** A node is as it was if no daemon was taken for it, and otherwise has the
      name and address of the last one that was. */
  lemma MergeWrites(nodes: Profile, found: seq<Found>, i: nat)
    requires i < |nodes|
    ensures if forall k | 0 <= k < |found| :: !TakenAt(nodes, found, k, i) then MergeAll(nodes, found)[i] == nodes[i]
            else SaysLast(nodes, found, i, MergeAll(nodes, found)[i])
  {
    if forall k | 0 <= k < |found| :: !TakenAt(nodes, found, k, i) {
      NeverTakenStays(nodes, found, i);
    } else {
      var k := LastTaken(nodes, found, |found|, i);
      TakenSaysLast(nodes, found, k, i);
    }
  }

  /** The daemons taken for nobody, in order. */
  ghost function Newcomers(nodes: Profile, found: seq<Found>): seq<Found> {
    if |found| == 0 then []
    else
      var n := |found| - 1;
      var before := MergeAll(nodes, found[..n]);
      Newcomers(nodes, found[..n]) +
      if exists k | 0 <= k < |before| :: TakenFor(before, found[n], k) then [] else [found[n]]
  }

  /** Just they are appended. */
  lemma {:induction false} MergeAppends(nodes: Profile, found: seq<Found>)
    ensures |MergeAll(nodes, found)| == |nodes| + |Newcomers(nodes, found)|
  {
    if |found| > 0 {
      var n := |found| - 1;
      MergeAppends(nodes, found[..n]);
      MergeOneWrites(MergeAll(nodes, found[..n]), found[n]);
    }
  }

  // ----- frame of a merge -----

  /** No node is removed or moved, and a pin that is still there belongs to the
      same index, with the address it had. */
  ghost predicate Extends(before: Profile, after: Profile) {
    && |before| <= |after|
    && (forall i | 0 <= i < |after| && after[i].fingerprint.Some? ::
          i < |before| && before[i].fingerprint == after[i].fingerprint && before[i].address == after[i].address)
  }

  ghost predicate NamesDistinct(nodes: Profile) {
    forall i, j | 0 <= i < j < |nodes| && nodes[i].name.Some? :: nodes[i].name != nodes[j].name
  }

  lemma MergeOneFrame(nodes: Profile, f: Found)
    ensures Extends(nodes, MergeOne(nodes, f))
    ensures NamesDistinct(nodes) ==> NamesDistinct(MergeOne(nodes, f))
  {
  }

  /** Merging never drops or reorders a node, keeps names distinct, and lets a
      pin survive only at its own index and address. */
  lemma {:induction false} MergeFrame(nodes: Profile, found: seq<Found>)
    ensures Extends(nodes, MergeAll(nodes, found))
    ensures NamesDistinct(nodes) ==> NamesDistinct(MergeAll(nodes, found))
    ensures !Updated(nodes, found) ==> MergeAll(nodes, found) == nodes
  {
    if |found| > 0 {
      MergeFrame(nodes, found[..|found| - 1]);
      MergeOneFrame(MergeAll(nodes, found[..|found| - 1]), found[|found| - 1]);
    }
  }

  /** Index i is moved by the merge when some step rewrites its address. */
  ghost predicate MovedAt(nodes: Profile, found: seq<Found>, i: nat)
    requires i < |nodes|
  {
    |found| > 0 &&
    var prefix := found[..|found| - 1];
    MovedAt(nodes, prefix, i) || MergeAll(nodes, prefix)[i].address != MergeAll(nodes, found)[i].address
  }

  /** A pin is lost exactly when its node is moved on the way, even if the node
      ends where it started. */
  lemma {:induction false} PinLostIffMoved(nodes: Profile, found: seq<Found>, i: nat)
    requires i < |nodes| && nodes[i].fingerprint.Some?
    ensures MergeAll(nodes, found)[i].fingerprint ==
            if MovedAt(nodes, found, i) then None else nodes[i].fingerprint
  {
    if |found| > 0 {
      PinLostIffMoved(nodes, found[..|found| - 1], i);
      MergeOneFrame(MergeAll(nodes, found[..|found| - 1]), found[|found| - 1]);
    }
  }
}
