/** Finding nodes by the names a user types. */
module Lookup {
  import opened Wrappers
  import opened Registry
  import opened Pins
  import Sequences

  predicate Answers(n: Node, request: string) {
    n.name == Some(request) || (n.name.None? && n.address == request)
  }

  function FirstAnswering(nodes: Profile, request: string): (r: Option<nat>)
    ensures r.Some? ==> r.value < |nodes| && Answers(nodes[r.value], request)
    ensures r.Some? ==> forall j | 0 <= j < r.value :: !Answers(nodes[j], request)
    ensures r.None? ==> forall j | 0 <= j < |nodes| :: !Answers(nodes[j], request)
  {
    Sequences.Position(nodes, (n: Node) => Answers(n, request))
  }

  /** The nodes named by the requests, all nodes for no request, or the first
      request that names nothing. */
  function Resolve(nodes: Profile, requests: seq<string>): Result<seq<Node>, string> {
    if |requests| == 0 then Ok(nodes) else ResolveFrom(nodes, requests)
  }

  function ResolveFrom(nodes: Profile, requests: seq<string>): Result<seq<Node>, string> {
    if |requests| == 0 then Ok([])
    else
      match FirstAnswering(nodes, requests[0])
      case None => Err(requests[0])
      case Some(i) =>
        match ResolveFrom(nodes, requests[1..])
        case Err(e) => Err(e)
        case Ok(rest) => Ok([nodes[i]] + rest)
  }

  /** The `--list` output. */
  function Listing(nodes: seq<Node>): seq<string> {
    seq(|nodes|, i requires 0 <= i < |nodes| => DisplayName(nodes[i]))
  }

  ghost predicate IsListed(nodes: Profile, request: string) {
    exists i | 0 <= i < |nodes| :: DisplayName(nodes[i]) == request
  }

  lemma ListedIffAnswered(nodes: Profile, request: string)
    ensures IsListed(nodes, request) <==> FirstAnswering(nodes, request).Some?
  {
  }

  lemma {:induction false} FailsAtFirstUnlisted(nodes: Profile, requests: seq<string>)
    ensures ResolveFrom(nodes, requests).Ok? ==> forall k | 0 <= k < |requests| :: IsListed(nodes, requests[k])
    ensures ResolveFrom(nodes, requests).Err? ==>
              exists k | 0 <= k < |requests| ::
                && requests[k] == ResolveFrom(nodes, requests).error && !IsListed(nodes, requests[k])
                && forall j | 0 <= j < k :: IsListed(nodes, requests[j])
  {
    if |requests| > 0 {
      var rest := requests[1..];
      FailsAtFirstUnlisted(nodes, rest);
      ListedIffAnswered(nodes, requests[0]);
      assert forall k | 1 <= k < |requests| :: requests[k] == rest[k - 1];
      if IsListed(nodes, requests[0]) && ResolveFrom(nodes, rest).Err? {
        var k :| 0 <= k < |rest| && rest[k] == ResolveFrom(nodes, rest).error && !IsListed(nodes, rest[k])
                 && forall j | 0 <= j < k :: IsListed(nodes, rest[j]);
        assert requests[k + 1] == rest[k];
      }
    }
  }

  lemma {:induction false} AnswersInOrder(nodes: Profile, requests: seq<string>)
    requires ResolveFrom(nodes, requests).Ok?
    ensures var found := ResolveFrom(nodes, requests).value;
            && |found| == |requests|
            && forall k | 0 <= k < |requests| ::
                 && FirstAnswering(nodes, requests[k]).Some?
                 && found[k] == nodes[FirstAnswering(nodes, requests[k]).value]
                 && DisplayName(found[k]) == requests[k]
  {
    if |requests| > 0 {
      AnswersInOrder(nodes, requests[1..]);
      assert forall k | 1 <= k < |requests| :: requests[k] == requests[1..][k - 1];
    }
  }

  /** Without requests a lookup answers all nodes; else it answers every request
      with the first node shown under that name, or fails at the first request
      that no node is shown under. */
  lemma ResolveAnswers(nodes: Profile, requests: seq<string>)
    ensures |requests| == 0 ==> Resolve(nodes, requests) == Ok(nodes)
    ensures Resolve(nodes, requests).Err? <==> exists k | 0 <= k < |requests| :: !IsListed(nodes, requests[k])
    ensures Resolve(nodes, requests).Err? ==>
              exists k | 0 <= k < |requests| ::
                && requests[k] == Resolve(nodes, requests).error && !IsListed(nodes, requests[k])
                && forall j | 0 <= j < k :: IsListed(nodes, requests[j])
    ensures Resolve(nodes, requests).Ok? && |requests| > 0 ==>
              var found := Resolve(nodes, requests).value;
              && |found| == |requests|
              && forall k | 0 <= k < |requests| ::
                   && FirstAnswering(nodes, requests[k]).Some?
                   && found[k] == nodes[FirstAnswering(nodes, requests[k]).value]
                   && DisplayName(found[k]) == requests[k]
  {
    FailsAtFirstUnlisted(nodes, requests);
    if ResolveFrom(nodes, requests).Ok? {
      AnswersInOrder(nodes, requests);
    }
  }

  /** A name a node is shown under is its name, or the address of one without. */
  lemma ListedMeans(nodes: Profile, request: string)
    ensures IsListed(nodes, request) <==> exists i | 0 <= i < |nodes| :: Answers(nodes[i], request)
  {
    ListedIffAnswered(nodes, request);
  }

  ghost predicate SameNameSameNode(nodes: Profile) {
    forall i, j | 0 <= i < j < |nodes| && DisplayName(nodes[i]) == DisplayName(nodes[j]) :: nodes[i] == nodes[j]
  }

  lemma ListingIsFound(nodes: Profile)
    ensures ResolveFrom(nodes, Listing(nodes)).Ok?
  {
    assert forall k | 0 <= k < |nodes| :: IsListed(nodes, Listing(nodes)[k]);
    FailsAtFirstUnlisted(nodes, Listing(nodes));
  }

  lemma ResolvedBackMeansSame(nodes: Profile)
    requires ResolveFrom(nodes, Listing(nodes)) == Ok(nodes)
    ensures SameNameSameNode(nodes)
  {
    AnswersInOrder(nodes, Listing(nodes));
    forall i, j | 0 <= i < j < |nodes| && DisplayName(nodes[i]) == DisplayName(nodes[j]) ensures nodes[i] == nodes[j] {
      assert Listing(nodes)[i] == Listing(nodes)[j];
    }
  }

  lemma SameResolvesBack(nodes: Profile)
    requires SameNameSameNode(nodes)
    ensures ResolveFrom(nodes, Listing(nodes)) == Ok(nodes)
  {
    var names := Listing(nodes);
    ListingIsFound(nodes);
    AnswersInOrder(nodes, names);
    var found := ResolveFrom(nodes, names).value;
    forall k | 0 <= k < |nodes| ensures found[k] == nodes[k] {
      var i := FirstAnswering(nodes, names[k]).value;
      assert DisplayName(nodes[i]) == names[k] == DisplayName(nodes[k]);
    }
    assert found == nodes;
  }

  /** Listed names resolve back to the listed nodes exactly when nodes shown
      under one name are one and the same. */
  lemma ListingResolvesBackIff(nodes: Profile)
    ensures Resolve(nodes, Listing(nodes)) == Ok(nodes) <==> SameNameSameNode(nodes)
  {
    if SameNameSameNode(nodes) {
      SameResolvesBack(nodes);
    } else if ResolveFrom(nodes, Listing(nodes)) == Ok(nodes) {
      ResolvedBackMeansSame(nodes);
    }
  }
}
