/** Trust on first use: checking a node's certificate fingerprint against its
    pin, and what a round of checks does to a profile. */
module Pins {
  import opened Wrappers
  import opened Registry
  import Fingerprint

  /** What contacting a daemon yields: its fingerprint, or an error. */
  type Answer = Result<string, string>

  datatype PinOutcome = Learned(fingerprint: string) | Matched

  datatype PinError =
    | Unreachable(cause: string)
    | Mismatch(node: string, expected: string, observed: string)

  function DisplayName(n: Node): string {
    if n.name.Some? then n.name.value else n.address
  }

  function CheckPin(n: Node, answer: Answer): Result<PinOutcome, PinError> {
    match answer
    case Err(cause) => Err(Unreachable(cause))
    case Ok(observed) =>
      match n.fingerprint
      case None => Ok(Learned(observed))
      case Some(expected) =>
        if Fingerprint.EqIgnoreAsciiCase(expected, observed) then Ok(Matched)
        else Err(Mismatch(DisplayName(n), expected, observed))
  }

  /** A contact that fails is an error with its cause, whatever is pinned; else a
      node without pin learns what it was shown, and a pinned one is matched
      exactly by its pin, in any ASCII case. */
  lemma CheckPinMeans(n: Node, answer: Answer)
    ensures answer.Err? ==> CheckPin(n, answer) == Err(Unreachable(answer.error))
    ensures answer.Ok? && n.fingerprint.None? ==> CheckPin(n, answer) == Ok(Learned(answer.value))
    ensures answer.Ok? && n.fingerprint.Some? ==>
              (CheckPin(n, answer) == Ok(Matched) <==>
               |n.fingerprint.value| == |answer.value| && forall i | 0 <= i < |answer.value| ::
                 Fingerprint.SameLetter(n.fingerprint.value[i], answer.value[i]))
    ensures answer.Ok? && n.fingerprint.Some? && CheckPin(n, answer) != Ok(Matched) ==>
              CheckPin(n, answer) == Err(Mismatch(if n.name.Some? then n.name.value else n.address,
                                                  n.fingerprint.value, answer.value))
  {
    if answer.Ok? && n.fingerprint.Some? {
      Fingerprint.EqIgnoreAsciiCaseIff(n.fingerprint.value, answer.value);
    }
  }

  /** A pin stored in the printed form, in any case, is matched exactly by the
      certificate it was made from. */
  lemma {:induction false} MatchedIffSameDigest(n: Node, pinned: seq<Fingerprint.Byte>, shown: seq<Fingerprint.Byte>)
    requires |pinned| > 0 && |shown| > 0
    requires n.fingerprint.Some?
    requires Fingerprint.EqIgnoreAsciiCase(n.fingerprint.value, Fingerprint.FormatDigest(pinned))
    ensures CheckPin(n, Ok(Fingerprint.FormatDigest(shown))) == Ok(Matched) <==> pinned == shown
  {
    Fingerprint.ReadBackDigest(pinned, n.fingerprint.value);
    if Fingerprint.EqIgnoreAsciiCase(n.fingerprint.value, Fingerprint.FormatDigest(shown)) {
      Fingerprint.ReadBackDigest(shown, n.fingerprint.value);
    }
  }

  /** A daemon's addresses are tried in order: the first that yields a
      fingerprint decides, else the last error stands. */
  method FetchFingerprint<Address>(addresses: seq<Address>, tryAt: Address -> Answer) returns (r: Answer)
    ensures r.Ok? <==> exists k | 0 <= k < |addresses| :: tryAt(addresses[k]).Ok?
    ensures r.Ok? ==> exists k | 0 <= k < |addresses| ::
              r == tryAt(addresses[k]) && forall j | 0 <= j < k :: tryAt(addresses[j]).Err?
    ensures r.Err? && |addresses| > 0 ==> r == tryAt(addresses[|addresses| - 1])
  {
    var lastErr: Option<string> := None;
    var k := 0;
    while k < |addresses|
      invariant k <= |addresses|
      invariant forall j | 0 <= j < k :: tryAt(addresses[j]).Err?
      invariant k > 0 ==> lastErr.Some? && tryAt(addresses[k - 1]) == Err(lastErr.value)
    {
      var outcome := tryAt(addresses[k]);
      match outcome {
        case Ok(_) => return outcome;
        case Err(e) => lastErr := Some(e);
      }
      k := k + 1;
    }
    r := Err(if lastErr.Some? then lastErr.value else "all addresses failed");
  }

  // ----- storing what was learned -----

  /** The first node at the address gets the given pin. */
  function WithPin(nodes: Profile, address: string, pin: Option<string>): (r: Profile)
    ensures |r| == |nodes|
  {
    match FirstAt(nodes, address)
    case Some(i) => nodes[i := nodes[i].(fingerprint := pin)]
    case None => nodes
  }

  /** Of two writes for one address the second stands. */
  lemma WithPinTwice(nodes: Profile, address: string, first: Option<string>, second: Option<string>)
    ensures WithPin(WithPin(nodes, address, first), address, second) == WithPin(nodes, address, second)
  {
  }

  /** The k-th answer of the environment; a missing answer is an unreachable daemon. */
  function AnswerAt(answers: seq<Answer>, k: nat): Answer {
    if k < |answers| then answers[k] else Err("no answer")
  }

  predicate LearnsAt(list: seq<Node>, answers: seq<Answer>, k: nat)
    requires k < |list|
  {
    CheckPin(list[k], AnswerAt(answers, k)).Ok? && CheckPin(list[k], AnswerAt(answers, k)).value.Learned?
  }

  /** Checks the listed nodes in order, storing every learned pin. */
  function Validate(nodes: Profile, list: seq<Node>, answers: seq<Answer>): (r: Profile)
    ensures |r| == |nodes|
  {
    if |list| == 0 then nodes
    else
      var k := |list| - 1;
      var before := Validate(nodes, list[..k], answers);
      if LearnsAt(list, answers, k)
      then WithPin(before, list[k].address, Some(AnswerAt(answers, k).value))
      else before
  }

  predicate Learns(list: seq<Node>, answers: seq<Answer>) {
    exists k | 0 <= k < |list| :: LearnsAt(list, answers, k)
  }

  // ----- what a round of checks amounts to, node by node -----

  /** The last fingerprint learned for an address. */
  function LastLearned(list: seq<Node>, answers: seq<Answer>, address: string): Option<string> {
    if |list| == 0 then None
    else
      var k := |list| - 1;
      if list[k].address == address && LearnsAt(list, answers, k) then Some(AnswerAt(answers, k).value)
      else LastLearned(list[..k], answers, address)
  }

  /** Check k contacted the address for a node without pin and was shown a
      fingerprint. */
  predicate Shows(list: seq<Node>, answers: seq<Answer>, address: string, k: nat) {
    && k < |list| && list[k].address == address && list[k].fingerprint.None?
    && k < |answers| && answers[k].Ok?
  }

  /** What was learned last for an address is what the last such check was shown. */
  lemma {:induction false} LastLearnedMeans(list: seq<Node>, answers: seq<Answer>, address: string)
    ensures LastLearned(list, answers, address).None? <==> forall k: nat :: !Shows(list, answers, address, k)
    ensures LastLearned(list, answers, address).Some? ==>
              exists k | 0 <= k < |list| ::
                && Shows(list, answers, address, k) && (forall j | k < j < |list| :: !Shows(list, answers, address, j))
                && LastLearned(list, answers, address) == Some(answers[k].value)
  {
    if |list| > 0 {
      var n := |list| - 1;
      LastLearnedMeans(list[..n], answers, address);
      LearnsIffShows(list, answers, n);
      assert forall k: nat | k < n :: Shows(list[..n], answers, address, k) == Shows(list, answers, address, k);
      if Shows(list, answers, address, n) {
        assert LastLearned(list, answers, address) == Some(answers[n].value);
      } else if LastLearned(list[..n], answers, address).Some? {
        var k :| 0 <= k < n
                 && Shows(list[..n], answers, address, k)
                 && (forall j | k < j < n :: !Shows(list[..n], answers, address, j))
                 && LastLearned(list[..n], answers, address) == Some(answers[k].value);
        assert Shows(list, answers, address, k) && forall j | k < j < |list| :: !Shows(list, answers, address, j);
      } else {
        forall k: nat ensures !Shows(list, answers, address, k) {
          assert k < n ==> !Shows(list[..n], answers, address, k);
        }
      }
    }
  }

  lemma LearnsIffShows(list: seq<Node>, answers: seq<Answer>, k: nat)
    requires k < |list|
    ensures LearnsAt(list, answers, k) <==> Shows(list, answers, list[k].address, k)
    ensures LearnsAt(list, answers, k) ==> AnswerAt(answers, k) == answers[k]
  {
  }

  /** The node i of a profile after a round of checks in which that was learned. */
  function Taught(nodes: Profile, i: nat, learned: Option<string>): Node
    requires i < |nodes|
  {
    if FirstAt(nodes, nodes[i].address) == Some(i) && learned.Some?
    then nodes[i].(fingerprint := learned) else nodes[i]
  }

  lemma {:induction false} NothingLearned(nodes: Profile, list: seq<Node>, answers: seq<Answer>)
    requires !Learns(list, answers)
    ensures Validate(nodes, list, answers) == nodes
  {
    if |list| > 0 {
      var shorter := list[..|list| - 1];
      assert forall j | 0 <= j < |shorter| :: LearnsAt(shorter, answers, j) == LearnsAt(list, answers, j);
      NothingLearned(nodes, shorter, answers);
    }
  }

  /** Only the first node at an address can change, only its pin, and it ends
      with the last fingerprint learned there. */
  lemma {:induction false} ValidatePointwise(nodes: Profile, list: seq<Node>, answers: seq<Answer>)
    ensures forall i | 0 <= i < |nodes| ::
              Validate(nodes, list, answers)[i] == Taught(nodes, i, LastLearned(list, answers, nodes[i].address))
    ensures !Learns(list, answers) ==> Validate(nodes, list, answers) == nodes
  {
    if |list| > 0 {
      var k := |list| - 1;
      var before := Validate(nodes, list[..k], answers);
      ValidatePointwise(nodes, list[..k], answers);
      assert forall i | 0 <= i < |nodes| :: before[i].address == nodes[i].address;
      FirstAtDependsOnAddresses(before, nodes, list[k].address);
    }
    if !Learns(list, answers) {
      NothingLearned(nodes, list, answers);
    }
  }

  lemma FirstAtDependsOnAddresses(a: Profile, b: Profile, address: string)
    requires |a| == |b| && forall i | 0 <= i < |a| :: a[i].address == b[i].address
    ensures FirstAt(a, address) == FirstAt(b, address)
  {
  }

  // ----- when pins are sticky -----

  ghost predicate PinsKept(before: Profile, after: Profile) {
    |before| == |after| && forall i | 0 <= i < |before| && before[i].fingerprint.Some? :: after[i] == before[i]
  }

  /** Some unpinned node of the list shares its address with a pinned node that
      comes first: what is learned for the one overwrites the pin of the other. */
  ghost predicate Shadowed(nodes: Profile, list: seq<Node>) {
    exists k | 0 <= k < |list| ::
      list[k].fingerprint.None? && FirstAt(nodes, list[k].address).Some?
      && nodes[FirstAt(nodes, list[k].address).value].fingerprint.Some?
  }

  lemma {:induction false} LearnedAddressIsUnpinned(list: seq<Node>, answers: seq<Answer>, address: string)
    requires LastLearned(list, answers, address).Some?
    ensures exists k | 0 <= k < |list| :: list[k].address == address && list[k].fingerprint.None?
  {
    var k := |list| - 1;
    if !(list[k].address == address && LearnsAt(list, answers, k)) {
      LearnedAddressIsUnpinned(list[..k], answers, address);
      var j :| 0 <= j < k && list[..k][j].address == address && list[..k][j].fingerprint.None?;
      assert list[j].address == address && list[j].fingerprint.None?;
    } else {
      assert list[k].address == address && list[k].fingerprint.None?;
    }
  }

  lemma UnshadowedKeepsPins(nodes: Profile, list: seq<Node>, answers: seq<Answer>)
    requires !Shadowed(nodes, list)
    ensures PinsKept(nodes, Validate(nodes, list, answers))
  {
    ValidatePointwise(nodes, list, answers);
    forall i | 0 <= i < |nodes| && nodes[i].fingerprint.Some?
      ensures Validate(nodes, list, answers)[i] == nodes[i]
    {
      var address := nodes[i].address;
      if FirstAt(nodes, address) == Some(i) && LastLearned(list, answers, address).Some? {
        LearnedAddressIsUnpinned(list, answers, address);
      }
    }
  }

  /** Answers that are all errors except the k-th. */
  function OnlyAnswer(k: nat, fingerprint: string): seq<Answer> {
    seq(k, _ => Err("down")) + [Ok(fingerprint)]
  }

  lemma {:induction false} OnlyAnswerIsLearned(list: seq<Node>, k: nat, fingerprint: string)
    requires k < |list| && list[k].fingerprint.None?
    ensures LastLearned(list, OnlyAnswer(k, fingerprint), list[k].address) == Some(fingerprint)
  {
    var answers := OnlyAnswer(k, fingerprint);
    var last := |list| - 1;
    if last > k {
      assert AnswerAt(answers, last).Err?;
      assert list[..last][k] == list[k];
      OnlyAnswerIsLearned(list[..last], k, fingerprint);
    }
  }

  lemma ShadowedCanLoseAPin(nodes: Profile, list: seq<Node>) returns (answers: seq<Answer>)
    requires Shadowed(nodes, list)
    ensures !PinsKept(nodes, Validate(nodes, list, answers))
  {
    var k :| 0 <= k < |list| && list[k].fingerprint.None? && FirstAt(nodes, list[k].address).Some?
             && nodes[FirstAt(nodes, list[k].address).value].fingerprint.Some?;
    var i := FirstAt(nodes, list[k].address).value;
    var other := nodes[i].fingerprint.value + "!";
    answers := OnlyAnswer(k, other);
    OnlyAnswerIsLearned(list, k, other);
    ValidatePointwise(nodes, list, answers);
    assert |other| != |nodes[i].fingerprint.value|;
    assert Validate(nodes, list, answers)[i] != nodes[i];
  }

  /** Pins are sticky exactly when the list is not shadowed: then, and only
      then, no answers of the daemons can change a pin set on entry. */
  lemma PinsStickyIffUnshadowed(nodes: Profile, list: seq<Node>)
    ensures !Shadowed(nodes, list) <==>
            forall answers: seq<Answer> :: PinsKept(nodes, Validate(nodes, list, answers))
  {
    if Shadowed(nodes, list) {
      var answers := ShadowedCanLoseAPin(nodes, list);
      assert !PinsKept(nodes, Validate(nodes, list, answers));
    } else {
      forall answers: seq<Answer> ensures PinsKept(nodes, Validate(nodes, list, answers)) {
        UnshadowedKeepsPins(nodes, list, answers);
      }
    }
  }

  /** With distinct addresses a snapshot of the profile, repeats allowed, is
      never shadowed. */
  lemma SnapshotOfDistinctIsUnshadowed(nodes: Profile, list: seq<Node>)
    requires forall i, j | 0 <= i < j < |nodes| :: nodes[i].address != nodes[j].address
    requires forall n | n in list :: n in nodes
    ensures !Shadowed(nodes, list)
  {
    forall k | 0 <= k < |list| && list[k].fingerprint.None? && FirstAt(nodes, list[k].address).Some?
      ensures nodes[FirstAt(nodes, list[k].address).value].fingerprint.None?
    {
      assert list[k] in nodes;
    }
  }
}
