/** When is merging a discovered list a settled matter?  Exactly when the list
    does not contradict itself. */
module MergeStability {
  import opened Wrappers
  import opened Registry

  /** The profile already says what the discovered daemon says. */
  ghost predicate Settled(nodes: Profile, f: Found) {
    if f.id != "" then
      var i := FirstNamed(nodes, f.id); i.Some? && nodes[i.value].address == f.address
    else
      var i := FirstAt(nodes, f.address); i.Some? && nodes[i.value].name == None
  }

  /** Two discovered daemons agree: one identifier is never at two addresses and
      one address never carries two identifiers. */
  ghost predicate Agree(f: Found, g: Found) {
    (f.id == g.id && f.id != "" ==> f.address == g.address) && (f.address == g.address ==> f.id == g.id)
  }

  ghost predicate Consistent(found: seq<Found>) {
    forall i, j | 0 <= i < |found| && 0 <= j < |found| :: Agree(found[i], found[j])
  }

  lemma SettledIffNoChange(nodes: Profile, f: Found)
    ensures Settled(nodes, f) <==> MergeOne(nodes, f) == nodes
  {
  }

  lemma MergeOneSettles(nodes: Profile, f: Found)
    ensures Settled(MergeOne(nodes, f), f)
  {
    var after := MergeOne(nodes, f);
    match Match(nodes, f) {
      case Some(i) => assert after[i] == Rewritten(nodes[i], f);
      case None => assert after[|nodes|] == Node(NewName(f.id), f.address, None);
    }
  }

  lemma MergeOneKeepsSettled(nodes: Profile, f: Found, g: Found)
    requires Settled(nodes, f) && Agree(f, g)
    ensures Settled(MergeOne(nodes, g), f)
  {
    if f == g {
      SettledIffNoChange(nodes, f);
    } else {
      var after := MergeOne(nodes, g);
      var k := if f.id != "" then FirstNamed(nodes, f.id).value else FirstAt(nodes, f.address).value;
      assert Match(nodes, g) != Some(k);
      assert after[k] == nodes[k];
    }
  }

  /** After a merge of a consistent list every entry is settled: the first node
      with each identifier has its address, and the first node at each address
      without identifier is unnamed. */
  lemma {:induction false} MergeSettlesAll(nodes: Profile, found: seq<Found>)
    requires Consistent(found)
    ensures forall k | 0 <= k < |found| :: Settled(MergeAll(nodes, found), found[k])
  {
    if |found| > 0 {
      var prefix, last := found[..|found| - 1], found[|found| - 1];
      assert forall i | 0 <= i < |prefix| :: prefix[i] == found[i];
      MergeSettlesAll(nodes, prefix);
      var before := MergeAll(nodes, prefix);
      forall k | 0 <= k < |found| ensures Settled(MergeAll(nodes, found), found[k]) {
        if k < |prefix| {
          assert prefix[k] == found[k];
          MergeOneKeepsSettled(before, found[k], last);
        } else {
          MergeOneSettles(before, last);
        }
      }
    }
  }

  /** The merge flag is false exactly when the profile already settles the list. */
  lemma {:induction false} NotUpdatedIffSettled(nodes: Profile, found: seq<Found>)
    ensures !Updated(nodes, found) <==> forall k | 0 <= k < |found| :: Settled(nodes, found[k])
  {
    if |found| > 0 {
      var prefix, last := found[..|found| - 1], found[|found| - 1];
      NotUpdatedIffSettled(nodes, prefix);
      MergeFrame(nodes, prefix);
      SettledIffNoChange(MergeAll(nodes, prefix), last);
      assert forall k | 0 <= k < |prefix| :: prefix[k] == found[k];
      assert found[|found| - 1] == last;
      forall k | 0 <= k < |found|
        ensures Settled(nodes, found[k]) <==> Settled(nodes, if k < |prefix| then prefix[k] else last)
      {
      }
    }
  }

  // ----- a contradictory list never settles -----

  ghost predicate IdsConsistent(found: seq<Found>) {
    forall i, j | 0 <= i < |found| && 0 <= j < |found| && found[i].id == found[j].id && found[i].id != "" ::
      found[i].address == found[j].address
  }

  /** A profile that grew out of nothing: addresses are distinct and every name
      came from an entry with the node's own address. */
  ghost predicate GrownFrom(nodes: Profile, found: seq<Found>) {
    && (forall i, j | 0 <= i < j < |nodes| :: nodes[i].address != nodes[j].address)
    && (forall i | 0 <= i < |nodes| && nodes[i].name.Some? ::
          nodes[i].name.value != "" && Found(nodes[i].address, nodes[i].name.value) in found)
  }

  lemma GrowsByOne(nodes: Profile, prefix: seq<Found>, last: Found)
    requires GrownFrom(nodes, prefix) && IdsConsistent(prefix + [last])
    ensures GrownFrom(MergeOne(nodes, last), prefix + [last])
  {
    var found := prefix + [last];
    assert found[|prefix|] == last && forall f | f in prefix :: f in found;
    match Match(nodes, last) {
      case Some(i) =>
        if nodes[i].name == Some(last.id) {
          var k :| 0 <= k < |prefix| && prefix[k] == Found(nodes[i].address, last.id);
          assert found[k] == prefix[k];
        }
      case None =>
    }
  }

  lemma {:induction false} GrownFromNothing(found: seq<Found>)
    requires IdsConsistent(found)
    ensures GrownFrom(MergeAll([], found), found)
  {
    if |found| > 0 {
      var prefix, last := found[..|found| - 1], found[|found| - 1];
      assert found == prefix + [last];
      GrownFromNothing(prefix);
      GrowsByOne(MergeAll([], prefix), prefix, last);
    }
  }

  /** With distinct addresses, two settled entries cannot contradict each other. */
  lemma SettledTogetherAgree(nodes: Profile, f: Found, g: Found)
    requires forall i, j | 0 <= i < j < |nodes| :: nodes[i].address != nodes[j].address
    requires Settled(nodes, f) && Settled(nodes, g)
    ensures Agree(f, g)
  {
  }

  lemma ContradictionNeverSettles(found: seq<Found>)
    requires !Consistent(found)
    ensures Updated(MergeAll([], found), found)
  {
    var nodes := MergeAll([], found);
    NotUpdatedIffSettled(nodes, found);
    if !Updated(nodes, found) {
      assert IdsConsistent(found);
      GrownFromNothing(found);
      forall i, j | 0 <= i < |found| && 0 <= j < |found| ensures Agree(found[i], found[j]) {
        SettledTogetherAgree(nodes, found[i], found[j]);
      }
    }
  }

  ghost predicate SecondMergeIsIdle(nodes: Profile, found: seq<Found>) {
    var once := MergeAll(nodes, found);
    !Updated(once, found) && MergeAll(once, found) == once
  }

  /** Merge is stable.  Merging a list again changes nothing and reports no
      update, whatever profile one started from, exactly when the list is
      consistent. */
  lemma MergeStableIffConsistent(found: seq<Found>)
    ensures Consistent(found) <==>
            forall nodes: Profile :: SecondMergeIsIdle(nodes, found)
  {
    if Consistent(found) {
      forall nodes: Profile
        ensures SecondMergeIsIdle(nodes, found)
      {
        MergeSettlesAll(nodes, found);
        NotUpdatedIffSettled(MergeAll(nodes, found), found);
        MergeFrame(MergeAll(nodes, found), found);
      }
    } else {
      ContradictionNeverSettles(found);
      assert !SecondMergeIsIdle([], found);
    }
  }

  /** Distinct addresses and distinct non-empty identifiers make a list consistent. */
  lemma DistinctIsConsistent(found: seq<Found>)
    requires forall i, j | 0 <= i < j < |found| :: found[i].address != found[j].address
    requires forall i, j | 0 <= i < j < |found| && found[i].id != "" :: found[i].id != found[j].id
    ensures Consistent(found)
  {
  }
}
