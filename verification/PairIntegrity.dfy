/** Whether a stored certificate and the key beside it belong together, for the CA
    and for the client, over any run of the calls that touch them: ensuring the
    CA, issuing leaf certificates, `ca init` with and without `--force`, and
    migrating. */
module PairIntegrity {
  import opened Wrappers
  import opened Credentials

  datatype CaCall =
    | Ensure(ca: CaOutcomes)
    | Issue(kind: LeafKind, leaf: LeafOutcomes)
    | Init(force: bool, init: InitOutcomes)
    | Migration(dryRun: bool, env: Environment)

  /** The two pairs the stores hold. */
  datatype Owner = Cluster | OwnClient

  function CertOf(owner: Owner): Account {
    if owner.Cluster? then CaCert else ClientCert
  }

  function KeyOf(owner: Owner): Account {
    if owner.Cluster? then CaKey else ClientKey
  }

  /** The stores after some calls, and the pairs known to belong together: those
      of old and those generated on the way. */
  datatype History = History(stores: Stores, cas: set<Pair>, leaves: set<Pair>)

  function Known(h: History, owner: Owner): set<Pair> {
    if owner.Cluster? then h.cas else h.leaves
  }

  function CaCallResult(entries: Entries, call: CaCall): CaResult
    requires !call.Migration?
  {
    match call
    case Ensure(o) => EnsureCa(entries, o)
    case Issue(kind, o) => IssueLeaf(entries, kind, o)
    case Init(force, o) => InitCa(entries, force, o)
  }

  /** A call gets as far as signing a client certificate. */
  predicate Signs(entries: Entries, call: CaCall) {
    call.Issue? && call.kind.Client? && call.leaf.leaf.Some? && EnsureCa(entries, call.leaf.ca).answer.Ok?
  }

  /** The pair a call generates, whether or not it gets stored. */
  function Made(h: History, owner: Owner, call: CaCall): set<Pair> {
    if owner.Cluster? && !call.Migration? && CaCallResult(h.stores.current, call).made.Some? then
      {CaCallResult(h.stores.current, call).made.value}
    else if owner.OwnClient? && Signs(h.stores.current, call) then {call.leaf.leaf.value}
    else {}
  }

  function Later(h: History, call: CaCall): History {
    var stores := if call.Migration? then Migrate(h.stores, MIGRATION_ACCOUNTS, call.dryRun, call.env).0
                  else h.stores.(current := CaCallResult(h.stores.current, call).entries);
    History(stores, h.cas + Made(h, Cluster, call), h.leaves + Made(h, OwnClient, call))
  }

  function After(start: History, run: seq<CaCall>): History {
    if |run| == 0 then start else Later(After(start, run[..|run| - 1]), run[|run| - 1])
  }

  predicate HasPair(entries: Entries, owner: Owner) {
    CertOf(owner) in entries && KeyOf(owner) in entries
  }

  /** The stored certificate and key come from different generations. */
  predicate Mixed(h: History, owner: Owner) {
    && HasPair(h.stores.current, owner)
    && (h.stores.current[CertOf(owner)], h.stores.current[KeyOf(owner)]) !in Known(h, owner)
  }

  // ----- which calls mix generations -----

  /** A new CA certificate is stored beside an old key: the key was there without a
      certificate, and only the last write fails. */
  predicate StrandsKey(entries: Entries, o: CaOutcomes) {
    && CaKey in entries && CaCert !in entries
    && o.getCert && o.getKey && o.generated.Some? && o.setCert && !o.setKey
  }

  /** The account is taken over from the legacy store. */
  predicate Moves(s: Stores, account: Account, dryRun: bool, o: Outcomes) {
    && !dryRun && account !in s.current && account in s.legacy
    && o.getOk && o.readOk && !o.deletion.Refused? && o.setOk
  }

  /** The value that a migration leaves in the new store. */
  function ValueAfter(s: Stores, account: Account, dryRun: bool, o: Outcomes): Option<string> {
    if Moves(s, account, dryRun, o) then Value(s.legacy, account) else Value(s.current, account)
  }

  /** A migration takes over a half, or both, of what does not belong together. */
  predicate MovesApart(h: History, owner: Owner, dryRun: bool, env: Environment) {
    var certAccount, keyAccount := CertOf(owner), KeyOf(owner);
    var cert := ValueAfter(h.stores, certAccount, dryRun, env(certAccount));
    var key := ValueAfter(h.stores, keyAccount, dryRun, env(keyAccount));
    && (Moves(h.stores, certAccount, dryRun, env(certAccount)) || Moves(h.stores, keyAccount, dryRun, env(keyAccount)))
    && cert.Some? && key.Some? && (cert.value, key.value) !in Known(h, owner)
  }

  predicate MixesCa(h: History, call: CaCall) {
    match call
    case Ensure(o) => StrandsKey(h.stores.current, o)
    case Issue(_, o) => StrandsKey(h.stores.current, o.ca)
    case Init(force, o) => StrandsKey(if force then Cleared(h.stores.current, o) else h.stores.current, o.ca)
    case Migration(dryRun, env) => MovesApart(h, Cluster, dryRun, env)
  }

  /** A client certificate is replaced beside a key that is not. */
  predicate MixesClient(h: History, call: CaCall) {
    if call.Migration? then MovesApart(h, OwnClient, call.dryRun, call.env)
    else Signs(h.stores.current, call) && ClientKey in h.stores.current && call.leaf.setCert && !call.leaf.setKey
  }

  predicate Mixes(h: History, owner: Owner, call: CaCall) {
    if owner.Cluster? then MixesCa(h, call) else MixesClient(h, call)
  }

  /** A forced `ca init` that removes an entry takes a CA pair apart. */
  predicate Clears(call: CaCall) {
    call.Init? && call.force && (call.init.certDeletion.Removed? || call.init.keyDeletion.Removed?)
  }

  /** What was mixed is so no more: the CA pair taken apart, the client's replaced. */
  predicate Ends(h: History, owner: Owner, call: CaCall) {
    if owner.Cluster? then Clears(call)
    else Signs(h.stores.current, call) && call.leaf.setCert && call.leaf.setKey
  }

  /** What is generated was not there before. */
  ghost predicate Fresh(h: History, owner: Owner, call: CaCall) {
    forall made | made in Made(h, owner, call) ::
      && (forall pair | pair in Known(h, owner) :: pair.0 != made.0)
      && Value(h.stores.current, KeyOf(owner)) != Some(made.1)
  }

  lemma MigratedIsStored(s: Stores, dryRun: bool, env: Environment, account: Account)
    ensures Value(Migrate(s, MIGRATION_ACCOUNTS, dryRun, env).0.current, account) ==
            ValueAfter(s, account, dryRun, env(account))
  {
    MigrationAccountsDistinct();
    MigratedAlone(s, MIGRATION_ACCOUNTS, dryRun, env, account);
  }

  /** Ensuring the CA on what a call has left of the entries. */
  lemma EnsureMixesIff(h: History, entries: Entries, o: CaOutcomes)
    requires Value(entries, CaKey).Some? ==> Value(entries, CaKey) == Value(h.stores.current, CaKey)
    requires EnsureCa(entries, o).made.Some? ==>
               && (forall pair | pair in h.cas :: pair.0 != o.generated.value.0)
               && Value(h.stores.current, CaKey) != Some(o.generated.value.1)
    ensures var r := EnsureCa(entries, o);
            var made := if r.made.Some? then {r.made.value} else {};
            Mixed(h.(stores := h.stores.(current := r.entries), cas := h.cas + made), Cluster)
            <==> StrandsKey(entries, o) || Mixed(h.(stores := h.stores.(current := entries)), Cluster)
  {
  }

  lemma InitMixesIff(h: History, force: bool, o: InitOutcomes)
    requires Fresh(h, Cluster, Init(force, o))
    ensures Mixed(Later(h, Init(force, o)), Cluster) <==>
            MixesCa(h, Init(force, o)) || (Mixed(h, Cluster) && !Clears(Init(force, o)))
  {
    var current, call := h.stores.current, Init(force, o);
    if force || !o.rootRead || CaCert !in current {
      var left := if force then Cleared(current, o) else current;
      assert EnsureCa(left, o.ca).made.Some? ==> EnsureCa(left, o.ca).made.value in Made(h, Cluster, call);
      EnsureMixesIff(h, left, o.ca);
    }
  }

  lemma MigrationMixesIff(h: History, owner: Owner, dryRun: bool, env: Environment)
    ensures Mixed(Later(h, Migration(dryRun, env)), owner) <==> MovesApart(h, owner, dryRun, env) || Mixed(h, owner)
  {
    MigratedIsStored(h.stores, dryRun, env, CertOf(owner));
    MigratedIsStored(h.stores, dryRun, env, KeyOf(owner));
  }

  lemma CaCallMixesIff(h: History, call: CaCall)
    requires Fresh(h, Cluster, call) && !call.Migration?
    ensures Mixed(Later(h, call), Cluster) <==> MixesCa(h, call) || (Mixed(h, Cluster) && !Clears(call))
  {
    match call {
      case Ensure(o) => EnsureMixesIff(h, h.stores.current, o);
      case Issue(_, o) => EnsureMixesIff(h, h.stores.current, o.ca);
      case Init(force, o) => InitMixesIff(h, force, o);
    }
  }

  /** A call that signs no client certificate leaves the client's entries alone. */
  lemma SignsOrKeeps(entries: Entries, call: CaCall, account: Account)
    requires !call.Migration? && !Signs(entries, call) && (account.ClientCert? || account.ClientKey?)
    ensures Value(CaCallResult(entries, call).entries, account) == Value(entries, account)
  {
  }

  lemma ClientCallMixesIff(h: History, call: CaCall)
    requires Fresh(h, OwnClient, call) && !call.Migration?
    ensures Mixed(Later(h, call), OwnClient) <==>
            MixesClient(h, call) || (Mixed(h, OwnClient) && !Ends(h, OwnClient, call))
  {
    var current, after := h.stores.current, Later(h, call);
    if Signs(current, call) {
      assert Made(h, OwnClient, call) == {call.leaf.leaf.value};
    } else {
      SignsOrKeeps(current, call, ClientCert);
      SignsOrKeeps(current, call, ClientKey);
      assert HasPair(after.stores.current, OwnClient) <==> HasPair(current, OwnClient);
    }
  }

  /** From any stores whatsoever, a call leaves a certificate with the key of
      another generation exactly when it mixes them or finds them so and neither
      takes them apart nor replaces both. */
  lemma CallMixesIff(h: History, owner: Owner, call: CaCall)
    requires Fresh(h, owner, call)
    ensures Mixed(Later(h, call), owner) <==> Mixes(h, owner, call) || (Mixed(h, owner) && !Ends(h, owner, call))
  {
    if call.Migration? {
      MigrationMixesIff(h, owner, call.dryRun, call.env);
    } else if owner.Cluster? {
      CaCallMixesIff(h, call);
    } else {
      ClientCallMixesIff(h, call);
    }
  }

  // ----- whole runs -----

  ghost predicate FreshRun(start: History, owner: Owner, run: seq<CaCall>) {
    forall k | 0 <= k < |run| :: Fresh(After(start, run[..k]), owner, run[k])
  }

  lemma FreshPrefix(start: History, owner: Owner, run: seq<CaCall>)
    requires |run| > 0 && FreshRun(start, owner, run)
    ensures FreshRun(start, owner, run[..|run| - 1])
    ensures Fresh(After(start, run[..|run| - 1]), owner, run[|run| - 1])
  {
    var n := |run| - 1;
    assert forall k | 0 <= k < n :: run[..n][..k] == run[..k] && run[..n][k] == run[k];
  }

  /** For each call of a run, whether it mixes the pair. */
  function MixesAlong(start: History, owner: Owner, run: seq<CaCall>): (r: seq<bool>)
    ensures |r| == |run|
  {
    if |run| == 0 then []
    else
      var n := |run| - 1;
      MixesAlong(start, owner, run[..n]) + [Mixes(After(start, run[..n]), owner, run[n])]
  }

  /** For each call of a run, whether it ends what was mixed. */
  function EndsAlong(start: History, owner: Owner, run: seq<CaCall>): (r: seq<bool>)
    ensures |r| == |run|
  {
    if |run| == 0 then []
    else
      var n := |run| - 1;
      EndsAlong(start, owner, run[..n]) + [Ends(After(start, run[..n]), owner, run[n])]
  }

  /** It happened, at first or by some call, and no later call ended it. */
  predicate NotEndedSince(first: bool, happens: seq<bool>, ends: seq<bool>)
    requires |happens| == |ends|
  {
    || (first && forall j | 0 <= j < |ends| :: !ends[j])
    || exists k | 0 <= k < |happens| :: happens[k] && forall j | k < j < |ends| :: !ends[j]
  }

  lemma NotEndedSinceOneMore(first: bool, happens: seq<bool>, ends: seq<bool>, happensNow: bool, endsNow: bool)
    requires |happens| == |ends|
    ensures NotEndedSince(first, happens + [happensNow], ends + [endsNow]) <==>
            happensNow || (NotEndedSince(first, happens, ends) && !endsNow)
  {
    var n, happens', ends' := |ends|, happens + [happensNow], ends + [endsNow];
    assert happens'[n] == happensNow && ends'[n] == endsNow;
    assert forall j | 0 <= j < n :: ends'[j] == ends[j] && happens'[j] == happens[j];
    if !endsNow && exists k | 0 <= k < n :: happens[k] && forall j | k < j < n :: !ends[j] {
      var k :| 0 <= k < n && happens[k] && forall j | k < j < n :: !ends[j];
      assert happens'[k] && forall j | k < j < |ends'| :: !ends'[j];
    }
  }

  /** Pair integrity, for every run from any stores: what is stored at the end is
      mixed exactly when some call mixed it, or it was mixed from the start, and
      no call has ended that since. */
  lemma {:induction false} PairMixedIff(start: History, owner: Owner, run: seq<CaCall>)
    requires FreshRun(start, owner, run)
    ensures Mixed(After(start, run), owner) <==>
            NotEndedSince(Mixed(start, owner), MixesAlong(start, owner, run), EndsAlong(start, owner, run))
  {
    if |run| > 0 {
      var n := |run| - 1;
      var before := After(start, run[..n]);
      FreshPrefix(start, owner, run);
      PairMixedIff(start, owner, run[..n]);
      CallMixesIff(before, owner, run[n]);
      NotEndedSinceOneMore(Mixed(start, owner), MixesAlong(start, owner, run[..n]), EndsAlong(start, owner, run[..n]),
                           Mixes(before, owner, run[n]), Ends(before, owner, run[n]));
    }
  }

  /** A CA key is never without its certificate, and both belong together. */
  ghost predicate Sound(h: History) {
    CaKey in h.stores.current ==> CaCert in h.stores.current && !Mixed(h, Cluster)
  }

  /** A call that cannot strand a key: no real migration, and no forced
      `ca init` that removes the certificate but not the key. */
  predicate Careful(call: CaCall) {
    match call
    case Init(force, o) => force && o.certDeletion.Removed? ==> o.keyDeletion.Removed?
    case Migration(dryRun, _) => dryRun
    case _ => true
  }

  lemma CarefulCallKeepsSound(h: History, call: CaCall)
    requires Sound(h) && Careful(call)
    ensures Sound(Later(h, call))
  {
    if call.Migration? {
      DryRunWritesNothing(h.stores, MIGRATION_ACCOUNTS, call.env);
    }
  }

  /** From a sound store, such as an empty one, every run of careful calls keeps
      the pair sound, whatever store operations fail. */
  lemma {:induction false} CarefulRunsStaySound(start: History, run: seq<CaCall>)
    requires Sound(start) && forall k | 0 <= k < |run| :: Careful(run[k])
    ensures Sound(After(start, run))
  {
    if |run| > 0 {
      CarefulRunsStaySound(start, run[..|run| - 1]);
      CarefulCallKeepsSound(After(start, run[..|run| - 1]), run[|run| - 1]);
    }
  }

  lemma CallKeepsPair(h: History, call: CaCall)
    requires HasCa(h.stores.current) && !Clears(call)
    ensures HasCa(Later(h, call).stores.current)
    ensures Later(h, call).stores.current[CaCert] == h.stores.current[CaCert]
    ensures Later(h, call).stores.current[CaKey] == h.stores.current[CaKey]
  {
    if call.Migration? {
      MigratedIsStored(h.stores, call.dryRun, call.env, CaCert);
      MigratedIsStored(h.stores, call.dryRun, call.env, CaKey);
      assert forall a, entries: Entries :: a in entries <==> Value(entries, a).Some?;
    }
  }

  /** Once both entries are present they never change, migrations included, but
      by a forced `ca init`. */
  lemma {:induction false} CompletePairStays(start: History, run: seq<CaCall>)
    requires HasCa(start.stores.current) && forall k | 0 <= k < |run| :: !Clears(run[k])
    ensures HasCa(After(start, run).stores.current)
    ensures After(start, run).stores.current[CaCert] == start.stores.current[CaCert]
    ensures After(start, run).stores.current[CaKey] == start.stores.current[CaKey]
  {
    if |run| > 0 {
      CompletePairStays(start, run[..|run| - 1]);
      CallKeepsPair(After(start, run[..|run| - 1]), run[|run| - 1]);
    }
  }

  // ----- what a ready report is worth -----

  /** A migration that reports the CA ready leaves a mixed pair exactly when what
      could be got for the two accounts did not belong together. */
  lemma ReadyMixedIff(h: History, env: Environment)
    ensures var (after, report) := Migrate(h.stores, MIGRATION_ACCOUNTS, false, env);
            && |report| == |MIGRATION_ACCOUNTS|
            && (CaReady(MIGRATION_ACCOUNTS, report) ==>
                  && Effective(h.stores, CaCert).Some? && Effective(h.stores, CaKey).Some?
                  && (Mixed(h.(stores := after), Cluster) <==>
                      (Effective(h.stores, CaCert).value, Effective(h.stores, CaKey).value) !in h.cas))
  {
    CaReadyMeans(h.stores, env);
    MigratedIsStored(h.stores, false, env, CaCert);
    MigratedIsStored(h.stores, false, env, CaKey);
    var after := Migrate(h.stores, MIGRATION_ACCOUNTS, false, env).0;
    assert forall a :: a in after.current <==> Value(after.current, a).Some?;
  }

  /** It does happen: creating the CA stores the certificate only, and a
      migration then finds a key in the legacy store. */
  lemma ReadyCanBeMixed(former: Pair, pair: Pair, env: Environment)
    requires pair.0 != former.0 && pair.1 != former.1
    requires NothingFails(env(CaCert)) && NothingFails(env(CaKey))
    ensures var start := History(Stores(map[], map[CaKey := former.1]), {former}, {});
            var h := After(start, [Ensure(CaOutcomes(true, true, Some(pair), true, false))]);
            var (after, report) := Migrate(h.stores, MIGRATION_ACCOUNTS, false, env);
            && |report| == |MIGRATION_ACCOUNTS| && CaReady(MIGRATION_ACCOUNTS, report)
            && Mixed(h.(stores := after), Cluster)
  {
    var start := History(Stores(map[], map[CaKey := former.1]), {former}, {});
    var run := [Ensure(CaOutcomes(true, true, Some(pair), true, false))];
    assert After(start, run[..0]) == start;
    var h := After(start, run);
    assert h == Later(start, run[0]);
    CaReadyMeans(h.stores, env);
    ReadyMixedIff(h, env);
  }
}
