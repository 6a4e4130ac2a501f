/** The credentials the client keeps in the platform's keyring: creating the
    cluster CA, issuing leaf certificates and migrating from a legacy store.
    Every store operation may fail; a write that fails leaves its entry as it was. */
module Credentials {
  import opened Wrappers

  /** The four keyring accounts. */
  datatype Account = CaCert | CaKey | ClientCert | ClientKey

  type Entries = map<Account, string>

  function Value(entries: Entries, account: Account): Option<string> {
    if account in entries then Some(entries[account]) else None
  }

  /** A certificate and its key, in text form. */
  type Pair = (string, string)

  datatype CredentialError = GetFailed | SetFailed | GenerateFailed | AlreadyExists

  // ----- the cluster CA -----

  /** How the operations of one call come out: which succeed, and what
      generating a CA would yield. */
  datatype CaOutcomes = CaOutcomes(getCert: bool, getKey: bool, generated: Option<Pair>, setCert: bool, setKey: bool)

  /** The entries and the answer of a call, and the CA pair it generated, if any. */
  datatype CaResult = CaResult(entries: Entries, answer: Result<Pair, CredentialError>, made: Option<Pair>)

  function EnsureCa(entries: Entries, o: CaOutcomes): CaResult {
    if !o.getCert || !o.getKey then CaResult(entries, Err(GetFailed), None)
    else if CaCert in entries && CaKey in entries then
      CaResult(entries, Ok((entries[CaCert], entries[CaKey])), None)
    else
      match o.generated
      case None => CaResult(entries, Err(GenerateFailed), None)
      case Some(pair) =>
        if !o.setCert then CaResult(entries, Err(SetFailed), Some(pair))
        else if !o.setKey then CaResult(entries[CaCert := pair.0], Err(SetFailed), Some(pair))
        else CaResult(entries[CaCert := pair.0][CaKey := pair.1], Ok(pair), Some(pair))
  }

  datatype LeafKind = Daemon | Client

  datatype LeafOutcomes = LeafOutcomes(ca: CaOutcomes, leaf: Option<Pair>, setCert: bool, setKey: bool)

  function IssueLeaf(entries: Entries, kind: LeafKind, o: LeafOutcomes): CaResult {
    var ca := EnsureCa(entries, o.ca);
    match (ca.answer, o.leaf)
    case (Err(_), _) => ca
    case (_, None) => ca.(answer := Err(GenerateFailed))
    case (_, Some(leaf)) =>
      if kind.Daemon? then ca.(answer := Ok(leaf))
      else if !o.setCert then ca.(answer := Err(SetFailed))
      else
        var withCert := ca.entries[ClientCert := leaf.0];
        if !o.setKey then ca.(entries := withCert, answer := Err(SetFailed))
        else ca.(entries := withCert[ClientKey := leaf.1], answer := Ok(leaf))
  }

  /** A deletion removes its entry, claims success without doing so, or fails. */
  datatype Deletion = Removed | Ignored | Refused

  datatype InitOutcomes = InitOutcomes(rootRead: bool, certDeletion: Deletion, keyDeletion: Deletion, ca: CaOutcomes)

  /** What the deletions of a forced `ca init` leave; those that fail are ignored. */
  function Cleared(entries: Entries, o: InitOutcomes): Entries {
    var withoutCert := if o.certDeletion.Removed? then entries - {CaCert} else entries;
    if o.keyDeletion.Removed? then withoutCert - {CaKey} else withoutCert
  }

  /** `ca init`, with or without `--force`. */
  function InitCa(entries: Entries, force: bool, o: InitOutcomes): CaResult {
    if !force && o.rootRead && CaCert in entries then CaResult(entries, Err(AlreadyExists), None)
    else EnsureCa(if force then Cleared(entries, o) else entries, o.ca)
  }

  // ----- what these calls answer and store -----

  predicate HasCa(entries: Entries) {
    CaCert in entries && CaKey in entries
  }

  /** A call gets as far as generating a pair, and generates it. */
  predicate Generates(entries: Entries, o: CaOutcomes) {
    o.getCert && o.getKey && !HasCa(entries) && o.generated.Some?
  }

  /** Every answer is the stored pair, and there is one exactly when nothing that
      was needed failed. */
  lemma EnsureAnswersStored(entries: Entries, o: CaOutcomes)
    ensures var r := EnsureCa(entries, o);
            r.answer.Ok? ==> HasCa(r.entries) && r.answer.value == (r.entries[CaCert], r.entries[CaKey])
    ensures EnsureCa(entries, o).answer.Ok? <==>
            o.getCert && o.getKey && (HasCa(entries) || (o.generated.Some? && o.setCert && o.setKey))
    ensures var r := EnsureCa(entries, o);
            r.answer.Err? ==> r.answer.error == if !o.getCert || !o.getKey then GetFailed
                                                else if o.generated.None? then GenerateFailed else SetFailed
  {
  }

  /** What is stored changes only by a pair generated because one half was missing:
      the certificate is written first, the key only after it, nothing else. */
  lemma EnsureStores(entries: Entries, o: CaOutcomes)
    ensures var r := EnsureCa(entries, o);
            && r.made == (if Generates(entries, o) then o.generated else None)
            && Value(r.entries, CaCert) ==
               (if Generates(entries, o) && o.setCert then Some(o.generated.value.0) else Value(entries, CaCert))
            && Value(r.entries, CaKey) ==
               (if Generates(entries, o) && o.setCert && o.setKey then Some(o.generated.value.1)
                else Value(entries, CaKey))
            && Value(r.entries, ClientCert) == Value(entries, ClientCert)
            && Value(r.entries, ClientKey) == Value(entries, ClientKey)
  {
  }

  /** Without `--force` an existing certificate that can be read is never touched:
      the command refuses, and exactly then. */
  lemma InitRefusesIff(entries: Entries, force: bool, o: InitOutcomes)
    ensures InitCa(entries, force, o).answer == Err(AlreadyExists) <==> !force && o.rootRead && CaCert in entries
    ensures InitCa(entries, force, o).answer == Err(AlreadyExists) ==>
              InitCa(entries, force, o).entries == entries && InitCa(entries, force, o).made == None
  {
  }

  /** With it both halves are deleted, as far as the store lets it, and then the CA
      is ensured: where nothing fails the answer is the newly generated pair. */
  lemma ForcedInitRenews(entries: Entries, o: InitOutcomes)
    ensures var left := map a | a in entries
                            && !(a == CaCert && o.certDeletion.Removed?) && !(a == CaKey && o.keyDeletion.Removed?)
                          :: entries[a];
            InitCa(entries, true, o) == EnsureCa(left, o.ca)
    ensures o.certDeletion.Removed? && o.ca.getCert && o.ca.getKey
            && o.ca.generated.Some? && o.ca.setCert && o.ca.setKey ==>
              var r := InitCa(entries, true, o);
              && r.answer == Ok(o.ca.generated.value)
              && Value(r.entries, CaCert) == Some(o.ca.generated.value.0)
              && Value(r.entries, CaKey) == Some(o.ca.generated.value.1)
  {
    assert Cleared(entries, o) ==
           map a | a in entries
             && !(a == CaCert && o.certDeletion.Removed?) && !(a == CaKey && o.keyDeletion.Removed?)
           :: entries[a];
  }

  /** And without it, if it does not refuse, nothing is deleted. */
  lemma PlainInitEnsures(entries: Entries, o: InitOutcomes)
    requires !(o.rootRead && CaCert in entries)
    ensures InitCa(entries, false, o) == EnsureCa(entries, o.ca)
  {
  }

  /** The CA a leaf is signed by is the ensured one; a client's certificate and then
      its key are stored, a daemon's are not; and the answer is the leaf exactly
      if nothing needed failed. */
  lemma IssueLeafWrites(entries: Entries, kind: LeafKind, o: LeafOutcomes)
    ensures var r, ca := IssueLeaf(entries, kind, o), EnsureCa(entries, o.ca);
            var stores := kind.Client? && ca.answer.Ok? && o.leaf.Some?;
            && r.made == ca.made
            && Value(r.entries, CaCert) == Value(ca.entries, CaCert)
            && Value(r.entries, CaKey) == Value(ca.entries, CaKey)
            && Value(r.entries, ClientCert) ==
               (if stores && o.setCert then Some(o.leaf.value.0) else Value(entries, ClientCert))
            && Value(r.entries, ClientKey) ==
               (if stores && o.setCert && o.setKey then Some(o.leaf.value.1) else Value(entries, ClientKey))
            && (r.answer.Ok? <==> ca.answer.Ok? && o.leaf.Some? && (kind.Daemon? || (o.setCert && o.setKey)))
            && (r.answer.Ok? ==> r.answer.value == o.leaf.value)
            && (r.answer.Err? ==> r.answer.error == if ca.answer.Err? then ca.answer.error
                                                    else if o.leaf.None? then GenerateFailed else SetFailed)
  {
  }

  /** Issuing a client certificate stores the pair it answers; a daemon's leaves
      the stored one alone; and the client certificate is replaced without its key
      exactly when only the last write fails. */
  lemma IssueLeafStores(entries: Entries, kind: LeafKind, o: LeafOutcomes)
    ensures var r := IssueLeaf(entries, kind, o);
            && (kind.Client? && r.answer.Ok? ==>
                  && Value(r.entries, ClientCert) == Some(r.answer.value.0)
                  && Value(r.entries, ClientKey) == Some(r.answer.value.1))
            && (kind.Daemon? ==>
                  && Value(r.entries, ClientCert) == Value(entries, ClientCert)
                  && Value(r.entries, ClientKey) == Value(entries, ClientKey))
            && (o.leaf.Some?
                && Value(entries, ClientCert) != Some(o.leaf.value.0)
                && Value(entries, ClientKey) != Some(o.leaf.value.1) ==>
                  (&& Value(r.entries, ClientCert) == Some(o.leaf.value.0)
                   && Value(r.entries, ClientKey) != Some(o.leaf.value.1)
                   <==>
                   kind.Client? && EnsureCa(entries, o.ca).answer.Ok? && o.setCert && !o.setKey))
  {
  }

  // ----- migration from the legacy store -----

  const MIGRATION_ACCOUNTS: seq<Account> := [CaCert, CaKey, ClientCert, ClientKey]

  datatype Stores = Stores(current: Entries, legacy: Entries)

  datatype Outcomes = Outcomes(getOk: bool, readOk: bool, deletion: Deletion, setOk: bool)

  datatype FailedStep = Getting | Reading | Deleting | Setting

  datatype Status = AlreadyPresent | Migrated | NotFound | Conflict | Failed(step: FailedStep)

  function MigrateAccount(s: Stores, account: Account, dryRun: bool, o: Outcomes): (Stores, Status) {
    if !o.getOk then (s, Failed(Getting))
    else if !o.readOk then (s, Failed(Reading))
    else
      match (Value(s.current, account), Value(s.legacy, account))
      case (Some(cur), Some(leg)) => if cur != leg then (s, Conflict) else (s, AlreadyPresent)
      case (Some(_), None) => (s, AlreadyPresent)
      case (None, None) => (s, NotFound)
      case (None, Some(value)) =>
        if dryRun then (s, Migrated)
        else if o.deletion.Refused? then (s, Failed(Deleting))
        else
          var left := if o.deletion.Removed? then s.legacy - {account} else s.legacy;
          if o.setOk then (Stores(s.current[account := value], left), Migrated)
          else (Stores(s.current, left), Failed(Setting))
  }

  /** The legacy value is wanted: nothing in the new store, and both could be read. */
  predicate Wanted(s: Stores, account: Account, o: Outcomes) {
    o.getOk && o.readOk && account !in s.current && account in s.legacy
  }

  /** What migrating one account does: the legacy entry is deleted first, then the
      new one written, and nothing else is touched, a dry run touching nothing. */
  lemma MigrationMoves(s: Stores, account: Account, dryRun: bool, o: Outcomes, a: Account)
    ensures var after := MigrateAccount(s, account, dryRun, o).0;
            var deletes := a == account && !dryRun && Wanted(s, account, o);
            && Value(after.legacy, a) == (if deletes && o.deletion.Removed? then None else Value(s.legacy, a))
            && Value(after.current, a) ==
               (if deletes && !o.deletion.Refused? && o.setOk then Value(s.legacy, a) else Value(s.current, a))
  {
  }

  /** What it reports. */
  lemma MigrationReports(s: Stores, account: Account, dryRun: bool, o: Outcomes)
    ensures var status := MigrateAccount(s, account, dryRun, o).1;
            && (status.NotFound? <==> o.getOk && o.readOk && account !in s.current && account !in s.legacy)
            && (status.Conflict? <==> o.getOk && o.readOk && account in s.current && account in s.legacy
                                      && s.current[account] != s.legacy[account])
            && (status.AlreadyPresent? <==> o.getOk && o.readOk && account in s.current
                                            && (account in s.legacy ==> s.current[account] == s.legacy[account]))
            && (status.Migrated? <==> Wanted(s, account, o) && (dryRun || (!o.deletion.Refused? && o.setOk)))
            && (status == Failed(Getting) <==> !o.getOk)
            && (status == Failed(Reading) <==> o.getOk && !o.readOk)
            && (status == Failed(Deleting) <==> Wanted(s, account, o) && !dryRun && o.deletion.Refused?)
            && (status == Failed(Setting) <==> Wanted(s, account, o) && !dryRun && !o.deletion.Refused? && !o.setOk)
  {
  }

  /** The outcomes of the operations on an account. */
  type Environment = Account -> Outcomes

  function Migrate(s: Stores, accounts: seq<Account>, dryRun: bool, env: Environment): (Stores, seq<Status>) {
    if |accounts| == 0 then (s, [])
    else
      var n := |accounts| - 1;
      var (before, report) := Migrate(s, accounts[..n], dryRun, env);
      var (after, status) := MigrateAccount(before, accounts[n], dryRun, env(accounts[n]));
      (after, report + [status])
  }

  ghost predicate Distinct(accounts: seq<Account>) {
    forall i, j | 0 <= i < j < |accounts| :: accounts[i] != accounts[j]
  }

  lemma MigrationAccountsDistinct()
    ensures Distinct(MIGRATION_ACCOUNTS) && forall a: Account :: a in MIGRATION_ACCOUNTS
  {
    var all := MIGRATION_ACCOUNTS;
    assert all[0] == CaCert && all[1] == CaKey && all[2] == ClientCert && all[3] == ClientKey;
    forall a: Account ensures a in all {
      match a
      case CaCert => assert all[0] in all;
      case CaKey => assert all[1] in all;
      case ClientCert => assert all[2] in all;
      case ClientKey => assert all[3] in all;
    }
  }

  /** Accounts are migrated independently: each ends as if it were the only one. */
  lemma {:induction false} MigratePointwise(s: Stores, accounts: seq<Account>, dryRun: bool, env: Environment)
    requires Distinct(accounts)
    ensures var (after, report) := Migrate(s, accounts, dryRun, env);
            && |report| == |accounts|
            && (forall i | 0 <= i < |accounts| ::
                  var (alone, status) := MigrateAccount(s, accounts[i], dryRun, env(accounts[i]));
                  && report[i] == status
                  && Value(after.current, accounts[i]) == Value(alone.current, accounts[i])
                  && Value(after.legacy, accounts[i]) == Value(alone.legacy, accounts[i]))
            && (forall a | a !in accounts ::
                  Value(after.current, a) == Value(s.current, a) && Value(after.legacy, a) == Value(s.legacy, a))
  {
    if |accounts| > 0 {
      var n := |accounts| - 1;
      var shorter, last := accounts[..n], accounts[n];
      assert accounts == shorter + [last];
      MigratePointwise(s, shorter, dryRun, env);
      assert last !in shorter;
      var (before, report) := Migrate(s, shorter, dryRun, env);
      MigrateAccountIsLocal(s, before, last, dryRun, env(last));
      var (after, whole) := Migrate(s, accounts, dryRun, env);
      forall i | 0 <= i < |accounts|
        ensures var (alone, status) := MigrateAccount(s, accounts[i], dryRun, env(accounts[i]));
                && whole[i] == status
                && Value(after.current, accounts[i]) == Value(alone.current, accounts[i])
                && Value(after.legacy, accounts[i]) == Value(alone.legacy, accounts[i])
      {
        if i < n {
          assert shorter[i] == accounts[i] && accounts[i] != last;
        }
      }
    }
  }

  lemma MigratedAlone(s: Stores, accounts: seq<Account>, dryRun: bool, env: Environment, a: Account)
    requires Distinct(accounts)
    ensures var after := Migrate(s, accounts, dryRun, env).0;
            var alone := if a in accounts then MigrateAccount(s, a, dryRun, env(a)).0 else s;
            Value(after.current, a) == Value(alone.current, a) && Value(after.legacy, a) == Value(alone.legacy, a)
  {
    MigratePointwise(s, accounts, dryRun, env);
    if a in accounts {
      var i :| 0 <= i < |accounts| && accounts[i] == a;
    }
  }

  /** Migrating an account reads and writes that account only. */
  lemma MigrateAccountIsLocal(s: Stores, u: Stores, account: Account, dryRun: bool, o: Outcomes)
    requires Value(s.current, account) == Value(u.current, account)
    requires Value(s.legacy, account) == Value(u.legacy, account)
    ensures var (s', status) := MigrateAccount(s, account, dryRun, o);
            var (u', status') := MigrateAccount(u, account, dryRun, o);
            && status == status'
            && Value(s'.current, account) == Value(u'.current, account)
            && Value(s'.legacy, account) == Value(u'.legacy, account)
            && (forall a | a != account ::
                  Value(u'.current, a) == Value(u.current, a) && Value(u'.legacy, a) == Value(u.legacy, a))
  {
  }

  /** What the client can still get for an account: the new store, else the legacy one. */
  function Effective(s: Stores, account: Account): Option<string> {
    if account in s.current then Some(s.current[account]) else Value(s.legacy, account)
  }

  /** The one way to lose a credential: the legacy entry is gone before the new
      one turns out not to be writable. */
  predicate Loses(s: Stores, account: Account, dryRun: bool, o: Outcomes) {
    !dryRun && account !in s.current && account in s.legacy
    && o.getOk && o.readOk && o.deletion.Removed? && !o.setOk
  }

  /** One account of a migration: its effective value stays unless it is lost,
      and its value in the new store stays in any case. */
  lemma MigrationConservesOne(s: Stores, accounts: seq<Account>, dryRun: bool, env: Environment, a: Account)
    requires Distinct(accounts)
    ensures var after := Migrate(s, accounts, dryRun, env).0;
            && (Effective(after, a) == Effective(s, a) <==> !(a in accounts && Loses(s, a, dryRun, env(a))))
            && (a in s.current ==> Value(after.current, a) == Value(s.current, a))
  {
    MigratedAlone(s, accounts, dryRun, env, a);
    var after := Migrate(s, accounts, dryRun, env).0;
    if a in accounts {
      EffectiveAlone(s, a, dryRun, env(a));
      SameEffective(after, MigrateAccount(s, a, dryRun, env(a)).0, a);
    } else {
      SameEffective(after, s, a);
    }
  }

  ghost predicate Conserves(s: Stores, after: Stores) {
    forall a :: Effective(after, a) == Effective(s, a)
  }

  /** Migration keeps every account's effective value exactly when no account is
      caught between deletion and writing; a value in the new store is never
      overwritten, whatever fails. */
  lemma MigrationConservesIff(s: Stores, accounts: seq<Account>, dryRun: bool, env: Environment)
    requires Distinct(accounts)
    ensures var after := Migrate(s, accounts, dryRun, env).0;
            && (Conserves(s, after) <==> forall a | a in accounts :: !Loses(s, a, dryRun, env(a)))
            && (forall a | a in s.current :: Value(after.current, a) == Value(s.current, a))
  {
    var after := Migrate(s, accounts, dryRun, env).0;
    forall a
      ensures Effective(after, a) == Effective(s, a) <==> !(a in accounts && Loses(s, a, dryRun, env(a)))
      ensures a in s.current ==> Value(after.current, a) == Value(s.current, a)
    {
      MigrationConservesOne(s, accounts, dryRun, env, a);
    }
  }

  lemma EffectiveAlone(s: Stores, account: Account, dryRun: bool, o: Outcomes)
    ensures Effective(MigrateAccount(s, account, dryRun, o).0, account) == Effective(s, account)
            <==> !Loses(s, account, dryRun, o)
  {
  }

  lemma SameEffective(s: Stores, u: Stores, account: Account)
    requires Value(s.current, account) == Value(u.current, account)
    requires Value(s.legacy, account) == Value(u.legacy, account)
    ensures Effective(s, account) == Effective(u, account)
  {
  }

  predicate NothingFails(o: Outcomes) {
    o.getOk && o.readOk && !o.deletion.Refused? && o.setOk
  }

  lemma {:induction false} DryRunWritesNothing(s: Stores, accounts: seq<Account>, env: Environment)
    ensures Migrate(s, accounts, true, env).0 == s
  {
    if |accounts| > 0 {
      DryRunWritesNothing(s, accounts[..|accounts| - 1], env);
    }
  }

  /** If no operation fails, a dry run writes nothing and reports what the real
      run reports; a second run reports what was migrated as present and the
      rest as before, and writes nothing. */
  lemma MigrationSettles(s: Stores, env: Environment, again: Environment)
    requires forall a | a in MIGRATION_ACCOUNTS :: NothingFails(env(a)) && NothingFails(again(a))
    ensures var (after, report) := Migrate(s, MIGRATION_ACCOUNTS, false, env);
            var (later, second) := Migrate(after, MIGRATION_ACCOUNTS, false, again);
            && Migrate(s, MIGRATION_ACCOUNTS, true, env) == (s, report)
            && |second| == |report|
            && (forall i | 0 <= i < |report| ::
                  second[i] == if report[i].Migrated? then AlreadyPresent else report[i])
            && (forall a :: Value(later.current, a) == Value(after.current, a)
                         && Value(later.legacy, a) == Value(after.legacy, a))
  {
    MigrationAccountsDistinct();
    var accounts := MIGRATION_ACCOUNTS;
    var (after, report) := Migrate(s, accounts, false, env);
    var (later, second) := Migrate(after, accounts, false, again);
    MigratePointwise(s, accounts, false, env);
    MigratePointwise(s, accounts, true, env);
    MigratePointwise(after, accounts, false, again);
    DryRunWritesNothing(s, accounts, env);
    var dry := Migrate(s, accounts, true, env).1;
    forall i | 0 <= i < |accounts| ensures dry[i] == report[i] {
      assert accounts[i] in accounts;
      var o := env(accounts[i]);
      assert MigrateAccount(s, accounts[i], true, o).1 == MigrateAccount(s, accounts[i], false, o).1;
    }
    assert dry == report;
    forall i | 0 <= i < |accounts|
      ensures second[i] == if report[i].Migrated? then AlreadyPresent else report[i]
      ensures Value(later.current, accounts[i]) == Value(after.current, accounts[i])
      ensures Value(later.legacy, accounts[i]) == Value(after.legacy, accounts[i])
    {
      assert accounts[i] in accounts;
      SettledAccount(s, after, accounts[i], env(accounts[i]), again(accounts[i]));
    }
    forall a
      ensures Value(later.current, a) == Value(after.current, a) && Value(later.legacy, a) == Value(after.legacy, a)
    {
      if a in accounts {
        var i :| 0 <= i < |accounts| && accounts[i] == a;
      }
    }
  }

  lemma SettledAccount(s: Stores, after: Stores, account: Account, o: Outcomes, again: Outcomes)
    requires NothingFails(o) && NothingFails(again)
    requires Value(after.current, account) == Value(MigrateAccount(s, account, false, o).0.current, account)
    requires Value(after.legacy, account) == Value(MigrateAccount(s, account, false, o).0.legacy, account)
    ensures var first := MigrateAccount(s, account, false, o).1;
            MigrateAccount(after, account, false, again) == (after, if first.Migrated? then AlreadyPresent else first)
  {
  }

  /** The report lets the client go on: both CA entries are there. */
  predicate CaReady(accounts: seq<Account>, report: seq<Status>)
    requires |accounts| == |report|
  {
    forall i | 0 <= i < |accounts| && (accounts[i] == CaCert || accounts[i] == CaKey) ::
      Ready(report[i])
  }

  predicate Disagrees(s: Stores, account: Account) {
    account in s.current && account in s.legacy && s.current[account] != s.legacy[account]
  }

  predicate Ready(status: Status) {
    status.AlreadyPresent? || status.Migrated?
  }

  lemma ReadyMeans(s: Stores, account: Account, o: Outcomes)
    ensures var (after, status) := MigrateAccount(s, account, false, o);
            && (Ready(status) ==> account in after.current)
            && (NothingFails(o) ==> (Ready(status) <==> Effective(s, account).Some? && !Disagrees(s, account)))
  {
  }

  /** A real migration that reports the CA ready has both entries in the new
      store, whatever failed; and if nothing fails it does so exactly when both
      were to be found and neither was there with two values. */
  lemma CaReadyMeans(s: Stores, env: Environment)
    ensures var (after, report) := Migrate(s, MIGRATION_ACCOUNTS, false, env);
            && |report| == |MIGRATION_ACCOUNTS|
            && (CaReady(MIGRATION_ACCOUNTS, report) ==> HasCa(after.current))
            && (NothingFails(env(CaCert)) && NothingFails(env(CaKey)) ==>
                  (CaReady(MIGRATION_ACCOUNTS, report) <==>
                     && Effective(s, CaCert).Some? && Effective(s, CaKey).Some?
                     && !Disagrees(s, CaCert) && !Disagrees(s, CaKey)))
  {
    MigrationAccountsDistinct();
    MigratePointwise(s, MIGRATION_ACCOUNTS, false, env);
    ReadyMeans(s, CaCert, env(CaCert));
    ReadyMeans(s, CaKey, env(CaKey));
    var (after, report) := Migrate(s, MIGRATION_ACCOUNTS, false, env);
    assert MIGRATION_ACCOUNTS[0] == CaCert && MIGRATION_ACCOUNTS[1] == CaKey;
    assert CaReady(MIGRATION_ACCOUNTS, report) <==> Ready(report[0]) && Ready(report[1]);
    assert CaCert in after.current <==> Value(after.current, CaCert).Some?;
    assert CaKey in after.current <==> Value(after.current, CaKey).Some?;
  }
}
