/** The stores as objects, and the operations that read and write them step by
    step. */
module KeyStoreObject {
  import opened Wrappers
  import opened Credentials

  class KeyStore {
    var entries: Entries

    constructor (entries: Entries)
      ensures this.entries == entries
    {
      this.entries := entries;
    }

    method Get(account: Account, ok: bool) returns (r: Result<Option<string>, CredentialError>)
      ensures r == if ok then Ok(Value(entries, account)) else Err(GetFailed)
    {
      if !ok {
        return Err(GetFailed);
      }
      r := Ok(if account in entries then Some(entries[account]) else None);
    }

    method Set(account: Account, value: string, ok: bool) returns (done: bool)
      modifies this
      ensures done == ok
      ensures entries == if ok then old(entries)[account := value] else old(entries)
    {
      if ok {
        entries := entries[account := value];
      }
      done := ok;
    }

    method Delete(account: Account, outcome: Deletion) returns (done: bool)
      modifies this
      ensures done == !outcome.Refused?
      ensures entries == if outcome.Removed? then old(entries) - {account} else old(entries)
    {
      if outcome.Removed? {
        entries := entries - {account};
      }
      done := !outcome.Refused?;
    }
  }

  method EnsureCaWithStore(store: KeyStore, o: CaOutcomes) returns (r: Result<Pair, CredentialError>)
    modifies store
    ensures store.entries == EnsureCa(old(store.entries), o).entries
    ensures r == EnsureCa(old(store.entries), o).answer
  {
    var cert := store.Get(CaCert, o.getCert);
    if cert.Err? {
      return Err(cert.error);
    }
    var key := store.Get(CaKey, o.getKey);
    if key.Err? {
      return Err(key.error);
    }
    if cert.value.Some? && key.value.Some? {
      return Ok((cert.value.value, key.value.value));
    }
    if o.generated.None? {
      return Err(GenerateFailed);
    }
    var pair := o.generated.value;
    var stored := store.Set(CaCert, pair.0, o.setCert);
    if !stored {
      return Err(SetFailed);
    }
    stored := store.Set(CaKey, pair.1, o.setKey);
    if !stored {
      return Err(SetFailed);
    }
    r := Ok(pair);
  }

  method InitCaWithStore(store: KeyStore, force: bool, o: InitOutcomes) returns (r: Result<Pair, CredentialError>)
    modifies store
    ensures store.entries == InitCa(old(store.entries), force, o).entries
    ensures r == InitCa(old(store.entries), force, o).answer
  {
    if !force {
      var root := store.Get(CaCert, o.rootRead);
      if root.Ok? && root.value.Some? {
        return Err(AlreadyExists);
      }
    }
    if force {
      var _ := store.Delete(CaCert, o.certDeletion);
      var _ := store.Delete(CaKey, o.keyDeletion);
    }
    r := EnsureCaWithStore(store, o.ca);
  }

  method IssueLeafWithStore(store: KeyStore, kind: LeafKind, o: LeafOutcomes) returns (r: Result<Pair, CredentialError>)
    modifies store
    ensures store.entries == IssueLeaf(old(store.entries), kind, o).entries
    ensures r == IssueLeaf(old(store.entries), kind, o).answer
  {
    var ca := EnsureCaWithStore(store, o.ca);
    if ca.Err? {
      return ca;
    }
    if o.leaf.None? {
      return Err(GenerateFailed);
    }
    var leaf := o.leaf.value;
    if kind.Client? {
      var stored := store.Set(ClientCert, leaf.0, o.setCert);
      if !stored {
        return Err(SetFailed);
      }
      stored := store.Set(ClientKey, leaf.1, o.setKey);
      if !stored {
        return Err(SetFailed);
      }
    }
    r := Ok(leaf);
  }

  method MigrateOne(store: KeyStore, legacy: KeyStore, account: Account, dryRun: bool, o: Outcomes)
    returns (status: Status)
    requires store != legacy
    modifies store, legacy
    ensures (Stores(store.entries, legacy.entries), status) ==
            MigrateAccount(Stores(old(store.entries), old(legacy.entries)), account, dryRun, o)
  {
    var current := store.Get(account, o.getOk);
    if current.Err? {
      return Failed(Getting);
    }
    var legacyValue := legacy.Get(account, o.readOk);
    if legacyValue.Err? {
      return Failed(Reading);
    }
    match (current.value, legacyValue.value) {
      case (Some(cur), Some(leg)) =>
        status := if cur != leg then Conflict else AlreadyPresent;
      case (Some(_), None) =>
        status := AlreadyPresent;
      case (None, None) =>
        status := NotFound;
      case (None, Some(value)) =>
        if dryRun {
          return Migrated;
        }
        var deleted := legacy.Delete(account, o.deletion);
        if !deleted {
          return Failed(Deleting);
        }
        var stored := store.Set(account, value, o.setOk);
        status := if stored then Migrated else Failed(Setting);
    }
  }

  method MigrateCaWithStores(store: KeyStore, legacy: KeyStore, dryRun: bool, env: Environment)
    returns (report: seq<Status>)
    requires store != legacy
    modifies store, legacy
    ensures (Stores(store.entries, legacy.entries), report) ==
            Migrate(Stores(old(store.entries), old(legacy.entries)), MIGRATION_ACCOUNTS, dryRun, env)
  {
    report := [];
    var k := 0;
    while k < |MIGRATION_ACCOUNTS|
      invariant k <= |MIGRATION_ACCOUNTS|
      invariant (Stores(store.entries, legacy.entries), report) ==
                Migrate(Stores(old(store.entries), old(legacy.entries)), MIGRATION_ACCOUNTS[..k], dryRun, env)
    {
      var account := MIGRATION_ACCOUNTS[k];
      assert MIGRATION_ACCOUNTS[..k + 1][..k] == MIGRATION_ACCOUNTS[..k];
      var status := MigrateOne(store, legacy, account, dryRun, env(account));
      report := report + [status];
      k := k + 1;
    }
    assert MIGRATION_ACCOUNTS[..k] == MIGRATION_ACCOUNTS;
  }
}
