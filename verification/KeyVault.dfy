/** Azure Key Vault as the adapter sees it: live secrets, and soft-deleted
    names that stay taken until they are purged. */
module KeyVault {
  import opened Outcomes
  import opened Timestamps

  type Value = string
  type Status = int

  const FORBIDDEN: Status := 403
  const NOT_FOUND: Status := 404
  const CONFLICT: Status := 409

  datatype Attributes = Attributes(created: Instant, updated: Instant)

  // Either part may be missing from a response.
  datatype VaultSecret = VaultSecret(value: Option<Value>, attributes: Option<Attributes>)

  // deleted[name] is how many purges will still be answered with a conflict
  // while the vault finishes the delete; a fresh delete starts at `settle`.
  // A protected vault refuses every purge. `failure` is the status with which
  // everything but a purge fails.
  datatype Vault = Vault(secrets: map<string, VaultSecret>, deleted: map<string, nat>, now: Instant,
                         settle: nat, guarded: bool, failure: Option<Status>)

  function WithSecret(v: Vault, name: string, value: Value): Vault {
    var now := v.now + 1;
    var created := if name in v.secrets && v.secrets[name].attributes.Some?
                   then v.secrets[name].attributes.value.created else now;
    v.(now := now, secrets := v.secrets[name := VaultSecret(Some(value), Some(Attributes(created, now)))])
  }

  function SoftDeleted(v: Vault, name: string): Vault {
    v.(secrets := v.secrets - {name}, deleted := v.deleted[name := v.settle])
  }

  function Purge(v: Vault, name: string): (r: (Vault, Result<(), Status>)) {
    if v.guarded then (v, Err(FORBIDDEN))
    else if name !in v.deleted then (v, Err(NOT_FOUND))
    else if v.deleted[name] > 0 then (v.(deleted := v.deleted[name := v.deleted[name] - 1]), Err(CONFLICT))
    else (v.(deleted := v.deleted - {name}), Ok(()))
  }

  class Client {
    var vault: Vault
    var purges: nat     // purge calls received from here
    const shared: bool  // others use the vault too

    constructor (v: Vault, shared: bool)
      ensures vault == v && purges == 0 && this.shared == shared
    {
      vault, purges, this.shared := v, 0, shared;
    }

    // What others do between two of our calls, purges of our names included.
    method Meanwhile()
      modifies `vault
      ensures !shared ==> vault == old(vault)
    {
      if shared {
        vault := *;
      }
    }

    method GetSecret(name: string) returns (r: Result<VaultSecret, Status>)
      ensures vault.failure.Some? ==> r == Err(vault.failure.value)
      ensures vault.failure.None? && name !in vault.secrets ==> r == Err(NOT_FOUND)
      ensures vault.failure.None? && name in vault.secrets ==> r == Ok(vault.secrets[name])
    {
      if vault.failure.Some? {
        return Err(vault.failure.value);
      }
      if name !in vault.secrets {
        return Err(NOT_FOUND);
      }
      return Ok(vault.secrets[name]);
    }

    method SetSecret(name: string, value: Value) returns (r: Result<VaultSecret, Status>)
      modifies `vault
      ensures r.Err? ==> vault == old(vault)
      ensures old(vault).failure.Some? ==> r == Err(old(vault).failure.value)
      ensures old(vault).failure.None? && name in old(vault).deleted ==> r == Err(CONFLICT)
      ensures old(vault).failure.None? && name !in old(vault).deleted ==>
                vault == WithSecret(old(vault), name, value) && r == Ok(vault.secrets[name])
    {
      if vault.failure.Some? {
        return Err(vault.failure.value);
      }
      if name in vault.deleted {
        return Err(CONFLICT);
      }
      vault := WithSecret(vault, name, value);
      return Ok(vault.secrets[name]);
    }

    method DeleteSecret(name: string) returns (r: Result<(), Status>)
      modifies `vault
      ensures r.Err? ==> vault == old(vault)
      ensures old(vault).failure.Some? ==> r == Err(old(vault).failure.value)
      ensures old(vault).failure.None? && name !in old(vault).secrets ==> r == Err(NOT_FOUND)
      ensures old(vault).failure.None? && name in old(vault).secrets ==>
                r == Ok(()) && vault == SoftDeleted(old(vault), name)
    {
      if vault.failure.Some? {
        return Err(vault.failure.value);
      }
      if name !in vault.secrets {
        return Err(NOT_FOUND);
      }
      vault := SoftDeleted(vault, name);
      return Ok(());
    }

    method PurgeDeletedSecret(name: string) returns (r: Result<(), Status>)
      modifies this
      ensures (vault, r) == Purge(old(vault), name) && purges == old(purges) + 1
    {
      var (v, res) := Purge(vault, name);
      vault, purges := v, purges + 1;
      return res;
    }
  }
}
