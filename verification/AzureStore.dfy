/** The Key Vault backend: soft deletes with an optional bounded purge, paged
    listing, and versions made from update times. */
module AzureStore {
  import opened Outcomes
  import opened Contexts
  import opened Keys
  import opened KeyEncoding
  import opened AzureNames
  import opened Secrets
  import opened Timestamps
  import opened KeyVault

  datatype StoreError =
    | ReadOnly
    | EmptyValue
    | KeyTooLong
    | NameSoftDeleted
    | Missing
    | MissingAttributes
    | Cancelled
    | Backend(status: Status)

  datatype Secret = Secret(meta: SecretMeta, value: Value)

  const MAX_ATTEMPTS := 30

  function Wrap(st: Status): StoreError {
    if st == NOT_FOUND then Missing else Backend(st)
  }

  function NameFor(key: Key): Result<string, EncodeError> {
    Encode(AZURE, MAX_AZURE_NAME_LEN, key)
  }

  function MetaOf(key: Key, attributes: Option<Attributes>): Result<SecretMeta, StoreError> {
    match attributes
    case None => Err(MissingAttributes)
    case Some(a) => Ok(SecretMeta(key, VersionText(a.updated), a.created))
  }

  // ---- purging -----------------------------------------------------------

  // The vault after n purge calls.
  function PurgedTimes(v: Vault, name: string, n: nat): Vault {
    if n == 0 then v else Purge(PurgedTimes(v, name, n - 1), name).0
  }

  // The first p calls meet a conflict and count it down; the next succeeds.
  lemma {:induction false} PurgeCountsDown(v: Vault, name: string, n: nat)
    requires name in v.deleted && !v.guarded && n <= v.deleted[name]
    ensures PurgedTimes(v, name, n) == v.(deleted := v.deleted[name := v.deleted[name] - n])
    ensures n == v.deleted[name] ==> PurgedTimes(v, name, n + 1) == v.(deleted := v.deleted - {name})
  {
    if n > 0 {
      PurgeCountsDown(v, name, n - 1);
    }
    assert v.deleted[name := v.deleted[name] - n] - {name} == v.deleted - {name};
    assert PurgedTimes(v, name, n + 1) == Purge(PurgedTimes(v, name, n), name).0;
  }

  function Min(a: int, b: int): int {
    if a < b then a else b
  }

  // ---- the adapter -------------------------------------------------------

  class Store {
    const client: Client
    const allowWrites: bool
    const purgeOnDelete: bool

    constructor (client: Client, allowWrites: bool, purgeOnDelete: bool)
      ensures this.client == client && this.allowWrites == allowWrites && this.purgeOnDelete == purgeOnDelete
    {
      this.client, this.allowWrites, this.purgeOnDelete := client, allowWrites, purgeOnDelete;
    }

    method Get(key: Key) returns (r: Result<Secret, StoreError>)
      ensures NameFor(key).Err? ==> r == Err(KeyTooLong)
      ensures NameFor(key).Ok? ==> r == Lookup(client.vault, key, NameFor(key).value)
    {
      var name := EncodeName(key);
      if name.Err? {
        return Err(KeyTooLong);
      }
      var res := client.GetSecret(name.value);
      if res.Err? {
        return Err(Wrap(res.error));
      }
      var meta := MetaOf(key, res.value.attributes);
      if meta.Err? {
        return Err(meta.error);
      }
      if res.value.value.None? || res.value.value.value == "" {
        return Err(EmptyValue);
      }
      return Ok(Secret(meta.value, res.value.value.value));
    }

    method Put(key: Key, value: Value) returns (r: Result<SecretMeta, StoreError>)
      modifies client`vault
      ensures r.Err? ==> client.vault == old(client.vault)
      ensures !allowWrites ==> r == Err(ReadOnly)
      ensures allowWrites && value == "" ==> r == Err(EmptyValue)
      ensures allowWrites && value != "" && NameFor(key).Err? ==> r == Err(KeyTooLong)
      ensures allowWrites && value != "" && NameFor(key).Ok? ==>
                var v, name := old(client.vault), NameFor(key).value;
                if v.failure.Some? then
                  r == Err(if v.failure.value == 409 then NameSoftDeleted else Wrap(v.failure.value))
                else if name in v.deleted then r == Err(NameSoftDeleted)
                else client.vault == WithSecret(v, name, value)
                     && r == MetaOf(key, client.vault.secrets[name].attributes)
      ensures allowWrites && value != "" && NameFor(key).Ok? ==>
                client.vault == Apply(old(client.vault), Set(NameFor(key).value, value))
    {
      if !allowWrites {
        return Err(ReadOnly);
      }
      if |value| == 0 {
        return Err(EmptyValue);
      }
      var name := EncodeName(key);
      if name.Err? {
        return Err(KeyTooLong);
      }
      var res := client.SetSecret(name.value, value);
      if res.Err? {
        if res.error == CONFLICT {
          return Err(NameSoftDeleted);
        }
        return Err(Wrap(res.error));
      }
      return MetaOf(key, res.value.attributes);
    }

    // Soft-deletes a live name; if asked to, purges it, waiting out at most
    // MAX_ATTEMPTS conflicts. The context may end during any wait, and others
    // may purge or recover the name.
    method Delete(ctx: Context, key: Key) returns (r: Result<(), StoreError>)
      modifies client, ctx
      ensures r == Err(Cancelled) ==> ctx.ended
      ensures !allowWrites ==> r == Err(ReadOnly)
      ensures allowWrites && NameFor(key).Err? ==> r == Err(KeyTooLong)
      ensures !allowWrites || NameFor(key).Err? ==>
                client.vault == old(client.vault) && client.purges == old(client.purges)
      ensures allowWrites && NameFor(key).Ok? ==>
                var v, name, calls := old(client.vault), NameFor(key).value, client.purges - old(client.purges);
                if v.failure.Some? then r == Err(Wrap(v.failure.value)) && calls == 0 && client.vault == v
                else if name !in v.secrets then r == Err(Missing) && calls == 0 && client.vault == v
                else if !purgeOnDelete then r == Ok(()) && calls == 0 && client.vault == SoftDeleted(v, name)
                else PurgeEnds(name, r, calls, client.vault)
                     && (!client.shared ==> DeletePurges(v, name, r, calls, client.vault))
      ensures allowWrites && NameFor(key).Ok? && !purgeOnDelete ==>
                client.vault == Apply(old(client.vault), Remove(NameFor(key).value))
    {
      if !allowWrites {
        return Err(ReadOnly);
      }
      var encoded := EncodeName(key);
      if encoded.Err? {
        return Err(KeyTooLong);
      }
      var name := encoded.value;
      var res := client.DeleteSecret(name);
      if res.Err? {
        return Err(Wrap(res.error));
      }
      if !purgeOnDelete {
        return Ok(());
      }
      client.Meanwhile();
      r := PurgeSettled(ctx, name);
    }

    method PurgeSettled(ctx: Context, name: string) returns (r: Result<(), StoreError>)
      modifies client, ctx
      ensures r == Err(Cancelled) ==> ctx.ended
      ensures PurgeEnds(name, r, client.purges - old(client.purges), client.vault)
      ensures !client.shared ==>
                Purges(old(client.vault), name, r, client.purges - old(client.purges), client.vault)
    {
      ghost var v, before, alone := client.vault, client.purges, !client.shared;
      var attempt := 1;
      while true
        invariant 1 <= attempt <= MAX_ATTEMPTS
        invariant client.purges == before + (attempt - 1)
        invariant alone ==> client.vault == PurgedTimes(v, name, attempt - 1)
        invariant alone && attempt > 1 ==> !v.guarded && name in v.deleted && attempt - 1 <= v.deleted[name]
        decreases MAX_ATTEMPTS - attempt
      {
        CountDown(v, name, attempt - 1, alone);
        var res := client.PurgeDeletedSecret(name);
        CountDown(v, name, attempt, alone);
        if res.Ok? || res.error == NOT_FOUND {
          return Ok(());
        } else if res.error == CONFLICT && attempt < MAX_ATTEMPTS {
          var settled := ctx.Select();
          if !settled {
            return Err(Cancelled);
          }
          client.Meanwhile();
        } else {
          return Err(Wrap(res.error));
        }
        attempt := attempt + 1;
      }
    }
  }

  lemma CountDown(v: Vault, name: string, n: nat, alone: bool)
    ensures alone && name in v.deleted && !v.guarded && n <= v.deleted[name] ==>
              PurgedTimes(v, name, n) == v.(deleted := v.deleted[name := v.deleted[name] - n])
  {
    if name in v.deleted && !v.guarded && n <= v.deleted[name] {
      PurgeCountsDown(v, name, n);
    }
  }

  function Lookup(v: Vault, key: Key, name: string): Result<Secret, StoreError> {
    if v.failure.Some? then Err(Wrap(v.failure.value))
    else if name !in v.secrets then Err(Missing)
    else
      match MetaOf(key, v.secrets[name].attributes)
      case Err(e) => Err(e)
      case Ok(meta) =>
        match v.secrets[name].value
        case None => Err(EmptyValue)
        case Some(value) => if value == "" then Err(EmptyValue) else Ok(Secret(meta, value))
  }

  // Get says Missing exactly if the service answers 404, or it answers and
  // the name is not live; every other status is passed on.
  lemma LookupFailures(v: Vault, key: Key, name: string)
    ensures Lookup(v, key, name) == Err(Missing)
            <==> v.failure == Some(404) || (v.failure.None? && name !in v.secrets)
    ensures forall st :: v.failure == Some(st) && st != 404 ==> Lookup(v, key, name) == Err(Backend(st))
  {}

  // How purging ends, whatever others do to the vault meanwhile: the name is
  // free, or the context has ended, or the vault refuses, or the last of 30
  // calls still met a conflict.
  ghost predicate PurgeEnds(name: string, r: Result<(), StoreError>, calls: int, after: Vault) {
    && 1 <= calls <= 30
    && (r.Ok? ==> name !in after.deleted)
    && (r.Err? ==>
          || r == Err(Cancelled)
          || (r == Err(Backend(403)) && after.guarded)
          || (r == Err(Backend(409)) && calls == 30 && name in after.deleted))
  }

  // What purging a name amounts to, left to itself and with p conflicts
  // ahead: uncancelled it makes min(p + 1, 30) calls and succeeds exactly when
  // p <= 29, the name then being free; otherwise the calls are counted off.
  ghost predicate Purges(v: Vault, name: string, r: Result<(), StoreError>, calls: int, after: Vault) {
    if v.guarded then r == Err(Backend(403)) && calls == 1 && after == v
    else
      var p := if name in v.deleted then v.deleted[name] else 0;
      && (r != Err(Cancelled) ==> calls == Min(p + 1, 30) && (r.Ok? <==> p <= 29))
      && (r.Ok? ==> after == v.(deleted := v.deleted - {name}))
      && (r.Err? ==> r == Err(Cancelled) || r == Err(Backend(409)))
      && (r.Err? ==> 1 <= calls <= p && after == v.(deleted := v.deleted[name := p - calls]))
      && (r == Err(Cancelled) ==> calls < 30)
  }

  ghost predicate DeletePurges(v: Vault, name: string, r: Result<(), StoreError>, calls: int, after: Vault) {
    Purges(SoftDeleted(v, name), name, r, calls, after)
  }

  // ---- after a delete ----------------------------------------------------

  // A completed purge leaves the name neither live nor taken: Get misses, and
  // Put works again and Get reads what it wrote.
  lemma PurgedNameIsFree(v: Vault, key: Key, name: string, calls: int, after: Vault, value: Value)
    requires v.failure.None? && value != ""
    requires DeletePurges(v, name, Ok(()), calls, after)
    ensures name !in after.secrets && name !in after.deleted && after.failure.None?
    ensures Lookup(after, key, name) == Err(Missing)
    ensures Lookup(WithSecret(after, name, value), key, name).Ok?
            && Lookup(WithSecret(after, name, value), key, name).value.value == value
  {}

  // A Put is read back, and keeps the creation time of what it overwrites.
  lemma PutThenGet(v: Vault, key: Key, name: string, value: Value)
    requires v.failure.None? && value != ""
    ensures var after := WithSecret(v, name, value);
            && Lookup(after, key, name).Ok? && Lookup(after, key, name).value.value == value
            && (Lookup(v, key, name).Ok? ==>
                  Lookup(after, key, name).value.meta.createdAt == Lookup(v, key, name).value.meta.createdAt)
  {}

  // It changes what Get says of no other key.
  lemma {:induction false} PutLeavesOthers(v: Vault, key: Key, other: Key, value: Value)
    requires NameFor(key).Ok? && NameFor(other).Ok? && other != key
    ensures Lookup(WithSecret(v, NameFor(key).value, value), other, NameFor(other).value)
            == Lookup(v, other, NameFor(other).value)
  {
    AzureSound();
    if NameFor(key) == NameFor(other) {
      EncodeInjective(AZURE, MAX_AZURE_NAME_LEN, key, other);
    }
  }

  // Everything that can happen to the vault while nobody purges `name`:
  // writes and deletes of any key, and purges or recoveries of other names.
  datatype Op =
    | Set(name: string, value: Value)
    | Remove(name: string)
    | PurgeName(name: string)
    | Recover(name: string, sec: VaultSecret)

  function Apply(v: Vault, op: Op): Vault {
    match op
    case Set(n, value) => if v.failure.Some? || n in v.deleted then v else WithSecret(v, n, value)
    case Remove(n) => if v.failure.Some? || n !in v.secrets then v else SoftDeleted(v, n)
    case PurgeName(n) => Purge(v, n).0
    case Recover(n, sec) =>
      if n in v.deleted then v.(deleted := v.deleted - {n}, secrets := v.secrets[n := sec]) else v
  }

  function RunOps(v: Vault, ops: seq<Op>): Vault
    decreases |ops|
  {
    if ops == [] then v else RunOps(Apply(v, ops[0]), ops[1..])
  }

  ghost predicate Reclaims(op: Op, name: string) {
    (op.PurgeName? || op.Recover?) && op.name == name
  }

  // A name is never both live and soft-deleted.
  ghost predicate Consistent(v: Vault) {
    v.secrets.Keys !! v.deleted.Keys
  }

  // Without a purge or recovery of its name, a soft-deleted secret blocks its
  // name in every later state: it is not live, so Get misses, and Put conflicts.
  lemma {:induction false} SoftDeleteBlocks(v: Vault, ops: seq<Op>, name: string)
    requires Consistent(v) && name in v.deleted
    requires forall op :: op in ops ==> !Reclaims(op, name)
    ensures var t := RunOps(v, ops);
            Consistent(t) && name in t.deleted && name !in t.secrets && t.deleted[name] == v.deleted[name]
            && forall value :: Apply(t, Set(name, value)) == t
    decreases |ops|
  {
    if ops != [] {
      assert ops[0] in ops;
      SoftDeleteBlocks(Apply(v, ops[0]), ops[1..], name);
    }
  }
}
