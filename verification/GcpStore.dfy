/** The Secret Manager backend: one secret per key, one version per Put. */
module GcpStore {
  import opened Outcomes
  import opened Text
  import opened Keys
  import opened Escaping
  import opened KeyEncoding
  import opened GcpNames
  import opened Secrets
  import opened Sorting
  import opened SecretManager
  import opened Listings

  datatype StoreError = ReadOnly | EmptyValue | KeyTooLong | Missing | Backend(code: Code)

  datatype Secret = Secret(meta: SecretMeta, value: Bytes)

  function Wrap(c: Code): StoreError {
    if c == NotFound then Missing else Backend(c)
  }

  // ---- the store as a view of the project --------------------------------

  // The secret answers reads: it has a version and the newest is enabled.
  predicate Live(pr: Project, id: string) {
    id in pr.secrets && var sec := pr.secrets[id]; sec.versions != [] && sec.Newest() !in sec.disabled
  }

  function MetaOf(key: Key, sec: StoredSecret): SecretMeta {
    SecretMeta(key, Decimal(sec.Newest()), sec.created)
  }

  function Lookup(pr: Project, key: Key): Result<Secret, StoreError> {
    match Encode(GCP, MAX_ID_LEN, key)
    case Err(_) => Err(KeyTooLong)
    case Ok(id) =>
      if pr.down then Err(Backend(Unavailable))
      else if id !in pr.secrets || pr.secrets[id].versions == [] then Err(Missing)
      else if !Live(pr, id) then Err(Backend(FailedPrecondition))
      else
        var sec := pr.secrets[id];
        var data := sec.versions[|sec.versions| - 1];
        if data == [] then Err(EmptyValue) else Ok(Secret(MetaOf(key, sec), data))
  }

  // Adding a version to a secret, which is created if need be.
  function Stored(pr: Project, id: string, value: Bytes): Project {
    if id in pr.secrets then
      var sec := pr.secrets[id];
      pr.(secrets := pr.secrets[id := sec.(versions := sec.versions + [value])])
    else
      Project(pr.secrets[id := StoredSecret(pr.now + 1, [value], {})], pr.now + 1, pr.down)
  }

  // Get, the project having moved from `a` to `b` between its two calls: the
  // value and version of the first, the creation time of the second.
  function LookupAcross(a: Project, b: Project, key: Key): Result<Secret, StoreError> {
    match Lookup(a, key)
    case Err(e) => Err(e)
    case Ok(sec) =>
      var id := Encode(GCP, MAX_ID_LEN, key).value;
      if b.down then Err(Backend(Unavailable))
      else if id !in b.secrets then Err(Missing)
      else Ok(sec.(meta := sec.meta.(createdAt := b.secrets[id].created)))
  }

  // The IDs a listing of ns takes in, if their secrets answer reads.
  predicate Selected(pr: Project, ns: Namespace, id: string) {
    Live(pr, id) && Decode(GCP, id).Ok? && ns.Encloses(Decode(GCP, id).value.ns)
  }

  // What one secret adds to a listing that saw it in state `a` and asked for
  // its latest version in state `b`.
  function EntryAcross(a: Project, b: Project, ns: Namespace, id: string): Option<SecretMeta> {
    if id in a.secrets && Selected(b, ns, id)
    then Some(SecretMeta(Decode(GCP, id).value, Decimal(b.secrets[id].Newest()), a.secrets[id].created))
    else None
  }

  function EntryIn(pr: Project, ns: Namespace): string -> Option<SecretMeta> {
    (id: string) => EntryAcross(pr, pr, ns, id)
  }

  // The entries of all IDs, the i-th read in the i-th of the given states.
  function CollectAcross(a: Project, during: seq<Project>, ns: Namespace, ids: seq<string>): seq<SecretMeta>
    requires |during| == |ids|
  {
    if ids == [] then []
    else
      var n := |ids| - 1;
      var front, m := CollectAcross(a, during[..n], ns, ids[..n]), EntryAcross(a, during[n], ns, ids[n]);
      if m.Some? then front + [m.value] else front
  }

  // What List may answer: the entries of all IDs, sorted by key.
  ghost predicate ListedAcross(a: Project, during: seq<Project>, ns: Namespace, out: seq<SecretMeta>) {
    exists ids :: |ids| == |during| && ListingOf(a, during, ns, out, ids)
  }

  ghost predicate ListingOf(a: Project, during: seq<Project>, ns: Namespace, out: seq<SecretMeta>, ids: seq<string>)
    requires |during| == |ids|
  {
    && Enumerates(ids, a.secrets.Keys)
    && multiset(out) == multiset(CollectAcross(a, during, ns, ids))
    && SortedBy(out, NameOf)
  }

  // A listing that nobody disturbs.
  ghost predicate IsListing(pr: Project, ns: Namespace, out: seq<SecretMeta>) {
    exists ids :: IsListingOf(pr, ns, out, ids)
  }

  ghost predicate IsListingOf(pr: Project, ns: Namespace, out: seq<SecretMeta>, ids: seq<string>) {
    && Enumerates(ids, pr.secrets.Keys)
    && multiset(out) == multiset(Chosen(EntryIn(pr, ns), ids))
    && SortedBy(out, NameOf)
  }

  function Prepared(pr: Project, id: string): Project {
    if id in pr.secrets then pr
    else Project(pr.secrets[id := StoredSecret(pr.now + 1, [], {})], pr.now + 1, pr.down)
  }

  // Some service call met a service that was down.
  ghost predicate ServiceFailed(during: seq<Project>) {
    exists pr :: pr in during && pr.down
  }

  // A call found the secret gone that an earlier one had shown or made.
  predicate Vanished(during: seq<Project>, id: string) {
    |during| >= 2 && id !in during[|during| - 1].secrets
  }

  // The time is that of the secret one call saw, or made.
  ghost predicate ToldBy(during: seq<Project>, id: string, created: int) {
    exists pr :: pr in during && created == Prepared(pr, id).secrets[id].created
  }

  // The version goes on top of the secret that the last call finds.
  ghost predicate PutLanded(during: seq<Project>, after: Project, id: string, key: Key, value: Bytes, m: SecretMeta) {
    && |during| >= 2 && id in during[|during| - 1].secrets
    && after == Stored(during[|during| - 1], id, value)
    && m == MetaOf(key, after.secrets[id]).(createdAt := m.createdAt) && ToldBy(during, id, m.createdAt)
  }

  // Among writers that never delete, it is new and its metadata is right.
  ghost predicate PutGrew(before: Project, after: Project, id: string, key: Key, m: SecretMeta) {
    && id in after.secrets && m == MetaOf(key, after.secrets[id])
    && |ValuesAt(before, id)| < |ValuesAt(after, id)|
  }

  // The versions stored under an ID, none if it is absent.
  function ValuesAt(pr: Project, id: string): seq<Bytes> {
    if id in pr.secrets then pr.secrets[id].versions else []
  }

  // What a Put that reaches the service comes to, the project being as in
  // `during` at its calls: it fails only if the service does or somebody
  // deletes the secret meanwhile.
  ghost predicate PutOutcome(others: Others, before: Project, during: seq<Project>, after: Project, id: string,
                             key: Key, value: Bytes, r: Result<SecretMeta, StoreError>) {
    && (r.Err? ==> (r == Err(Backend(Unavailable)) && ServiceFailed(during))
                   || (r == Err(Missing) && others.Anyone? && Vanished(during, id)))
    && (r.Ok? ==> PutLanded(during, after, id, key, value, r.value))
    && (r.Ok? && !others.Anyone? ==> PutGrew(before, after, id, key, r.value))
    && (others.Nobody? && before.down ==> r.Err?)
    && (others.Nobody? && !before.down ==>
          after == Stored(before, id, value) && r == Ok(MetaOf(key, after.secrets[id])))
  }

  lemma AddedVersion(others: Others, before: Project, during: seq<Project>, prior: Project, after: Project,
                     id: string, key: Key, value: Bytes, created: int)
    requires id in prior.secrets && after == Stored(prior, id, value)
    requires |during| >= 2 && during[|during| - 1] == prior && ToldBy(during, id, created)
    requires !others.Anyone? ==> Grew(before, prior) && prior.secrets[id].created == created
    requires others.Nobody? ==> !before.down && prior == Prepared(before, id)
    ensures !others.Anyone? ==> Grew(before, after)
    ensures PutOutcome(others, before, during, after, id, key, value,
                       Ok(SecretMeta(key, Decimal(|ValuesAt(after, id)|), created)))
  {
    assert [] + [value] == [value];
    assert others.Nobody? ==> after.secrets == Stored(before, id, value).secrets;
  }

  lemma ToldEarlier(during: seq<Project>, more: seq<Project>, id: string, created: int)
    requires ToldBy(during, id, created)
    ensures ToldBy(during + more, id, created)
  {
    var pr :| pr in during && created == Prepared(pr, id).secrets[id].created;
    assert pr in during + more;
  }

  // ---- the adapter -------------------------------------------------------

  class Store {
    const client: Client
    const allowWrites: bool

    constructor (client: Client, allowWrites: bool)
      ensures this.client == client && this.allowWrites == allowWrites
    {
      this.client, this.allowWrites := client, allowWrites;
    }

    // The others may move between the two calls.
    method Get(key: Key) returns (r: Result<Secret, StoreError>)
      modifies client
      ensures Allowed(client.others, old(client.project), client.project)
      ensures r == LookupAcross(old(client.project), client.project, key)
    {
      var id := EncodeID(key);
      if id.Err? {
        GrewReflexive(client.project);
        return Err(KeyTooLong);
      }
      var res := client.AccessLatest(id.value);
      GrewReflexive(client.project);
      if res.Err? {
        return Err(Wrap(res.error));
      }
      if res.value.1 == [] {
        return Err(EmptyValue);
      }
      client.Interference();
      var sec := client.GetSecret(id.value);
      match sec
      case Err(e) => return Err(Wrap(e));
      case Ok(found) => return Ok(Secret(SecretMeta(key, Decimal(res.value.0), found.created), res.value.1));
    }

    // The secret that a version can be added to, the others having moved
    // meanwhile: `during` is what the project was at each call. Among writers
    // that never delete, only a service that is down makes it fail.
    method FindOrCreate(id: string) returns (sec: Result<StoredSecret, Code>, ghost during: seq<Project>)
      modifies client
      ensures 1 <= |during| <= 3 && during[0] == old(client.project)
      ensures !client.others.Anyone? ==> forall pr :: pr in during ==> Grew(old(client.project), pr)
      ensures sec.Err? ==> (sec == Err(Unavailable) && ServiceFailed(during))
                           || (sec == Err(NotFound) && client.others.Anyone? && Vanished(during, id))
      ensures sec.Ok? ==> ToldBy(during, id, sec.value.created)
      ensures !client.others.Anyone? ==> Grew(old(client.project), client.project)
      ensures !client.others.Anyone? && sec.Ok? ==>
                id in client.project.secrets && client.project.secrets[id].created == sec.value.created
      ensures client.others.Nobody? ==> (sec.Ok? <==> !old(client.project).down)
      ensures client.others.Nobody? ==>
                client.project == if sec.Ok? then Prepared(old(client.project), id) else old(client.project)
    {
      during := [client.project];
      assert client.project in during;
      sec := client.GetSecret(id);
      if sec == Err(NotFound) {
        client.Interference();
        during := during + [client.project];
        assert client.project in during;
        sec := client.CreateSecret(id);
        if sec == Err(AlreadyExists) {
          client.Interference();
          during := during + [client.project];
          assert client.project in during;
          sec := client.GetSecret(id);
        }
      }
      client.Interference();
    }

    // get, create if absent (falling back on another writer's secret), add a
    // version. Undisturbed this is one atomic addition. Among writers it
    // still succeeds unless the service fails, under a version number that
    // was free before. Whoever interferes, a version it reports is the
    // newest when it returns and holds this value; but if someone deletes,
    // the secret may be missed, or another one than the reported creation
    // time says. `during` is what the project was at each call.
    method Put(key: Key, value: Bytes) returns (r: Result<SecretMeta, StoreError>, ghost during: seq<Project>)
      modifies client
      ensures !allowWrites ==> r == Err(ReadOnly)
      ensures allowWrites && value == [] ==> r == Err(EmptyValue)
      ensures allowWrites && value != [] && Encode(GCP, MAX_ID_LEN, key).Err? ==> r == Err(KeyTooLong)
      ensures allowWrites && value != [] && Encode(GCP, MAX_ID_LEN, key).Ok? ==>
                PutOutcome(client.others, old(client.project), during, client.project,
                           Encode(GCP, MAX_ID_LEN, key).value, key, value, r)
      ensures |during| <= 4
      ensures !client.others.Anyone? ==> forall pr :: pr in during + [client.project] ==> Grew(old(client.project), pr)
      ensures client.others.Nobody? && r.Err? ==> client.project == old(client.project)
      ensures client.others.Nobody? && allowWrites ==> client.project == Apply(old(client.project), Op.Put(key, value))
    {
      during := [];
      GrewReflexive(client.project);
      if !allowWrites {
        return Err(ReadOnly), during;
      }
      if |value| == 0 {
        return Err(EmptyValue), during;
      }
      var encoded := EncodeID(key);
      if encoded.Err? {
        return Err(KeyTooLong), during;
      }
      var id := encoded.value;
      ghost var before := client.project;
      var sec;
      sec, during := FindOrCreate(id);
      if sec.Err? {
        return Err(Wrap(sec.error)), during;
      }
      ghost var prior := client.project;
      ToldEarlier(during, [prior], id, sec.value.created);
      during := during + [prior];
      assert prior in during;
      var ver := client.AddSecretVersion(id, value);
      if ver.Err? {
        return Err(Wrap(ver.error)), during;
      }
      AddedVersion(client.others, before, during, prior, client.project, id, key, value, sec.value.created);
      return Ok(SecretMeta(key, Decimal(ver.value), sec.value.created)), during;
    }

    // The others may move before each version is read: `during` is what the
    // project was at each read.
    method List(ns: Namespace) returns (r: Result<seq<SecretMeta>, StoreError>, ghost during: seq<Project>)
      modifies client
      ensures Allowed(client.others, old(client.project), client.project)
      ensures forall pr :: pr in during ==> Allowed(client.others, old(client.project), pr)
      ensures r.Err? ==>
                r == Err(Backend(Unavailable)) && exists pr :: pr in [old(client.project)] + during && pr.down
      ensures old(client.project).down ==> r.Err?
      ensures r.Ok? ==> ListedAcross(old(client.project), during, ns, r.value)
    {
      ghost var before := client.project;
      during := [];
      GrewReflexive(before);
      var listed := client.ListSecrets();
      if listed.Err? {
        assert before in [before] + during;
        return Err(Wrap(listed.error)), during;
      }
      ghost var ids := IDs(listed.value);
      var out := [];
      for i := 0 to |listed.value|
        invariant |during| == i && Allowed(client.others, before, client.project)
        invariant forall pr :: pr in during ==> Allowed(client.others, before, pr)
        invariant out == CollectAcross(before, during, ns, ids[..i])
      {
        var sec := listed.value[i];
        assert sec in listed.value && ids[i] == sec.id;
        ghost var prior := client.project;
        client.Interference();
        AllowedFollows(client.others, before, prior, client.project);
        CollectStep(before, during, client.project, ns, ids, i);
        during := during + [client.project];
        assert client.project in [before] + during;
        var key := DecodeID(sec.id);
        if key.Err? {
          continue;
        }
        var under := ns.Contains(key.value.ns);
        if !under {
          continue;
        }
        var ver := client.GetLatest(sec.id);
        match ver {
          case Err(NotFound) =>
          case Err(FailedPrecondition) =>
          case Err(e) =>
            return Err(Wrap(e)), during;
          case Ok((n, enabled)) =>
            if enabled {
              out := out + [SecretMeta(key.value, Decimal(n), sec.created)];
            }
        }
      }
      assert ids[..|ids|] == ids;
      SortSorts(out, NameOf);
      assert ListingOf(before, during, ns, Sort(out, NameOf), ids);
      return Ok(Sort(out, NameOf)), during;
    }

    method Delete(key: Key) returns (r: Result<(), StoreError>)
      modifies client
      ensures !allowWrites ==> r == Err(ReadOnly)
      ensures allowWrites && Encode(GCP, MAX_ID_LEN, key).Err? ==> r == Err(KeyTooLong)
      ensures allowWrites && Encode(GCP, MAX_ID_LEN, key).Ok? ==>
                var pr, id := old(client.project), Encode(GCP, MAX_ID_LEN, key).value;
                if pr.down then r == Err(Backend(Unavailable))
                else if id !in pr.secrets then r == Err(Missing)
                else r == Ok(()) && client.project == pr.(secrets := pr.secrets - {id})
      ensures r.Err? ==> client.project == old(client.project)
      ensures allowWrites ==> client.project == Apply(old(client.project), Op.Delete(key))
    {
      if !allowWrites {
        return Err(ReadOnly);
      }
      var id := EncodeID(key);
      if id.Err? {
        return Err(KeyTooLong);
      }
      var res := client.DeleteSecret(id.value);
      if res.Err? {
        return Err(Wrap(res.error));
      }
      return Ok(());
    }
  }

  lemma GrewReflexive(pr: Project)
    ensures Grew(pr, pr)
  {}

  lemma AllowedFollows(others: Others, a: Project, b: Project, c: Project)
    requires Allowed(others, a, b) && Allowed(others, b, c)
    ensures Allowed(others, a, c)
  {}

  lemma CollectStep(a: Project, during: seq<Project>, b: Project, ns: Namespace, ids: seq<string>, i: nat)
    requires i < |ids| && |during| == i
    ensures var front, m := CollectAcross(a, during, ns, ids[..i]), EntryAcross(a, b, ns, ids[i]);
            CollectAcross(a, during + [b], ns, ids[..i + 1]) == if m.Some? then front + [m.value] else front
  {
    assert ids[..i + 1][..i] == ids[..i] && (during + [b])[..i] == during;
  }

  // ---- reading among others ----------------------------------------------

  // Undisturbed, Get is Lookup. Disturbed, it answers as Lookup did at its
  // first call exactly when the secret is still the one that was there:
  // writers that never delete do not show.
  lemma GetAmongOthers(a: Project, b: Project, key: Key)
    ensures LookupAcross(a, a, key) == Lookup(a, key)
    ensures Lookup(a, key).Ok? && !b.down ==>
              var id := Encode(GCP, MAX_ID_LEN, key).value;
              LookupAcross(a, b, key) == Lookup(a, key)
              <==> id in b.secrets && b.secrets[id].created == a.secrets[id].created
    ensures Grew(a, b) && !b.down ==> LookupAcross(a, b, key) == Lookup(a, key)
  {}

  // Undisturbed, List is a listing of the one state.
  lemma {:induction false} ListUndisturbed(pr: Project, during: seq<Project>, ns: Namespace, out: seq<SecretMeta>)
    requires ListedAcross(pr, during, ns, out) && forall b :: b in during ==> b == pr
    ensures IsListing(pr, ns, out)
  {
    var ids :| |ids| == |during| && ListingOf(pr, during, ns, out, ids);
    CollectUndisturbed(pr, during, ns, ids);
    assert IsListingOf(pr, ns, out, ids);
  }

  lemma {:induction false} CollectUndisturbed(pr: Project, during: seq<Project>, ns: Namespace, ids: seq<string>)
    requires |during| == |ids| && forall b :: b in during ==> b == pr
    ensures CollectAcross(pr, during, ns, ids) == Chosen(EntryIn(pr, ns), ids)
  {
    if ids != [] {
      var n := |ids| - 1;
      assert during[n] in during && forall b :: b in during[..n] ==> b in during;
      CollectUndisturbed(pr, during[..n], ns, ids[..n]);
    }
  }

  lemma {:induction false} CollectMembers(a: Project, during: seq<Project>, ns: Namespace, ids: seq<string>,
                                          m: SecretMeta)
    requires |during| == |ids|
    ensures m in CollectAcross(a, during, ns, ids)
            <==> exists i :: 0 <= i < |ids| && EntryAcross(a, during[i], ns, ids[i]) == Some(m)
  {
    if ids != [] {
      var n := |ids| - 1;
      CollectMembers(a, during[..n], ns, ids[..n], m);
      assert forall i :: 0 <= i < n ==> ids[..n][i] == ids[i] && during[..n][i] == during[i];
    }
  }

  // Among writers that never delete, what Get could read under ns all the
  // while is listed, as Get would have read it at some moment meanwhile.
  lemma {:induction false} ListAmongWriters(a: Project, during: seq<Project>, ns: Namespace,
                                            out: seq<SecretMeta>, k: Key)
    requires ListedAcross(a, during, ns, out) && ns.Encloses(k.ns) && Lookup(a, k).Ok?
    requires forall b :: b in during ==> Grew(a, b) && Lookup(b, k).Ok?
    ensures exists b :: b in during && Lookup(b, k).Ok? && Lookup(b, k).value.meta in out
  {
    var ids :| |ids| == |during| && ListingOf(a, during, ns, out, ids);
    var id := Encode(GCP, MAX_ID_LEN, k).value;
    assert id in Members(ids);
    var i :| 0 <= i < |ids| && ids[i] == id;
    assert during[i] in during;
    ReadableEntry(a, during[i], ns, k);
    CollectMembers(a, during, ns, ids, Lookup(during[i], k).value.meta);
    assert Lookup(during[i], k).value.meta in multiset(out);
  }

  lemma ReadableEntry(a: Project, b: Project, ns: Namespace, k: Key)
    requires Grew(a, b) && ns.Encloses(k.ns) && Lookup(a, k).Ok? && Lookup(b, k).Ok?
    ensures EntryAcross(a, b, ns, Encode(GCP, MAX_ID_LEN, k).value) == Some(Lookup(b, k).value.meta)
  {
    GcpSound();
    DecodeEncode(GCP, MAX_ID_LEN, k);
  }

  // And every entry is the newest version some secret of the key had at some
  // moment meanwhile.
  lemma {:induction false} ListedAmongWriters(a: Project, during: seq<Project>, ns: Namespace,
                                              out: seq<SecretMeta>, m: SecretMeta)
    requires ListedAcross(a, during, ns, out) && m in out
    requires forall b :: b in during ==> Grew(a, b)
    ensures ns.Encloses(m.key.ns) && exists b, id :: b in during && Shows(b, id, m)
  {
    var ids :| |ids| == |during| && ListingOf(a, during, ns, out, ids);
    assert m in multiset(out);
    assert m in CollectAcross(a, during, ns, ids);
    CollectMembers(a, during, ns, ids, m);
    var i :| 0 <= i < |ids| && EntryAcross(a, during[i], ns, ids[i]) == Some(m);
    assert during[i] in during && Shows(during[i], ids[i], m);
  }

  // The secret under `id` is live, and m is its metadata.
  predicate Shows(pr: Project, id: string, m: SecretMeta) {
    && Live(pr, id) && Decode(GCP, id) == Ok(m.key) && MetaOf(m.key, pr.secrets[id]) == m
  }

  // ---- listing against reading -------------------------------------------

  function Reads(pr: Project): Key -> Option<SecretMeta> {
    (k: Key) => match Lookup(pr, k) case Ok(sec) => Some(sec.meta) case Err(_) => None
  }

  function OwnID(): Key -> Option<string> {
    (k: Key) => match Encode(GCP, MAX_ID_LEN, k) case Ok(id) => Some(id) case Err(_) => None
  }

  // Every listed secret sits under its key's own ID and has a value.
  ghost predicate Clean(pr: Project, ns: Namespace) {
    forall id :: id in pr.secrets && Selected(pr, ns, id) ==> Canonical(pr, id)
  }

  predicate Canonical(pr: Project, id: string)
    requires id in pr.secrets && Decode(GCP, id).Ok? && pr.secrets[id].versions != []
  {
    Encode(GCP, MAX_ID_LEN, Decode(GCP, id).value) == Ok(id)
    && var sec := pr.secrets[id]; sec.versions[|sec.versions| - 1] != []
  }

  lemma ReadsAreListed(pr: Project, ns: Namespace)
    requires !pr.down
    ensures Coherent(EntryIn(pr, ns), Reads(pr), OwnID(), ns, pr.secrets.Keys)
  {
    GcpSound();
    forall k: Key | Reads(pr)(k).Some? && ns.Encloses(k.ns)
      ensures OwnID()(k).Some? && OwnID()(k).value in pr.secrets.Keys
      ensures EntryIn(pr, ns)(OwnID()(k).value) == Reads(pr)(k) && Reads(pr)(k).value.key == k
    {
      DecodeEncode(GCP, MAX_ID_LEN, k);
    }
  }

  lemma CanonicalIffProper(pr: Project, ns: Namespace, id: string)
    requires !pr.down && id in pr.secrets
    ensures EntryIn(pr, ns)(id).Some? <==> Selected(pr, ns, id)
    ensures Selected(pr, ns, id) ==>
              var k := EntryIn(pr, ns)(id).value.key;
              Canonical(pr, id) <==> OwnID()(k) == Some(id) && Reads(pr)(k).Some?
  {}

  lemma CleanIffProper(pr: Project, ns: Namespace)
    requires !pr.down
    ensures Clean(pr, ns) <==> Proper(EntryIn(pr, ns), Reads(pr), OwnID(), pr.secrets.Keys)
  {
    forall id | id in pr.secrets
      ensures EntryIn(pr, ns)(id).Some? <==> Selected(pr, ns, id)
      ensures Selected(pr, ns, id) ==>
                var k := EntryIn(pr, ns)(id).value.key;
                Canonical(pr, id) <==> OwnID()(k) == Some(id) && Reads(pr)(k).Some?
    {
      CanonicalIffProper(pr, ns, id);
    }
  }

  // A listing agrees with Get exactly when every secret it selects sits under
  // its key's own ID and has a value: List and Get disagree over a secret
  // that someone else stored under a non-canonical ID or with nothing in it.
  lemma {:induction false} ListAgreesIffClean(pr: Project, ns: Namespace, out: seq<SecretMeta>)
    requires !pr.down && IsListing(pr, ns, out)
    ensures Agrees(Reads(pr), ns, out) <==> Clean(pr, ns)
  {
    var ids :| IsListingOf(pr, ns, out, ids);
    ReadsAreListed(pr, ns);
    CleanIffProper(pr, ns);
    AgreesIffProper(EntryIn(pr, ns), Reads(pr), OwnID(), ns, ids, out);
  }

  // ---- whole runs --------------------------------------------------------

  // What happens to the project: the adapter's writes, versions disabled or
  // enabled and foreign secrets changed behind its back, outages.
  datatype Op =
    | Put(key: Key, value: Bytes)
    | Delete(key: Key)
    | Switch(id: string, version: nat, enabled: bool)
    | Foreign(id: string, sec: Option<StoredSecret>)
    | Outage(down: bool)

  // Foreign secrets are those whose IDs do not follow the encoding.
  predicate Possible(op: Op) {
    op.Foreign? ==> Decode(GCP, op.id).Err?
  }

  function Apply(pr: Project, op: Op): Project {
    match op
    case Put(key, value) =>
      var id := Encode(GCP, MAX_ID_LEN, key);
      if pr.down || value == [] || id.Err? then pr else Stored(pr, id.value, value)
    case Delete(key) =>
      var id := Encode(GCP, MAX_ID_LEN, key);
      if pr.down || id.Err? then pr else pr.(secrets := pr.secrets - {id.value})
    case Switch(id, n, enabled) =>
      if id !in pr.secrets then pr
      else
        var sec := pr.secrets[id];
        pr.(secrets := pr.secrets[id := sec.(disabled := if enabled then sec.disabled - {n} else sec.disabled + {n})])
    case Foreign(id, None) => pr.(secrets := pr.secrets - {id})
    case Foreign(id, Some(sec)) => pr.(secrets := pr.secrets[id := sec])
    case Outage(down) => pr.(down := down)
  }

  function RunOps(now: int, ops: seq<Op>): Project {
    if ops == [] then Project(map[], now, false) else Apply(RunOps(now, ops[..|ops| - 1]), ops[|ops| - 1])
  }

  // The values put under a key since it was last deleted.
  function History(now: int, ops: seq<Op>, key: Key): seq<Bytes> {
    if ops == [] then []
    else
      var front := ops[..|ops| - 1];
      Remembered(RunOps(now, front).down, ops[|ops| - 1], key, History(now, front, key))
  }

  function Remembered(down: bool, op: Op, key: Key, before: seq<Bytes>): seq<Bytes> {
    match op
    case Put(k, value) => if !down && k == key && value != [] then before + [value] else before
    case Delete(k) => if !down && k == key then [] else before
    case _ => before
  }

  // The project holds exactly `h` under the key's ID.
  ghost predicate Holds(pr: Project, key: Key, h: seq<Bytes>)
    requires Encode(GCP, MAX_ID_LEN, key).Ok?
  {
    HoldsAt(pr, Encode(GCP, MAX_ID_LEN, key).value, h)
  }

  predicate HoldsAt(pr: Project, id: string, h: seq<Bytes>) {
    (id in pr.secrets <==> h != []) && (id in pr.secrets ==> pr.secrets[id].versions == h)
  }

  // Another key, or an ID that does not decode, is stored elsewhere.
  lemma StoredElsewhere(op: Op, key: Key)
    requires Possible(op) && Encode(GCP, MAX_ID_LEN, key).Ok?
    ensures (op.Put? || op.Delete?) && op.key != key ==>
              Encode(GCP, MAX_ID_LEN, op.key) != Encode(GCP, MAX_ID_LEN, key)
    ensures op.Foreign? ==> Ok(op.id) != Encode(GCP, MAX_ID_LEN, key)
  {
    GcpSound();
    DecodeEncode(GCP, MAX_ID_LEN, key);
    if (op.Put? || op.Delete?) && Encode(GCP, MAX_ID_LEN, op.key) == Encode(GCP, MAX_ID_LEN, key) {
      EncodeInjective(GCP, MAX_ID_LEN, key, op.key);
    }
  }

  lemma ApplyRemembers(pr: Project, op: Op, key: Key, h: seq<Bytes>)
    requires Possible(op) && Encode(GCP, MAX_ID_LEN, key).Ok? && Holds(pr, key, h)
    ensures Holds(Apply(pr, op), key, Remembered(pr.down, op, key, h))
  {
    StoredElsewhere(op, key);
    match op
    case Put(k, value) => assert [] + [value] == [value];
    case _ =>
  }

  // Over every run, the project holds each key's history and no empty value.
  lemma {:induction false} RunRefinesHistory(now: int, ops: seq<Op>, key: Key)
    requires forall op :: op in ops ==> Possible(op)
    requires Encode(GCP, MAX_ID_LEN, key).Ok?
    ensures Holds(RunOps(now, ops), key, History(now, ops, key))
    ensures forall v :: v in History(now, ops, key) ==> v != []
  {
    if ops != [] {
      var front, op := ops[..|ops| - 1], ops[|ops| - 1];
      assert op in ops && forall o :: o in front ==> o in ops;
      RunRefinesHistory(now, front, key);
      ApplyRemembers(RunOps(now, front), op, key, History(now, front, key));
    }
  }

  // Get reads the history: the last value put, numbered by how many puts
  // there were, unless that version has been disabled.
  lemma GetReadsHistory(now: int, ops: seq<Op>, key: Key)
    requires forall op :: op in ops ==> Possible(op)
    requires Encode(GCP, MAX_ID_LEN, key).Ok? && !RunOps(now, ops).down
    ensures var pr, h := RunOps(now, ops), History(now, ops, key);
            if h == [] then Lookup(pr, key) == Err(Missing)
            else if !Live(pr, Encode(GCP, MAX_ID_LEN, key).value) then
              Lookup(pr, key) == Err(Backend(FailedPrecondition))
            else Lookup(pr, key).Ok? && Lookup(pr, key).value.value == h[|h| - 1]
                 && Lookup(pr, key).value.meta.version == Decimal(|h|)
  {
    RunRefinesHistory(now, ops, key);
    var h := History(now, ops, key);
    assert h != [] ==> h[|h| - 1] in h;
  }

  // Secrets whose IDs decode are only ever made by Put.
  lemma {:induction false} RunKeepsProper(now: int, ops: seq<Op>, id: string)
    requires forall op :: op in ops ==> Possible(op)
    requires id in RunOps(now, ops).secrets && Decode(GCP, id).Ok?
    ensures Encode(GCP, MAX_ID_LEN, Decode(GCP, id).value) == Ok(id)
  {
    var front, op := ops[..|ops| - 1], ops[|ops| - 1];
    assert op in ops && forall o :: o in front ==> o in ops;
    if id in RunOps(now, front).secrets {
      RunKeepsProper(now, front, id);
    } else {
      GcpSound();
      DecodeEncode(GCP, MAX_ID_LEN, op.key);
    }
  }

  // So over every run, whatever is disabled or foreign, each listing agrees
  // with Get.
  lemma EveryListingAgrees(now: int, ops: seq<Op>, ns: Namespace, out: seq<SecretMeta>)
    requires forall op :: op in ops ==> Possible(op)
    requires !RunOps(now, ops).down && IsListing(RunOps(now, ops), ns, out)
    ensures Agrees(Reads(RunOps(now, ops)), ns, out)
  {
    var pr := RunOps(now, ops);
    forall id | id in pr.secrets && Selected(pr, ns, id) ensures Canonical(pr, id) {
      RunKeepsProper(now, ops, id);
      var key := Decode(GCP, id).value;
      RunRefinesHistory(now, ops, key);
      var h := History(now, ops, key);
      assert h[|h| - 1] in h;
    }
    ListAgreesIffClean(pr, ns, out);
  }
}
