/** Listing a Key Vault: pages of entries, walked on every call, and what makes
    a poll of them notice every write. */
module AzureListing {
  import opened Outcomes
  import opened Keys
  import opened KeyEncoding
  import opened AzureNames
  import opened AzureStore
  import opened Diffs
  import opened Gathering
  import opened KeyVault
  import opened Listings
  import opened Secrets
  import opened Sorting
  import opened Streams
  import opened Timestamps

  // An entry of a listing page, parts of which may be missing.
  datatype Props = Props(name: Option<string>, attributes: Option<Attributes>)

  type Page = seq<Option<Props>>

  // What one entry adds: nothing if it is incomplete, undecodable or elsewhere.
  function Entry(ns: Namespace, p: Option<Props>): Result<Option<SecretMeta>, StoreError> {
    if p.None? || p.value.name.None? then Ok(None)
    else
      match Decode(AZURE, p.value.name.value)
      case Err(_) => Ok(None)
      case Ok(k) =>
        if !ns.Encloses(k.ns) then Ok(None)
        else
          match MetaOf(k, p.value.attributes)
          case Err(e) => Err(e)
          case Ok(m) => Ok(Some(m))
  }

  function EntryIn(ns: Namespace): Option<Props> -> Result<Option<SecretMeta>, StoreError> {
    (p: Option<Props>) => Entry(ns, p)
  }

  // What List collects from the pages, before sorting.
  function Collected(ns: Namespace, pages: seq<Page>): Result<seq<SecretMeta>, StoreError> {
    Gather(EntryIn(ns), Flatten(pages))
  }

  // An entry for a key under ns that lacks its attributes.
  predicate Unstamped(ns: Namespace, p: Option<Props>) {
    && p.Some? && p.value.name.Some? && p.value.attributes.None?
    && Decode(AZURE, p.value.name.value).Ok? && ns.Encloses(Decode(AZURE, p.value.name.value).value.ns)
  }

  // An entry for the key of m, which is under ns, with the attributes m shows.
  predicate Carries(ns: Namespace, p: Option<Props>, m: SecretMeta) {
    && p.Some? && p.value.name.Some? && p.value.attributes.Some?
    && Decode(AZURE, p.value.name.value) == Ok(m.key) && ns.Encloses(m.key.ns)
    && m.version == VersionText(p.value.attributes.value.updated)
    && m.createdAt == p.value.attributes.value.created
  }

  lemma EntryFails(ns: Namespace, p: Option<Props>)
    ensures EntryIn(ns)(p).Err? <==> Unstamped(ns, p)
    ensures EntryIn(ns)(p).Err? ==> EntryIn(ns)(p).error == MissingAttributes
  {}

  lemma EntryMeans(ns: Namespace, p: Option<Props>, m: SecretMeta)
    ensures EntryIn(ns)(p) == Ok(Some(m)) <==> Carries(ns, p, m)
  {}

  // The walk fails exactly for an entry under ns without attributes: names
  // that do not decode, or decode elsewhere, are passed over.
  lemma {:induction false} CollectedFails(ns: Namespace, pages: seq<Page>)
    ensures Collected(ns, pages).Err? <==> exists p :: p in Flatten(pages) && Unstamped(ns, p)
    ensures Collected(ns, pages).Err? ==> Collected(ns, pages) == Err(MissingAttributes)
  {
    forall p: Option<Props> ensures EntryIn(ns)(p).Err? <==> Unstamped(ns, p) {
      EntryFails(ns, p);
    }
    forall p | p in Flatten(pages) && EntryIn(ns)(p).Err? ensures EntryIn(ns)(p).error == MissingAttributes {
      EntryFails(ns, p);
    }
    GatherErrors(EntryIn(ns), Flatten(pages), MissingAttributes);
  }

  // Otherwise it collects what the entries under ns carry.
  lemma {:induction false} CollectedMeans(ns: Namespace, pages: seq<Page>, m: SecretMeta)
    requires Collected(ns, pages).Ok?
    ensures m in Collected(ns, pages).value <==> exists p :: p in Flatten(pages) && Carries(ns, p, m)
  {
    GatherMembers(EntryIn(ns), Flatten(pages), m);
    forall p: Option<Props> ensures EntryIn(ns)(p) == Ok(Some(m)) <==> Carries(ns, p, m) {
      EntryMeans(ns, p, m);
    }
  }

  // So a vault whose secrets all have attributes is always listed, whatever
  // else it holds.
  lemma {:induction false} StampedVaultIsListed(v: Vault, ns: Namespace, pages: seq<Page>)
    requires Lists(v, Flatten(pages)) && forall n :: n in v.secrets ==> v.secrets[n].attributes.Some?
    ensures Collected(ns, pages).Ok?
  {
    CollectedFails(ns, pages);
    forall p | p in Flatten(pages) ensures !Unstamped(ns, p) {
      assert p.Some? && p.value.name.Some? ==> Backed(v, p.value);
    }
  }

  method ListEntry(ns: Namespace, p: Option<Props>) returns (r: Result<Option<SecretMeta>, StoreError>)
    ensures r == EntryIn(ns)(p)
  {
    if p.None? || p.value.name.None? {
      return Ok(None);
    }
    var key := DecodeName(p.value.name.value);
    if key.Err? {
      return Ok(None);
    }
    var under := ns.Contains(key.value.ns);
    if !under {
      return Ok(None);
    }
    match MetaOf(key.value, p.value.attributes)
    case Err(e) => return Err(e);
    case Ok(m) => return Ok(Some(m));
  }

  // One page, after the entries before it.
  method ListPage(ns: Namespace, page: Page, ghost front: Page, before: seq<SecretMeta>)
    returns (r: Result<seq<SecretMeta>, StoreError>)
    requires Gather(EntryIn(ns), front) == Ok(before)
    ensures r == Gather(EntryIn(ns), front + page)
  {
    var out := before;
    assert front + [] == front;
    for j := 0 to |page|
      invariant Gather(EntryIn(ns), front + page[..j]) == Ok(out)
    {
      GatherStep(EntryIn(ns), front, page, j);
      var entry := ListEntry(ns, page[j]);
      match entry {
        case Err(e) =>
          GatherStops(EntryIn(ns), front, page, j + 1);
          return Err(e);
        case Ok(None) =>
        case Ok(Some(m)) => out := out + [m];
      }
    }
    assert page[..|page|] == page;
    return Ok(out);
  }

  // List over the pager's answers, after which it may fail.
  method List(ns: Namespace, pages: seq<Page>, failure: Option<Status>) returns (r: Result<seq<SecretMeta>, StoreError>)
    ensures (exists p :: p in Flatten(pages) && Unstamped(ns, p)) ==> r == Err(MissingAttributes)
    ensures Collected(ns, pages).Err? <==> exists p :: p in Flatten(pages) && Unstamped(ns, p)
    ensures Collected(ns, pages).Ok? && failure.Some? ==> r == Err(Wrap(failure.value))
    ensures Collected(ns, pages).Ok? && failure.None? ==>
              r.Ok? && SortedBy(r.value, NameOf) && multiset(r.value) == multiset(Collected(ns, pages).value)
  {
    CollectedFails(ns, pages);
    var out := [];
    for i := 0 to |pages|
      invariant Collected(ns, pages[..i]) == Ok(out)
    {
      ghost var front := Flatten(pages[..i]);
      assert pages[..i + 1][..i] == pages[..i];
      var page := ListPage(ns, pages[i], front, out);
      if page.Err? {
        FlattenPrefix(pages, i + 1);
        ghost var seen, all := front + pages[i], Flatten(pages);
        assert all == seen + all[|seen|..];
        GatherFails(EntryIn(ns), seen, all[|seen|..]);
        return Err(page.error);
      }
      out := page.value;
    }
    assert pages[..|pages|] == pages;
    if failure.Some? {
      return Err(Wrap(failure.value));
    }
    SortSorts(out, NameOf);
    return Ok(Sort(out, NameOf));
  }

  // ---- listing against reading -------------------------------------------

  // The pages together list the vault: each live secret, and nothing else
  // but incomplete entries.
  ghost predicate Lists(v: Vault, props: Page) {
    && (forall n :: n in v.secrets ==> Some(Props(Some(n), v.secrets[n].attributes)) in props)
    && (forall p :: p in props && p.Some? && p.value.name.Some? ==> Backed(v, p.value))
  }

  predicate Backed(v: Vault, p: Props)
    requires p.name.Some?
  {
    p.name.value in v.secrets && p.attributes == v.secrets[p.name.value].attributes
  }

  // What one live name adds to a listing.
  function EntryAt(v: Vault, ns: Namespace): string -> Option<SecretMeta> {
    (n: string) =>
      if n !in v.secrets then None
      else
        match Entry(ns, Some(Props(Some(n), v.secrets[n].attributes)))
        case Err(_) => None
        case Ok(m) => m
  }

  // The names that entries carry.
  function NamesIn(props: Page): seq<string> {
    if props == [] then []
    else
      var front, p := NamesIn(props[..|props| - 1]), props[|props| - 1];
      if p.Some? && p.value.name.Some? then front + [p.value.name.value] else front
  }

  // However the vault is cut into pages, List reports whatever Get can read
  // under ns, as Get reports it.
  lemma {:induction false} ListShowsReadable(v: Vault, ns: Namespace, pages: seq<Page>, k: Key, name: string)
    requires v.failure.None? && Lists(v, Flatten(pages)) && Collected(ns, pages).Ok?
    requires ns.Encloses(k.ns) && NameFor(k) == Ok(name) && Lookup(v, k, name).Ok?
    ensures Lookup(v, k, name).value.meta in Collected(ns, pages).value
  {
    EncodeNameRoundTrips(k);
    var p := Some(Props(Some(name), v.secrets[name].attributes));
    assert p in Flatten(pages) && EntryIn(ns)(p) == Ok(Some(Lookup(v, k, name).value.meta));
    GatherMembers(EntryIn(ns), Flatten(pages), Lookup(v, k, name).value.meta);
  }

  // And what it reports is what some live name that decodes to the key
  // holds.
  lemma {:induction false} ListShowsHeld(v: Vault, ns: Namespace, pages: seq<Page>, m: SecretMeta)
    returns (n: string)
    requires Lists(v, Flatten(pages)) && Collected(ns, pages).Ok? && m in Collected(ns, pages).value
    ensures ns.Encloses(m.key.ns) && n in v.secrets && Decode(AZURE, n) == Ok(m.key)
    ensures MetaOf(m.key, v.secrets[n].attributes) == Ok(m)
  {
    GatherMembers(EntryIn(ns), Flatten(pages), m);
    var p :| p in Flatten(pages) && EntryIn(ns)(p) == Ok(Some(m));
    EntryOrigin(ns, p, m);
    assert Backed(v, p.value);
    n := p.value.name.value;
  }

  lemma EntryOrigin(ns: Namespace, p: Option<Props>, m: SecretMeta)
    requires Entry(ns, p) == Ok(Some(m))
    ensures p.Some? && p.value.name.Some? && Decode(AZURE, p.value.name.value) == Ok(m.key)
    ensures ns.Encloses(m.key.ns) && MetaOf(m.key, p.value.attributes) == Ok(m)
  {}

  function Reads(v: Vault): Key -> Option<SecretMeta> {
    (k: Key) =>
      match NameFor(k)
      case Err(_) => None
      case Ok(n) => match Lookup(v, k, n) case Ok(sec) => Some(sec.meta) case Err(_) => None
  }

  function OwnName(): Key -> Option<string> {
    (k: Key) => match NameFor(k) case Ok(n) => Some(n) case Err(_) => None
  }

  // Every live name that decodes to a key under ns is that key's own name,
  // and holds a value.
  ghost predicate Clean(v: Vault, ns: Namespace) {
    forall n :: n in v.secrets && EntryAt(v, ns)(n).Some? ==> Canonical(v, n, EntryAt(v, ns)(n).value.key)
  }

  predicate Canonical(v: Vault, n: string, k: Key)
    requires n in v.secrets
  {
    NameFor(k) == Ok(n) && v.secrets[n].value.Some? && v.secrets[n].value.value != ""
  }

  lemma EntryAtOrigin(v: Vault, ns: Namespace, n: string)
    requires EntryAt(v, ns)(n).Some?
    ensures var m := EntryAt(v, ns)(n).value;
            n in v.secrets && Decode(AZURE, n) == Ok(m.key) && ns.Encloses(m.key.ns)
            && MetaOf(m.key, v.secrets[n].attributes) == Ok(m)
  {
    EntryOrigin(ns, Some(Props(Some(n), v.secrets[n].attributes)), EntryAt(v, ns)(n).value);
  }

  lemma ReadsAreListed(v: Vault, ns: Namespace)
    ensures Coherent(EntryAt(v, ns), Reads(v), OwnName(), ns, v.secrets.Keys)
  {
    forall n | n in v.secrets.Keys && EntryAt(v, ns)(n).Some?
      ensures ns.Encloses(EntryAt(v, ns)(n).value.key.ns)
    {
      EntryAtOrigin(v, ns, n);
    }
    forall k: Key | Reads(v)(k).Some? && ns.Encloses(k.ns)
      ensures OwnName()(k).Some? && OwnName()(k).value in v.secrets.Keys
      ensures EntryAt(v, ns)(OwnName()(k).value) == Reads(v)(k) && Reads(v)(k).value.key == k
    {
      EncodeNameRoundTrips(k);
    }
  }

  lemma CanonicalIffProper(v: Vault, n: string, k: Key)
    requires v.failure.None? && n in v.secrets && MetaOf(k, v.secrets[n].attributes).Ok?
    ensures Canonical(v, n, k) <==> OwnName()(k) == Some(n) && Reads(v)(k).Some?
  {}

  lemma CleanIffProper(v: Vault, ns: Namespace)
    requires v.failure.None?
    ensures Clean(v, ns) <==> Proper(EntryAt(v, ns), Reads(v), OwnName(), v.secrets.Keys)
  {
    forall n | n in v.secrets && EntryAt(v, ns)(n).Some?
      ensures var k := EntryAt(v, ns)(n).value.key;
              Canonical(v, n, k) <==> OwnName()(k) == Some(n) && Reads(v)(k).Some?
    {
      EntryAtOrigin(v, ns, n);
      CanonicalIffProper(v, n, EntryAt(v, ns)(n).value.key);
    }
  }

  lemma BackedEntry(v: Vault, ns: Namespace, p: Props)
    requires p.name.Some? && Backed(v, p) && EntryIn(ns)(Some(p)).Ok?
    ensures EntryAt(v, ns)(p.name.value) == EntryIn(ns)(Some(p)).value
  {
    assert p == Props(Some(p.name.value), v.secrets[p.name.value].attributes);
  }

  lemma {:induction false} CollectedIsChosen(v: Vault, ns: Namespace, props: Page)
    requires forall p :: p in props && p.Some? && p.value.name.Some? ==> Backed(v, p.value)
    requires Gather(EntryIn(ns), props).Ok?
    ensures Gather(EntryIn(ns), props).value == Chosen(EntryAt(v, ns), NamesIn(props))
  {
    if props != [] {
      var front, p := props[..|props| - 1], props[|props| - 1];
      assert p in props && forall q :: q in front ==> q in props;
      CollectedIsChosen(v, ns, front);
      if p.Some? && p.value.name.Some? {
        BackedEntry(v, ns, p.value);
        assert NamesIn(props)[..|NamesIn(front)|] == NamesIn(front);
      } else {
        assert EntryIn(ns)(p) == Ok(None);
      }
    }
  }

  lemma {:induction false} NamesInMembers(props: Page, n: string)
    ensures n in NamesIn(props) <==> exists p :: p in props && p.Some? && p.value.name == Some(n)
  {
    if props != [] {
      NamesInMembers(props[..|props| - 1], n);
      assert props == props[..|props| - 1] + [props[|props| - 1]];
    }
  }

  // The pages list the vault and no name twice.
  ghost predicate ListsOnce(v: Vault, props: Page) {
    Lists(v, props) && Enumerates(NamesIn(props), Members(NamesIn(props)))
  }

  lemma ListedNames(v: Vault, props: Page)
    requires Lists(v, props)
    ensures Members(NamesIn(props)) == v.secrets.Keys
  {
    forall n ensures n in NamesIn(props) <==> n in v.secrets {
      NamesInMembers(props, n);
      if n in v.secrets {
        assert Some(Props(Some(n), v.secrets[n].attributes)) in props;
      }
      if n in NamesIn(props) {
        var p :| p in props && p.Some? && p.value.name == Some(n);
        assert Backed(v, p.value);
      }
    }
  }

  // A listing of the vault agrees with Get exactly when every listed name is
  // its key's own and holds a value.
  lemma {:induction false} ListAgreesIffClean(v: Vault, ns: Namespace, pages: seq<Page>, out: seq<SecretMeta>)
    requires v.failure.None? && ListsOnce(v, Flatten(pages)) && Collected(ns, pages).Ok?
    requires SortedBy(out, NameOf) && multiset(out) == multiset(Collected(ns, pages).value)
    ensures Agrees(Reads(v), ns, out) <==> Clean(v, ns)
  {
    var props := Flatten(pages);
    ListedNames(v, props);
    CollectedIsChosen(v, ns, props);
    ReadsAreListed(v, ns);
    CleanIffProper(v, ns);
    AgreesIffProper(EntryAt(v, ns), Reads(v), OwnName(), ns, NamesIn(props), out);
  }

  // ---- versions and the watch --------------------------------------------

  // No secret is newer than the vault's clock.
  ghost predicate Clocked(v: Vault) {
    forall n :: n in v.secrets && v.secrets[n].attributes.Some? ==> v.secrets[n].attributes.value.updated <= v.now
  }

  // A live secret is the one there was, or newer than the time `t`.
  predicate SameOrNewer(was: VaultSecret, t: Instant, v: Vault, name: string) {
    && t <= v.now
    && (name in v.secrets && v.secrets[name] != was ==>
          v.secrets[name].attributes.Some? && v.secrets[name].attributes.value.updated > t)
  }

  lemma {:induction false} RunStaysNewer(was: VaultSecret, t: Instant, v: Vault, ops: seq<Op>, name: string)
    requires SameOrNewer(was, t, v, name) && forall op :: op in ops ==> !(op.Recover? && op.name == name)
    ensures SameOrNewer(was, t, RunOps(v, ops), name)
    decreases |ops|
  {
    if ops != [] {
      assert ops[0] in ops;
      RunStaysNewer(was, t, Apply(v, ops[0]), ops[1..], name);
    }
  }

  // Whatever is written, deleted and purged between two polls, recoveries of
  // the name aside: a key that both find is reported as Updated exactly when
  // its secret has changed.
  lemma {:induction false} ChangesAreNoticed(v: Vault, ops: seq<Op>, key: Key, name: string, shown: SecretMeta,
                                             seen: Table, ms: seq<SecretMeta>, m: SecretMeta)
    requires NameFor(key) == Ok(name) && Clocked(v)
    requires forall op :: op in ops ==> !(op.Recover? && op.name == name)
    requires name in v.secrets && MetaOf(key, v.secrets[name].attributes) == Ok(shown)
    requires NameOf(shown) in seen && seen[NameOf(shown)].version == shown.version
    requires name in RunOps(v, ops).secrets && MetaOf(key, RunOps(v, ops).secrets[name].attributes) == Ok(m)
    requires Distinct(ms) && m in ms
    ensures Updated(m) in DiffEvents(seen, ms) <==> RunOps(v, ops).secrets[name] != v.secrets[name]
  {
    RunStaysNewer(v.secrets[name], v.now, v, ops, name);
    var a, b := v.secrets[name].attributes.value, RunOps(v, ops).secrets[name].attributes.value;
    VersionsTellApart(a.updated, b.updated);
    ReportedIffChanged(seen, ms, m);
  }
}
