/** Secrets that someone else stored: the smallest projects and vaults whose
    listing and reading disagree. */
module ForeignNames {
  import opened Outcomes
  import opened Text
  import opened Keys
  import opened Escaping
  import opened KeyEncoding
  import opened AzureNames
  import opened GcpNames
  import opened Secrets
  import opened Sorting
  import opened Listings
  import opened Gathering
  import opened Timestamps
  import Streams
  import Diffs
  import SecretManager
  import GcpStore
  import KeyVault
  import AzureStore
  import AzureListing

  // ---- Secret Manager ----------------------------------------------------

  // A project that holds one secret with one version.
  function Lone(id: string, payload: SecretManager.Bytes): SecretManager.Project {
    SecretManager.Project(map[id := SecretManager.StoredSecret(0, [payload], {})], 0, false)
  }

  // Whatever its ID, if it decodes, the secret is listed.
  lemma LoneIsListed(id: string, payload: SecretManager.Bytes, k: Key)
    requires Decode(GCP, id) == Ok(k)
    ensures GcpStore.IsListing(Lone(id, payload), Namespace([]), [SecretMeta(k, Decimal(1), 0)])
  {
    var pr, ids, m := Lone(id, payload), [id], SecretMeta(k, Decimal(1), 0);
    var entry := GcpStore.EntryIn(pr, Namespace([]));
    assert entry(id) == Some(m);
    assert ids[..0] == [] && Chosen(entry, []) == [];
    assert [] + [m] == [m];
    assert Chosen(entry, ids) == [m];
    assert Members(ids) == pr.secrets.Keys;
    assert GcpStore.IsListingOf(pr, Namespace([]), [m], ids);
  }

  lemma SlashesEscape()
    ensures GCP.Escape("a/b") == "a-1b" && GCP.Escape("a//b") == "a-1-1b"
  {
    EscapeAdds(GCP, "a/", "b");
    EscapeAdds(GCP, "a", "/");
    EscapeAdds(GCP, "a", "//");
    EscapeAdds(GCP, "/", "/");
    EscapeAdds(GCP, "a//", "b");
    assert "a/b" == "a" + "/" + "b" && "//" == "/" + "/" && "a//b" == "a" + "//" + "b";
    assert GCP.Unit('/') == "-1" && GCP.Unit('a') == "a" && GCP.Unit('b') == "b";
  }

  // The key a/b, under its own ID and under another that decodes to it.
  lemma TwoSlashes() returns (k: Key)
    ensures k.String() == "a/b" && Encode(GCP, MAX_ID_LEN, k) == Ok("a-1b")
    ensures Decode(GCP, "a-1-1b") == Ok(k)
  {
    GcpSound();
    k := Key(Namespace(["a"]), "b");
    assert k.ns.String() == "a" && k.String() == "a/b";
    SlashesEscape();
    UnescapeEscape(GCP, "a//b");
    assert Slashes(0) == "" && Slashes(2) == "/" + "/";
    assert SpellsWith("a//b", k, 0, 2, 0);
    SpelledParses("a//b", k, 0, 2, 0);
  }

  // Stored under "a-1-1b" it is listed, but Get does not find it.
  lemma ForeignIDDisagrees(payload: SecretManager.Bytes) returns (k: Key)
    ensures k.String() == "a/b"
    ensures GcpStore.IsListing(Lone("a-1-1b", payload), Namespace([]), [SecretMeta(k, Decimal(1), 0)])
    ensures GcpStore.Lookup(Lone("a-1-1b", payload), k) == Err(GcpStore.Missing)
  {
    k := TwoSlashes();
    LoneIsListed("a-1-1b", payload, k);
    assert "a-1b" != "a-1-1b";
  }

  lemma EmptyIsRefused(id: string, k: Key)
    requires Encode(GCP, MAX_ID_LEN, k) == Ok(id)
    ensures GcpStore.Lookup(Lone(id, []), k) == Err(GcpStore.EmptyValue)
  {
    assert GcpStore.Live(Lone(id, []), id);
  }

  // Under its own ID but with nothing in it, it is listed and not readable.
  lemma EmptyPayloadDisagrees(k: Key, id: string)
    requires Encode(GCP, MAX_ID_LEN, k) == Ok(id)
    ensures GcpStore.IsListing(Lone(id, []), Namespace([]), [SecretMeta(k, Decimal(1), 0)])
    ensures GcpStore.Lookup(Lone(id, []), k) == Err(GcpStore.EmptyValue)
  {
    GcpSound();
    DecodeEncode(GCP, MAX_ID_LEN, k);
    LoneIsListed(id, [], k);
    EmptyIsRefused(id, k);
  }

  // ---- Key Vault ---------------------------------------------------------

  // A vault that holds these names.
  function Vault(secrets: map<string, KeyVault.VaultSecret>): KeyVault.Vault {
    KeyVault.Vault(secrets, map[], 0, 0, false, None)
  }

  function Listed(n: string, a: KeyVault.Attributes): Option<AzureListing.Props> {
    Some(AzureListing.Props(Some(n), Some(a)))
  }

  lemma CapitalEscapes()
    ensures AZURE.Escape("a/B") == "a-1-b"
  {
    EscapeAdds(AZURE, "a/", "B");
    EscapeAdds(AZURE, "a", "/");
    assert "a/B" == "a" + "/" + "B";
    assert AZURE.Unit('/') == "-1" && AZURE.Unit('a') == "a" && AZURE.Unit('B') == "-b";
  }

  lemma CapitalUnescapes()
    ensures AZURE.Unescape("a-1B") == Some("a/B")
  {
    assert AZURE.Unescape("") == Some("");
    assert AZURE.uncode('1') == Some('/');
    UnescapeStep(AZURE, "", "a", 'a');
    UnescapeStep(AZURE, "a", "-1", '/');
    UnescapeStep(AZURE, "a-1", "B", 'B');
    assert "" + "a" == "a" && "a" + "-1" == "a-1" && "a-1" + "B" == "a-1B";
    assert "" + "a" + "/" + "B" == "a/B";
  }

  // A capital need not be escaped to be understood.
  lemma TwoSpellings() returns (k: Key)
    ensures k.String() == "a/B" && AzureStore.NameFor(k) == Ok("a-1-b")
    ensures Decode(AZURE, "a-1B") == Ok(k) && Decode(AZURE, "a-1-b") == Ok(k)
  {
    AzureSound();
    k := Key(Namespace(["a"]), "B");
    assert k.ns.String() == "a" && k.String() == "a/B";
    CapitalEscapes();
    CapitalUnescapes();
    DecodeEncode(AZURE, MAX_AZURE_NAME_LEN, k);
    ParsePrint(k);
  }

  lemma OneEntry(n: string, a: KeyVault.Attributes, k: Key)
    requires Decode(AZURE, n) == Ok(k)
    ensures AzureListing.EntryIn(Namespace([]))(Listed(n, a))
            == Ok(Some(SecretMeta(k, VersionText(a.updated), a.created)))
  {
    assert AzureStore.MetaOf(k, Some(a)) == Ok(SecretMeta(k, VersionText(a.updated), a.created));
  }

  // A vault that holds one secret, and its listing.
  lemma OneSecret(n: string, value: Option<KeyVault.Value>, a: KeyVault.Attributes, k: Key)
    requires Decode(AZURE, n) == Ok(k)
    ensures AzureListing.ListsOnce(Vault(map[n := KeyVault.VaultSecret(value, Some(a))]), [Listed(n, a)])
    ensures Gather(AzureListing.EntryIn(Namespace([])), [Listed(n, a)])
            == Ok([SecretMeta(k, VersionText(a.updated), a.created)])
  {
    OneEntry(n, a, k);
    GatherOne(AzureListing.EntryIn(Namespace([])), Listed(n, a), SecretMeta(k, VersionText(a.updated), a.created));
    var props := [Listed(n, a)];
    assert props[..0] == [];
    assert AzureListing.NamesIn(props) == [n];
  }

  // A vault that holds "a-1B" lists a/B, but Get does not find it.
  lemma CapitalDisagrees(value: KeyVault.Value, a: KeyVault.Attributes) returns (k: Key)
    ensures k.String() == "a/B"
    ensures var v, props := Vault(map["a-1B" := KeyVault.VaultSecret(Some(value), Some(a))]), [Listed("a-1B", a)];
            && AzureListing.ListsOnce(v, props)
            && Gather(AzureListing.EntryIn(Namespace([])), props)
               == Ok([SecretMeta(k, VersionText(a.updated), a.created)])
            && AzureStore.NameFor(k).Ok?
            && AzureStore.Lookup(v, k, AzureStore.NameFor(k).value) == Err(AzureStore.Missing)
  {
    k := TwoSpellings();
    OneSecret("a-1B", Some(value), a, k);
  }

  // A secret without a value is listed under its own name and not readable.
  lemma NoValueDisagrees(k: Key, n: string, a: KeyVault.Attributes)
    requires AzureStore.NameFor(k) == Ok(n)
    ensures var v, props := Vault(map[n := KeyVault.VaultSecret(None, Some(a))]), [Listed(n, a)];
            && AzureListing.ListsOnce(v, props)
            && Gather(AzureListing.EntryIn(Namespace([])), props)
               == Ok([SecretMeta(k, VersionText(a.updated), a.created)])
            && AzureStore.Lookup(v, k, n) == Err(AzureStore.EmptyValue)
  {
    EncodeNameRoundTrips(k);
    OneSecret(n, None, a, k);
  }

  // Held under both names, a/B is listed twice; unless both were last written
  // at one time, every poll then reports it twice though nothing differs.
  lemma TwoNamesFlap(a: KeyVault.Attributes, b: KeyVault.Attributes) returns (ms: seq<SecretMeta>)
    requires a.updated != b.updated
    ensures Gather(AzureListing.EntryIn(Namespace([])), [Listed("a-1-b", a), Listed("a-1B", b)]) == Ok(ms)
    ensures |ms| == 2 && ms[0].key == ms[1].key && ms[0].key.String() == "a/B"
    ensures Diffs.Differing(Latest(ms), ms) == {}
    ensures Streams.DiffEvents(Latest(ms), ms) == [Updated(ms[0]), Updated(ms[1])]
  {
    var k := TwoSpellings();
    var m, n := SecretMeta(k, VersionText(a.updated), a.created), SecretMeta(k, VersionText(b.updated), b.created);
    ms := [m, n];
    OneEntry("a-1-b", a, k);
    OneEntry("a-1B", b, k);
    GatherTwo(AzureListing.EntryIn(Namespace([])), Listed("a-1-b", a), Listed("a-1B", b), m, n);
    VersionsTellApart(a.updated, b.updated);
    Diffs.RepeatedKeyFlaps(m, n);
  }
}
