# vaultlet: a verified model

This project models the parts of vaultlet where a mistake would be hard to see,
and proves what the program promises about them. `dafny verify dfyconfig.toml`
checks everything.

What is modelled, and the main results:

- **Watching.** `Streams` says what a poller sends for any run of snapshots and
  failed polls, what a subscriber makes of it, and when a stream is well shaped.
  `Polling` is the poller's goroutine over a mutable table, proved to send that
  stream or, if the context ends, a prefix of it. `Diffs` shows that one poll
  reports exactly what changed, in a fixed order, and that no shorter report
  would do, precisely for the listings that give no key two versions. `Services` is the policy layer; `Pipelines` joins poller, filter and
  subscriber by two unbuffered channels and quantifies over every interleaving:
  the subscriber always has a well-shaped prefix of the ideal stream, whenever
  nothing is in flight its replica agrees with what `Service.List` would show,
  every later listing can be reached, and once the context ends both goroutines stop.
- **Keys and names.** `Keys` parses and prints keys and proves which strings spell
  which key; `KeyBuilding` does the same for `NewKey`. `Escaping` and
  `KeyEncoding` hold the laws the two backends' name encodings share,
  `AzureNames` and `GcpNames` the encodings themselves.
- **Policy.** `Policies` compiles rules and relates the subscription checks to what
  the per-key filters can ever let through.
- **Backends.** `SecretManager`/`GcpStore` and `KeyVault`/`AzureStore`/`AzureListing`
  are the two cloud stores over abstract services that behave as the in-memory
  fakes of the adapters' tests do; others may change a Secret Manager project between
  any two calls. `Listings` is the agreement of listing and reading for any store,
  `ForeignNames` the smallest stores where it fails, `WatchedStores` what watching
  makes of each backend. `ConcurrentPuts` interleaves any number of Secret Manager
  writers call by call, `PutsAndDeletes` the same with Deletes. `Timestamps` is the
  text of Key Vault versions (RFC 3339, section 5.6).

`Text`, `Sorting`, `Gathering`, `Outcomes` and `Contexts` are the library pieces these need. A
Go string is a sequence of bytes; here every `char` is one byte.

Reading guide: code that loops or assigns is a method, proved equal to a function
or relation on values; the lemmas are about those. Nondeterministic choices
(`*`) stand for the scheduler: when the context ends, which ready case of a `select`
is taken, and in what order a map is walked.

## What turned out not to hold

Each has a concrete input and the exact condition under which the program does
what its text says.

- `canWatch` can admit a subscription on which nothing can ever appear (list on
  one child, watch on a sibling). Something can be visible exactly when a list rule
  and a watch rule meet beneath the subscription; if every rule granting watch also
  grants list, `canWatch` is exact.
- `NewKey` with a name that is empty or all slashes does not fail for a namespace of
  two or more segments: it returns a key outside the namespace, the last segment
  having become the name. It stays beneath the namespace exactly when the name has
  some other character.
- The Secret Manager listing "matching what Get would report" fails when someone
  stores a secret under an ID that decodes but is not canonical ("a-1-1b"), or stores an
  empty payload; it holds exactly when no listed secret is of that kind, which is so in
  every run where foreign IDs do not decode.
- "Get and List must agree" fails the same way over Key Vault: a vault may hold a name
  with a capital ("a-1B"), which decodes but is no key's own, or a secret without a value.
  They agree exactly when no listed name is of that kind.
- One poll does not always send one event for each difference: if a key is listed at two
  versions, every poll reports updates though nothing differs. The report is exact, and
  the shortest possible, exactly for the listings in which no key has two versions.
  Replaying agrees for all of them.
- "The value behind an existing key changed" goes unreported over Secret Manager when a
  secret is deleted and put again between two polls as often as before: its versions
  start again at 1. An update is sent exactly when the number of values put since the
  last Delete is not the same, so nothing is missed unless the key was deleted. Over
  Key Vault nothing is missed, recoveries of a deleted name aside.
- The order of version texts is the order of times exactly up to the end of year 9999;
  that different times give different versions holds for every year.
- With a `Delete` among concurrent Secret Manager `Put`s, a `Put` can fail, two can report
  the same version, and one can report the creation time of a secret that is gone. A `Put`
  fails exactly when a Delete that no CreateSecret follows falls between a call that
  showed it the secret and its next call. Two report the same version exactly when a
  Delete came between their additions and both found equally many versions added since
  the last Delete. The creation time is right exactly when no Delete came between the
  call that told it and the addition.
- The grammar in the comment at internal/domain/key.go:14-17 is looser than the
  regular expressions at lines 28-29 and the depth limit ("-a/B" is refused); the model
  follows the code. The two agree exactly on texts of at most eight segments, no segment
  with a dash at either end, and a name that starts with a letter or digit.

## Model

| member | source | states |
|---|---|---|
| Keys.Namespace.Contains | internal/domain/key.go:147-157 | the scan answers true exactly when the namespace's segments begin the other's |
| Keys.EnclosesIsForest | internal/domain/key.go:137-157 | containment is a partial order with the zero namespace on top, ancestors of one namespace form a chain, and a strict ancestor contains the parent |
| Keys.ParseNamespace | internal/domain/key.go:49-64 | trims, splits and checks segment by segment, with the stated limits and errors |
| Keys.ParseNamespaceDecides | internal/domain/key.go:49-64 | a string parses to a namespace exactly when it is that namespace's text between slashes and the namespace is valid |
| Keys.ErrorsSayWhat | internal/domain/key.go:76-91 | whatever is wrong, ParseKey fails with InvalidKey and ParseNamespace with InvalidNamespace |
| Keys.ParseKeyDecides | internal/domain/key.go:76-91 | a string parses to a key exactly when it is slashes, the namespace's segments joined by single slashes, one or more slashes, the name, slashes |
| Keys.ParsePrint | internal/domain/key.go:119-124 | parsing a key's text gives the key back |
| Keys.StringInjective | internal/domain/key.go:119-124 | distinct keys print differently |
| Keys.PrintParse | internal/domain/key.go:76-91 | parse-then-print is an idempotent canonicalisation that never lengthens, and changes a string exactly when it shortens it |
| Keys.PiecesKey | internal/domain/key.go:28-29 | pieces joined by slashes are a key exactly when at most eight stand before the last, each a segment, and the last is a name |
| Keys.DepthLimit | internal/domain/key.go:21-25 | a key with n segments "a" is accepted exactly when n is at most 8 |
| Keys.LengthLimits | internal/domain/key.go:21-25 | a run of letters is a segment up to 63 of them and a name up to 128 |
| Keys.Alphabets | internal/domain/key.go:28-29 | which characters may stand alone or inside a segment, and begin or continue a name |
| Keys.ParseKeyIsStricter | internal/domain/key.go:12-30 | of the texts the comment's grammar allows, ParseKey accepts exactly those of at most eight segments, no segment with a dash at either end, and a name starting with a letter or digit |
| Keys.CommentAllowsMore | internal/domain/key.go:12-30 | "-a/B" follows the comment's grammar and is refused |
| KeyBuilding.NewKeyExact | internal/domain/key.go:103-105 | NewKey returns the key with this namespace and name exactly when the given name is that name, give or take slashes around it |
| KeyBuilding.NewKeyStaysBeneath | internal/domain/key.go:102-105 | a key NewKey returns lies beneath the given namespace exactly when the given name is not all slashes |
| KeyBuilding.NewKeyWithoutName | internal/domain/key.go:102-105 | with an empty name the namespace's last segment becomes the name |
| AzureNames.EncodeName | internal/adapters/driven/azure/name.go:30-53 | the builder loop computes the escaped key text and refuses it beyond 127 characters, reporting its length |
| AzureNames.DecodeName | internal/adapters/driven/azure/name.go:57-85 | the index loop unescapes, refusing a trailing escape and unknown codes, then parses |
| AzureNames.EncodeNameRoundTrips | internal/adapters/driven/azure/name.go:19-21 | decoding the encoding of a key that fits gives the key |
| AzureNames.EncodeNameAlphabet | internal/adapters/driven/azure/name.go:11-17 | encodings use only lower-case letters, digits and '-', and every '-' is followed by exactly one code character |
| AzureNames.EncodeNameNeverCollides | internal/adapters/driven/azure/name.go:11-21 | keys whose encodings are equal under case folding are equal |
| AzureNames.DecodeNameFibre | internal/adapters/driven/azure/name.go:57-85 | a name decodes to a key exactly when, each capital written as its escape, it is the key's encoding with extra "-1" at the ends or before the name |
| AzureNames.CapitalsAreForeign | internal/adapters/driven/azure/name.go:41-43 | no key is stored under a name with a capital |
| AzureNames.EscapeTable | internal/adapters/driven/azure/name.go:11-17 | the documented code of each escaped character; lower-case letters and digits stand for themselves |
| AzureNames.EncodeNameFits | internal/adapters/driven/azure/name.go:49-51 | an encoding has at most 2n-1 characters, so every key of at most 64 characters fits |
| AzureNames.EncodeNameBoundTight | internal/adapters/driven/azure/name.go:49-51 | a key of 65 characters encodes to 129 and is refused |
| AzureNames.EncodeNameLimit | internal/adapters/driven/azure/name.go:49-51 | some key encodes to exactly 127 characters, and none longer is accepted |
| GcpNames.EncodeID | internal/adapters/driven/gcp/name.go:27-45 | the builder loop computes the escaped key text and refuses it beyond 255 characters |
| GcpNames.DecodeID | internal/adapters/driven/gcp/name.go:49-73 | the index loop unescapes, refusing a trailing escape and unknown codes, then parses |
| GcpNames.EncodeIDRoundTrips | internal/adapters/driven/gcp/name.go:11-17 | an encoding is an acceptable ID and decodes to its key |
| GcpNames.UnescapeIDInjective | internal/adapters/driven/gcp/name.go:49-71 | over the ID alphabet, an ID unescapes to a text exactly when it is that text escaped |
| GcpNames.DecodeIDFibre | internal/adapters/driven/gcp/name.go:49-73 | the IDs that decode to a key are its canonical ID with extra "-1" at the ends or before the name, and no others |
| GcpNames.ReEncodeID | internal/adapters/driven/gcp/name.go:27-73 | a decodable ID re-encodes within the limit, and to itself exactly when it carries no extra escape |
| GcpNames.EscapeTable | internal/adapters/driven/gcp/name.go:11-17 | the documented code of each escaped character; letters, digits and "_" stand for themselves |
| GcpNames.EncodeIDFits | internal/adapters/driven/gcp/name.go:41-43 | an encoding has at most 2n-2 characters, so every key of at most 128 characters fits |
| GcpNames.EncodeIDBoundTight | internal/adapters/driven/gcp/name.go:41-43 | a key of 129 characters encodes to 256 and is refused |
| GcpNames.EncodeIDLimit | internal/adapters/driven/gcp/name.go:41-43 | some key encodes to exactly 255 characters, and none longer is accepted |
| Policies.NewPolicy | internal/app/policy.go:33-61 | fails exactly when some spec names an unknown action or an unparsable namespace other than "*", naming the first bad spec's principal and its first unknown action; otherwise each principal's rules are its specs in order |
| Policies.KnownActions | internal/app/policy.go:33-61 | a spec may name exactly get, list, watch, put and delete |
| Policies.WhatSpecsCover | internal/app/policy.go:33-61 | "*" covers every namespace, any other text the namespace it spells and what lies beneath |
| Policies.PolicyMeansSpecs | internal/app/policy.go:63-72 | a compiled policy allows exactly what some spec of that principal grants at or above the namespace |
| Policies.PolicyIsMonotone | internal/app/policy.go:33-72 | adding specs removes no permission; reordering or repeating them changes no decision |
| Policies.CompiledIsSane | internal/app/policy.go:39-60 | compiled rules cover valid namespaces or all of them |
| Policies.Allows | internal/app/policy.go:65-72 | true exactly when some rule of the principal has the action at or above the namespace |
| Policies.CanList | internal/app/policy.go:76-87 | true exactly when a list rule's namespace overlaps the requested one |
| Policies.CanWatch | internal/app/policy.go:89-104 | true exactly when both a list rule and a watch rule overlap the requested namespace |
| Policies.CanListIsExact | internal/app/policy.go:74-87 | list is permitted exactly when some key could pass List's per-key filter |
| Policies.VisibleIffRulesMeet | internal/app/service.go:148-156 | some key can be visible to a watcher exactly when a list rule and a watch rule meet beneath the subscription |
| Policies.CanWatchAgainstVisible | internal/app/policy.go:89-104 | whoever could see a key may subscribe; the converse holds when every watch rule also grants list |
| Policies.CanWatchMayShowNothing | internal/app/policy.go:89-104 | without that condition a permitted subscription can have no visible key at all |
| Services.List | internal/app/service.go:63-87 | denies without principal or overlap, passes store errors on, else returns the listed entries under ns the principal may list, in order |
| Services.VisibleTo | internal/app/service.go:151-156 | true exactly when the key is under ns and the principal holds list and watch there |
| Services.FilterEvents | internal/app/service.go:128-146 | forwards exactly InSync and the visible events, in order, or, only if the context ends, a prefix of them |
| Services.MayWatchNow | internal/app/service.go:107-112 | a subscription is admitted exactly for a principal that canWatch admits |
| Services.WatchShowsWhatListShows | internal/app/service.go:124-127 | replaying the filtered stream of any run gives the versions List would show for the last good listing, less keys without watch |
| Services.ListingCoherent | internal/app/service.go:63-87 | listing beneath equals listing above restricted; allowed beneath implies allowed above; denied beneath means nothing from there is shown above |
| Polling.Subscribe | internal/adapters/driven/watch/poll.go:29-39 | an ended context or a failed first listing gives an error and no stream |
| Polling.Poller.Open | internal/adapters/driven/watch/poll.go:56-65 | sends every snapshot entry as Added and then InSync, or, only if the context ends, a prefix; the table is last-wins |
| Polling.Poller.SendUpserts | internal/adapters/driven/watch/poll.go:86-104 | sends the additions and updates of a snapshot in order and records them, or, only if the context ends, a prefix |
| Polling.Poller.Missing | internal/adapters/driven/watch/poll.go:106-113 | whatever order the map is walked in, the missing keys come out in strictly increasing order |
| Polling.Poller.SendDeletions | internal/adapters/driven/watch/poll.go:114-120 | sends the deletions in that order with the recorded metadata and forgets the keys, or, only if the context ends, a prefix |
| Polling.Poller.Diff | internal/adapters/driven/watch/poll.go:86-120 | one successful poll sends exactly the difference, or, only if the context ends, a prefix |
| Polling.Poller.Run | internal/adapters/driven/watch/poll.go:41-122 | over any number of ticks and failed polls the goroutine sends the whole ideal stream and goes on, unless the context ends, when it has sent a prefix; a poll that fails after the end stops it |
| Streams.RunShape | internal/adapters/driven/watch/poll.go:56-121 | every run's stream is well shaped, announces InSync, and replays to the poller's own table |
| Streams.InSyncOnce | api/proto/vaultlet/v1/vaultlet.proto:165-167 | a well-shaped stream announces InSync at most once |
| Streams.ReplayMatchesSnapshot | internal/adapters/driven/watch/poll.go:21-24 | replaying a run gives the versions of the last good snapshot, whatever polls failed and even with repeated keys |
| Streams.DiffReaches | internal/adapters/driven/watch/poll.go:86-120 | diffing from any table reaches exactly the snapshot's versions |
| Streams.DiffComposes | internal/adapters/driven/watch/poll.go:77-84 | skipping a snapshot and diffing from the last good one reaches the same versions |
| Streams.FilterKeepsShape | internal/app/service.go:124-146 | filtering by key keeps a stream well shaped and its replay is the filtered replay |
| Streams.FilteredReplayMatches | internal/app/service.go:124-146 | replaying a filtered run gives exactly the permitted versions of the last good snapshot |
| Diffs.DiffOrder | internal/adapters/driven/watch/poll.go:86-120 | if no key is listed at two versions: the changed entries in snapshot order, each key at its first entry, then the missing keys in increasing order with the metadata last known |
| Diffs.DiffIsExact | internal/adapters/driven/watch/poll.go:86-120 | if no key is listed at two versions: exactly one event for each key whose version entry differs and none otherwise |
| Diffs.DiffIsExactIff | internal/adapters/driven/watch/poll.go:86-120 | a listing is reported exactly, whatever was known before, if and only if it lists no key at two versions |
| Diffs.SilentIffOneVersion | internal/adapters/driven/watch/poll.go:86-120 | polling the same listing again is silent if and only if it lists no key at two versions |
| Diffs.ReportedIffChanged | internal/adapters/driven/watch/poll.go:86-104 | with distinct keys, an entry is sent as Added exactly when its key is new and as Updated exactly when the known version is another |
| Diffs.DiffIsMinimal | internal/adapters/driven/watch/poll.go:86-120 | if no key is listed at two versions: no shorter event sequence brings a replica to the snapshot's versions |
| Diffs.DiffIsMinimalIff | internal/adapters/driven/watch/poll.go:86-120 | the report is the shortest possible, after any stream, if and only if no key is listed at two versions |
| Diffs.RepeatedKeyFlaps | internal/adapters/driven/watch/poll.go:87-104 | the smallest other listing: one key at two versions is reported as two updates by every poll |
| Pipelines.Safety | internal/adapters/driven/watch/poll.go:44-54 | in every interleaving the subscriber has a prefix of the filtered ideal stream |
| Pipelines.SafetyShape | api/proto/vaultlet/v1/vaultlet.proto:149-167 | in every interleaving what the subscriber has received is well shaped: Added, then InSync once, then only events that fit its replica |
| Pipelines.NothingLost | internal/app/service.go:131-143 | in every interleaving what was handed over and what is still offered make up the ideal stream, the filter is at most one event ahead of the subscriber, and a stage stops only after the context ends |
| Pipelines.QuietReplica | internal/adapters/driven/watch/poll.go:70-121 | whenever nothing is in flight, the replica holds exactly the permitted versions of the last good snapshot |
| Pipelines.WatcherAgreesWithList | internal/app/service.go:107-156 | the same in the service's terms, against what Service.List shows |
| Pipelines.Drains | internal/app/service.go:131-143 | while the context lives, sends alone, at most two per event, bring the pipeline to rest |
| Pipelines.EveryRunHappens | internal/adapters/driven/watch/poll.go:70-121 | whatever the polls answer, in any number, some run takes them all and delivers the whole filtered stream with the context alive |
| Pipelines.ReplicaReaches | internal/adapters/driven/watch/poll.go:70-121 | so the replica can follow the store to every later listing |
| Pipelines.EveryPrefixHappens | internal/adapters/driven/watch/poll.go:44-54 | every prefix of the filtered ideal stream is all that some run delivers before both channels close: safety cannot be sharpened |
| Pipelines.EndForbidsNothing | internal/adapters/driven/watch/poll.go:44-54 | the end of the context takes no other move away |
| Pipelines.EndedNeverStuck | internal/adapters/driven/watch/poll.go:44-54 | once the context has ended, an open stage always has a move that waits for nobody, the poller one of its own |
| Pipelines.ShutdownTerminates | internal/adapters/driven/watch/poll.go:70-83 | once the context has ended and listings fail, every run is bounded by a measure and one that cannot go on has closed both channels |
| Pipelines.ShutdownHappens | internal/adapters/driven/watch/poll.go:44-54 | an ended pipeline can close both channels by moves that wait for nobody |
| GcpStore.Store.Get | internal/adapters/driven/gcp/gcp.go:133-161 | whatever others do between its two calls: value and version as the first found them, creation time as the second did, with each error case |
| GcpStore.GetAmongOthers | internal/adapters/driven/gcp/gcp.go:133-161 | undisturbed, Get reads the latest version of one state; disturbed, it reads as if undisturbed exactly when the secret is still the same, so always among writers that never delete |
| GcpStore.Store.FindOrCreate | internal/adapters/driven/gcp/gcp.go:176-199 | the get-create-get sequence ends with a secret to write to; it fails only if a call met a service that was down or, only if others delete, found the secret gone |
| GcpStore.Store.Put | internal/adapters/driven/gcp/gcp.go:163-209 | it fails only if a call met a service that was down or, only if others delete, found the secret gone; otherwise it adds one version, the newest on return, to the secret the last call found; among writers that never delete that version is new and its metadata right; undisturbed, one atomic addition; refusals write nothing |
| GcpStore.Store.List | internal/adapters/driven/gcp/gcp.go:215-256 | whatever others do between its calls: the decodable secrets under ns of the listing, each as it was when its version was read, if live then, sorted by key |
| Text.LessMeans | internal/adapters/driven/gcp/gcp.go:252-254 | listings are ordered as by strings.Compare: a proper prefix first, otherwise by the first byte that differs |
| GcpStore.ListUndisturbed | internal/adapters/driven/gcp/gcp.go:215-256 | undisturbed, a listing of one state of the project |
| GcpStore.ListAmongWriters | internal/adapters/driven/gcp/gcp.go:215-256 | among writers that never delete, whatever Get can read under ns all the while is listed as Get would read it at some moment meanwhile |
| GcpStore.ListedAmongWriters | internal/adapters/driven/gcp/gcp.go:215-256 | and every entry is the newest version of a secret of its key at some moment meanwhile |
| GcpStore.Store.Delete | internal/adapters/driven/gcp/gcp.go:258-272 | removes the secret and all versions, or reports why not and changes nothing |
| GcpStore.RunRefinesHistory | internal/adapters/driven/gcp/gcp.go:163-209 | over every run the project holds, under each key's ID, exactly the values put since its last delete |
| GcpStore.GetReadsHistory | internal/adapters/driven/gcp/gcp.go:133-161 | Get returns the last value put, numbered by how many there are, unless that version is disabled |
| GcpStore.ListAgreesIffClean | internal/adapters/driven/gcp/gcp.go:211-256 | a listing is strictly sorted and equals what Get can read exactly when every listed secret has its canonical ID and a value |
| ForeignNames.ForeignIDDisagrees | internal/adapters/driven/gcp/gcp.go:211-256 | a project holding "a-1-1b" lists a/b, which Get does not find |
| ForeignNames.EmptyPayloadDisagrees | internal/adapters/driven/gcp/gcp.go:211-256 | a secret with an empty payload is listed, but Get refuses it |
| GcpStore.EveryListingAgrees | internal/adapters/driven/gcp/gcp.go:211-256 | after every run with disabling, outages and non-decoding foreign secrets, each listing is strictly sorted and agrees with Get |
| ConcurrentPuts.PutsAreSafe | internal/adapters/driven/gcp/gcp.go:176-208 | in every interleaving without Delete: no Put fails, versions are distinct and hold their writers' values, one creation time, one effective CreateSecret if the secret was absent |
| ConcurrentPuts.PutsAllSucceed | internal/adapters/driven/gcp/gcp.go:176-208 | at most four calls a writer; when none can move all have succeeded, exactly one version was added for each writer, and every added version is some writer's |
| ConcurrentPuts.DeleteMayFailPut | internal/adapters/driven/gcp/gcp.go:201-207 | the smallest failing schedule: a Delete between two calls of a Put |
| PutsAndDeletes.FailsIffCutOff | internal/adapters/driven/gcp/gcp.go:176-208 | over every schedule, Deletes included: a Put fails exactly when, after a call that showed it the secret and before its next call, a Delete comes after which nobody creates the secret again |
| PutsAndDeletes.AbsentIffCleared | internal/adapters/driven/gcp/gcp.go:176-208 | a secret that was there is absent exactly when some Delete since has no effective CreateSecret after it |
| PutsAndDeletes.CreatesBalanceDeletes | internal/adapters/driven/gcp/gcp.go:176-208 | effective CreateSecrets, with the secret there at the start, are as many as effective Deletes, with the secret there at the end |
| PutsAndDeletes.SameVersionIff | internal/adapters/driven/gcp/gcp.go:201-208 | two finished Puts report one version exactly when a Delete came between their additions and equally many versions had been added since the last Delete before each |
| PutsAndDeletes.TwoFirstVersions | internal/adapters/driven/gcp/gcp.go:201-208 | two Puts around a Delete succeed and both report version 1, with different creation times |
| PutsAndDeletes.SameCreationIff | internal/adapters/driven/gcp/gcp.go:176-208 | two finished Puts report one creation time exactly when no Delete came between the calls that told them |
| PutsAndDeletes.CreationIsCurrentIff | internal/adapters/driven/gcp/gcp.go:176-208 | a finished Put reports the creation time of the secret it added to exactly when no Delete came between the call that told it and the addition |
| PutsAndDeletes.StaleCreation | internal/adapters/driven/gcp/gcp.go:176-208 | a Put overtaken by a Delete and another's CreateSecret succeeds with the creation time of the deleted secret |
| PutsAndDeletes.ReportHoldsIff | internal/adapters/driven/gcp/gcp.go:176-208 | what a finished Put reported, value included, is still so at the end exactly when no Delete came after the call that told it the creation time |
| ConcurrentPuts.SoloPut | internal/adapters/driven/gcp/gcp.go:176-208 | the calls of a single writer amount to the atomic addition |
| AzureStore.Store.Get | internal/adapters/driven/azure/azure.go:91-110 | answers what the vault holds live under the key's name, with each error case |
| AzureStore.Store.Put | internal/adapters/driven/azure/azure.go:112-137 | sets the live secret with a later update time, refuses a soft-deleted name with its own error, and changes nothing on refusal |
| AzureStore.Store.Delete | internal/adapters/driven/azure/azure.go:177-213 | soft-deletes a live name; with purging on, undisturbed, the outcome, number of purge calls and final state in terms of the conflicts ahead; whatever others do, it ends with the name free, a vault that refuses, the 30th conflict, or, only if the context ends, cancelled |
| AzureStore.Store.PurgeSettled | internal/adapters/driven/azure/azure.go:194-212 | the retry loop: undisturbed and uncancelled, min(p+1, 30) calls and success exactly when p is at most 29; with others purging or recovering the name, at most 30 calls, a name already gone is success, and the only errors are refusal, the 30th conflict and cancellation |
| AzureStore.LookupFailures | internal/adapters/driven/azure/azure.go:91-110 | Get says Missing exactly if the service answers 404 or the name is not live; every other status is passed on |
| AzureStore.PurgeCountsDown | internal/adapters/driven/azure/azure_test.go:106-120 | the first p purges of a settling name count its conflicts down and the next frees it |
| AzureStore.PurgedNameIsFree | internal/adapters/driven/azure/azure.go:125-136 | after a completed purge the name is neither live nor taken, Get misses, and a new write is read back |
| AzureStore.PutThenGet | internal/adapters/driven/azure/azure.go:91-137 | a written value is read back and an overwrite keeps the creation time |
| AzureStore.PutLeavesOthers | internal/adapters/driven/azure/azure.go:112-137 | a write changes what Get says of no other key |
| AzureStore.SoftDeleteBlocks | internal/adapters/driven/azure/azure.go:9-12 | without a purge or recovery of its name a soft-deleted secret stays deleted and blocks writes to its name in every later state |
| AzureListing.List | internal/adapters/driven/azure/azure.go:143-175 | the entries of all pages that decode to keys under ns, sorted by key; it fails exactly if such an entry lacks its attributes, or the pager fails after that |
| AzureListing.CollectedFails | internal/adapters/driven/azure/azure.go:139-170 | names that do not decode, or decode elsewhere, never fail a listing: only an entry under ns without attributes does |
| AzureListing.CollectedMeans | internal/adapters/driven/azure/azure.go:139-170 | otherwise it holds exactly what the entries under ns carry |
| AzureListing.StampedVaultIsListed | internal/adapters/driven/azure/azure.go:139-170 | a vault whose secrets all have attributes is always listed, whatever other names it holds |
| AzureListing.ListShowsReadable | internal/adapters/driven/azure/azure.go:139-175 | however the vault is paged, List reports whatever Get can read under ns, as Get reports it |
| AzureListing.ListShowsHeld | internal/adapters/driven/azure/azure.go:139-175 | every entry List reports is what a live name that decodes to its key holds |
| AzureListing.ListAgreesIffClean | internal/adapters/driven/azure/azure.go:5-7 | if the pages hold each live name once, the listing is strictly sorted and equals what Get can read exactly when every listed name is its key's own and holds a value |
| ForeignNames.CapitalDisagrees | internal/adapters/driven/azure/azure.go:139-175 | a vault holding "a-1B" lists a/B, which Get does not find |
| ForeignNames.NoValueDisagrees | internal/adapters/driven/azure/azure.go:139-175 | a secret without a value is listed, but Get refuses it |
| ForeignNames.TwoNamesFlap | internal/adapters/driven/azure/azure.go:139-175 | held as "a-1-b" and "a-1B", written at different times, a/B is listed twice and reported twice by every poll |
| AzureListing.ChangesAreNoticed | internal/adapters/driven/azure/azure.go:221-240 | after any writes, deletes and purges between two polls, a key that both find is sent as Updated exactly when its secret has changed |
| Gathering.GatherMembers | internal/adapters/driven/azure/azure.go:147-169 | a paged walk fails exactly when some entry does and otherwise yields exactly what its entries give |
| WatchedStores.RestingReplicaMirrors | internal/adapters/driven/watch/poll.go:70-121 | in every interleaving, whenever nothing is in flight after a poll that listed a store as Get reads it, the replica holds exactly the versions Get can read of the keys that may be watched |
| WatchedStores.GcpReplicaMirrors | internal/adapters/driven/gcp/gcp.go:211-256 | so it does over Secret Manager after every run with disabling, outages and non-decoding foreign secrets |
| WatchedStores.AzureReplicaMirrors | internal/adapters/driven/azure/azure.go:5-7 | and over Key Vault when every listed name is its key's own and holds a value |
| WatchedStores.ReportedIffRecounted | internal/adapters/driven/watch/poll.go:86-104 | a Secret Manager key that two polls find is sent as Updated exactly when the number of values put since its last Delete is not the same |
| WatchedStores.NothingMissedWithoutDelete | internal/adapters/driven/watch/poll.go:86-104 | without a Delete of the key in between, exactly when its history changed |
| WatchedStores.ReplacedUnnoticed | api/proto/vaultlet/v1/vaultlet.proto:160-161 | a secret put once, deleted and put again between two polls is not reported, though its value changed |
| Timestamps.CivilDenotes | internal/adapters/driven/azure/azure.go:231 | the civil UTC time computed for an instant is valid and denotes that instant |
| Timestamps.YearStartCounts | internal/adapters/driven/azure/azure.go:225-231 | the days before a year: 365 each, one more for every fourth, but not every hundredth, but every four hundredth |
| Timestamps.MonthStartCounts | internal/adapters/driven/azure/azure.go:225-231 | from March on months start by the rule of 153 days in five months |
| Timestamps.CalendarRepeats | internal/adapters/driven/azure/azure.go:225-231 | any 400 years have 146097 days |
| Timestamps.LayoutExample | internal/adapters/driven/azure/azure.go:225-231 | the layout's reference time is written as the layout says |
| Timestamps.VersionOrder | internal/adapters/driven/azure/azure.go:221-225 | in years 0 to 9999 version texts have 30 characters and sort as their times do |
| Timestamps.YearWithin | internal/adapters/driven/azure/azure.go:231 | the instants whose civil year is at most y are exactly those before the end of y |
| Timestamps.VersionsTellApart | internal/adapters/driven/azure/azure.go:221-225 | two times have the same version text exactly when they are equal, to the nanosecond and in every year |
| Timestamps.OrderEndsWithYear9999 | internal/adapters/driven/azure/azure.go:221-225 | of the instants before n, version texts sort as the times do if and only if n is at most the end of year 9999 |

## Left out

- Cloud clients, credentials, TLS, the gRPC server, authentication, configuration, command line and rendering: input and output, or single-branch checks.
- Service.Get, Service.Put and Service.Delete: one policy check in front of one store call each; audit logging and error texts are not modelled.
- The Bitwarden adapter: its service's behaviour is not in the repository; repeated keys, which it allows, are covered by the poller's model. The AWS adapter is a stub.
- Real time: tickers and waits are steps that may happen; the Secret Manager creation time is a number that grows with every creation.
- Fairness of the scheduler: shutdown is proved as a bound on every run and the absence of stuck states.
- Absent creation times in Secret Manager responses: the service as modelled always sets them.
- Bytes that are not ASCII: strings are byte sequences; ranging over a valid key by rune or by byte is the same, since valid keys are ASCII.
- Times before year 0: instants are counted from its start.
- ConcurrentPuts.PutsAreSafe: service failures between calls are not steps here; `GcpStore.Store.Put` covers them.
- AzureStore.Store.Put: the vault's clock advances at every write, as in the adapter's test double; a vault that stamps whole seconds could give two writes one update time, and one version.
- AzureStore.SoftDeleteBlocks: purging is an outside event in these runs, as with purging off.
- AzureListing.ChangesAreNoticed: a recovery of the very name between the polls is excluded, since it may bring back any earlier secret.
- AzureListing.ListAgreesIffClean: names are matched exactly, as in the adapter's test double; a vault that ignores case also answers Get under other spellings.
- GcpStore.Store.List: the secrets of one listing come from one state of the project; only the version reads after it are interleaved with others.
