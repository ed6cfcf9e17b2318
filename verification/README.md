# MirrorRelay: a verified model of its hard logic

MirrorRelay is a caching gateway in front of package repositories. This project models the parts of it that are
hard to get right and proves what each of them promises. One module per component. A component has a specification
made of functions, methods and classes that follow the statements of the code and are proved against those functions,
and lemmas about the functions that say what a user of the component may rely on: laws over all inputs and all runs, and
beside them, for the definitions that the laws rest on, what is accepted, refused, chosen or written in words that do
not come from the definition. Where the code is one SQL statement (`Passkeys`), the specification is the step itself.

* **Cluster.** `EdgeSync` is the edge's durable state machine under duplicated, reordered and failing deliveries;
  `Coordinator` is the other side, whose success is tied to the edge's state; `HealthChecker` is the two-threshold
  hysteresis; `Fingerprint` (over `Sorting`) is the canonical configuration digest; `NodeRouter` is the weighted choice
  of an edge.
* **Cache.** `CacheGenerations` has the durable counters, their copy in memory and every interleaving of purges;
  `ValidatorCache` is the bounded cache with its eviction order.
* **Parsers and printers.** `Cbor`, `CoseMap` and `CborReader.dfy` (section 3 of RFC 8949), `BearerChallenge.dfy`
  (section 3 of RFC 6750, quoted-string from section 5.6.4 of RFC 9110), `Srcset` ("Parsing a srcset attribute" in the
  WHATWG HTML Standard) and `NginxFragments`, the scanner that lets custom fragments be concatenated. `BearerForms` and
  `SrcsetForms` say which texts are read and as what; `NginxDirectives` says which texts the scanner accepts, as a
  condition on words and braces.
* **Routing.** `Routes` is the conflict check and the registry, `RoutePlaces` says where a request goes, `Links` is the
  rewriting of directory links and the way back, `Redirects` the bounded redirect chain and failover, `Upstreams` the
  two definitions of the best upstream.
* **Small state machines.** `LoginLimiter`, `ConcurrencyLimiter` (over `Sums`), `HourlyStats`, `TokenMigration`,
  `Passkeys`.

`Text` holds the string functions the others share.

Where a natural property is false of the code, the code is kept, the theorem is an equivalence whose condition says when
the property holds, and a lemma beside it exhibits an input that fails: `RoundTrip` (`LineBreakIsLost`),
`ParseRenderParse` (`VerticalTabBreaksRoundTrip`), `SkipExactly` (`LargeArrayIsRefused`), `FragmentAcceptedExactly`
(`TrimmingMatters`), `OrderForgottenExactly` (`TwoOrdersTwoFingerprints`), `WeightsAreExact` (`HeavyNodeIsStarved`,
`HeavyNodesDivideByZero`), `LinkLeadsBackExactly` (`DoubledSlashIsLost`) and `FreshKeySurvivesExactly`
(`StaleNameEvictsItsKey`).

For three more the failing input is one that the gateway as it stands does not produce: `PurgeAcknowledged`
(`UpperCaseSlugIsNotAcknowledged`; purge requests are built from normalised slugs and hexadecimal ids),
`SelectionsAgreeExactly` (`UnknownStatusSeparates`; the statuses written are known ones, on which `KnownStatusesAgree`)
and `StepLocksOutExactly` (`BulkDeleteLocksOut`; nothing calls the bulk delete).

Whole-run theorems quantify over every sequence of events, including failures of each write.

The cryptographic parts are parameters (digests taken as injective, ciphers as authenticated); so are address and URL
parsing, the clock, randomness and whatever the network or a database write does.

## Model

| member | source | states |
|---|---|---|
| EdgeSync.ValidateState | internal/cluster/state.go:93-110 | One pass with a set of epochs seen accepts exactly the valid records: trimmed fields, a hexadecimal epoch, positive generation, known status, retired epochs valid, distinct and different from the current one |
| EdgeSync.ValidExactly | internal/cluster/state.go:93-110 | What a valid record is, field by field |
| EdgeSync.EpochIsStable | internal/cluster/state.go:25-48 | A coordinator epoch once handed out is valid, and every later call returns the same one and leaves the setting alone |
| EdgeSync.EdgeReceiver.Put | internal/cluster/state.go:76-91 | An invalid record is never stored and a failed write changes nothing; otherwise the record becomes the durable one |
| EdgeSync.EdgeReceiver.Normalize | internal/api/cluster_sync_receiver.go:76-81 | All repositories are normalised in order, or the request is rejected |
| EdgeSync.EdgeReceiver.CheckRequest | internal/api/cluster_sync_receiver.go:57-99 | The admission checks with their HTTP codes, in source order |
| EdgeSync.EdgeReceiver.CheckRecord | internal/api/cluster_sync_receiver.go:106-129 | Staleness against the record on file, and which epochs are retired if the request goes on |
| EdgeSync.EdgeReceiver.AcceptConfiguration | internal/api/cluster_sync_receiver.go:140-181 | Pending record, activation, comparison of the active configuration, applied record: the new state and reply at each point of failure |
| EdgeSync.EdgeReceiver.ApplySync | internal/api/cluster_sync_receiver.go:52-182 | The statement-by-statement receiver computes the delivery step that the run theorems are about |
| EdgeSync.AdmittedExactly | internal/api/cluster_sync_receiver.go:57-99 | A request is admitted if and only if it is entitled: a complete manifest of protocol version 2 from the coordinator the edge is configured for, which its node id names too, the configuration being the pointwise normalisation of the payload with accepted routes, the manifest's fingerprint and capabilities, and Nginx ready |
| EdgeSync.RefusalsExplained | internal/api/cluster_sync_receiver.go:57-99 | Which refusal says what, both directions: 400 unreadable or incomplete, 403 another coordinator, 422 a repository that cannot be normalised, 503 nothing wrong but a missing Nginx |
| EdgeSync.NormalizeAllExactly | internal/api/cluster_sync_receiver.go:76-81 | Normalising all repositories succeeds with a result exactly if every one is normalised to its counterpart |
| EdgeSync.OnlyTheCoordinatorConfigures | internal/api/cluster_sync_receiver.go:72-75 | Whatever fails: nobody but the configured coordinator changes the edge's record or configuration or gets an acknowledgement, and then only with a request that is entitled |
| EdgeSync.CurrentExactly | internal/api/cluster_sync_receiver.go:106-129 | A request is up to date exactly when it names the record's coordinator, no retired epoch, and within the epoch a later generation or the same one with the same fingerprint; which epochs it retires |
| EdgeSync.DeliveryWrites | internal/api/cluster_sync_receiver.go:140-181 | What a delivery that changes anything writes, record by record: a pending record of this manifest retiring the epoch that is left, activation of the requested configuration, and an applied record only with the acknowledgement |
| EdgeSync.AdmittedManifest | internal/api/cluster_sync_receiver.go:57-99 | What admission says about manifest and configuration: version, generation, epoch, identity, matching fingerprint and capabilities |
| EdgeSync.AcceptedRecordIsValid | internal/api/cluster_sync_receiver.go:140-147 | Every pending or applied record the receiver builds passes validation and supersedes the record on file |
| EdgeSync.DeliverKeeps | internal/api/cluster_sync_receiver.go:101-181 | One delivery, whatever is stale or fails in it, keeps the history invariant and only appends records |
| EdgeSync.RunKeeps | internal/api/cluster_sync_receiver.go:101-181 | So does any run of deliveries and restarts |
| EdgeSync.StoredRecordsAgree | internal/api/cluster_sync_receiver.go:109-128 | Over every run: stored records are valid, name one coordinator, within an epoch generations never decrease, and one generation of an epoch has one fingerprint |
| EdgeSync.EpochsAreContiguous | internal/api/cluster_sync_receiver.go:122-128 | An epoch once left is never entered again |
| EdgeSync.AckMeansApplied | internal/api/cluster_sync_receiver.go:131-181 | An acknowledgement is sent only when the durable record is applied for exactly the manifest and the active configuration hashes to its fingerprint |
| EdgeSync.RedeliveryIsIdempotent | internal/api/cluster_sync_receiver.go:131-138 | An acknowledged request delivered again changes nothing and is acknowledged again, whatever else would have failed |
| EdgeSync.AcknowledgedExactly | internal/api/cluster_sync_receiver.go:52-182 | When nothing fails, a request is acknowledged if and only if it is entitled and up to date |
| EdgeSync.RetiredEpochIsDead | internal/api/cluster_sync_receiver.go:122-128 | A retired epoch stays retired over every run, and neither a configuration nor a purge bound to it is ever accepted again |
| EdgeSync.PurgeAdmittedExactly | internal/api/cluster_sync_receiver.go:203-262 | A purge is carried out if and only if the record on file is applied and names the coordinator, which is the configured one, and the epoch of the request, and the scope names exactly what it must |
| Coordinator.SyncManager.SyncNode | internal/cluster/sync.go:67-168 | Success exactly when the local checks hold, the wire and the row write work, the row exists and the edge acknowledges; then the edge holds this manifest applied and active at that step, and the status columns of the row, and no others, say so; every failure leaves the rows alone |
| Coordinator.EntitledIsSent | internal/cluster/sync.go:67-103 | The coordinator's local checks hold back nothing that the edge would accept from it |
| Coordinator.StatusColumnsOnly | internal/cluster/sync.go:150-164 | A status update changes one row, keeps name, place and credential of the node and takes over everything observed |
| Coordinator.SynchronizedSays | internal/cluster/sync.go:145-163 | What the row of a synchronised node says: matching configuration, what the edge acknowledged, health unknown |
| Coordinator.AcceptedReplies | internal/cluster/sync.go:118-142 | The reply checks accept exactly what an edge sends that applied this manifest |
| Coordinator.PurgeAcknowledged | internal/cluster/sync.go:265-296 | A purge the edge carried out counts as acknowledged exactly when the request was already in the edge's normal form (trimmed, lower-case slug) |
| Coordinator.UpperCaseSlugIsNotAcknowledged | internal/cluster/sync.go:265-296 | With an upper-case slug it would not be |
| CacheGenerations.CleanPathInPlace | internal/cachectl/manager.go:282-294 | Filtering the slice in place computes the cleaned path |
| CacheGenerations.KeptAround | internal/cachectl/manager.go:282-294 | Empty segments and single dots are dropped wherever they stand, and no other segment is |
| CacheGenerations.CleanPathSegments | internal/cachectl/manager.go:282-294 | Two paths clean to the same text exactly when the same segments survive |
| CacheGenerations.CleanPathIdempotent | internal/cachectl/manager.go:282-294 | Cleaning twice is cleaning once |
| CacheGenerations.KeysSeparateObjects | internal/cachectl/manager.go:86-90 | With an injective digest, equal object ids mean the same repository, upstream, path segments and query |
| CacheGenerations.GenerationStore.PurgeCache | internal/database/stats_cache.go:116-155 | One transaction raises exactly the addressed counter by one and logs old and new; unknown scopes and a refused transaction change nothing, and a job that cannot be read back is an error after the commit |
| CacheGenerations.GenerationStore.ListCacheGenerations | internal/database/stats_cache.go:67-82 | Every counter row once |
| CacheGenerations.CoversExactly | internal/database/stats_cache.go:116-155 | The counter a purge raises covers exactly the objects its scope names: all for global, those of the repository, or the object of that repository with that id |
| CacheGenerations.Manager.Load | internal/cachectl/manager.go:62-84 | After loading, memory holds the table's generation for every slot, 1 where there is no row; a failed listing leaves it as it was |
| CacheGenerations.Manager.KeyOf | internal/cachectl/manager.go:92-110 | A key carries the held generations and the canonical id; none is issued before loading |
| CacheGenerations.FirstGenerations | internal/cachectl/manager.go:92-110 | Where nothing was purged every generation in a key is 1 |
| CacheGenerations.Manager.Publish | internal/cachectl/manager.go:117-126 | Publishing moves exactly one slot |
| CacheGenerations.Manager.Purge | internal/cachectl/manager.go:112-128 | Commit, then publish the committed generation; once a job is returned, the key of every object the scope names differs from before and every other object's key is the same; a store error publishes nothing |
| CacheGenerations.Gateway.Commit | internal/database/stats_cache.go:116-155 | The store's part of a purge call is the commit or failure step that the freshness theorem is about |
| CacheGenerations.Gateway.Publish | internal/cachectl/manager.go:117-126 | The manager's part is its publication step |
| CacheGenerations.Gateway.Restart | internal/cachectl/manager.go:62-84 | A new process with its generations loaded is its restart step |
| CacheGenerations.Gateway.KeyOf | internal/cachectl/manager.go:92-110 | The keys that are issued are the keys of the theorem's world |
| CacheGenerations.MemoryMovesOn | internal/cachectl/manager.go:112-128 | From the return of a purge on, memory never again holds a generation of the slot it held before the call began |
| CacheGenerations.PurgeFreshness | internal/cachectl/manager.go:92-128 | For every interleaving of purges, failures and restarts: a key issued after a purge returned, for an object that its scope names (global; repository and the object's repository; object and its id), differs from every key issued for it before the call began |
| CacheGenerations.UncoveredKeysStay | internal/cachectl/manager.go:92-128 | Conversely: over every run, restarts included, in which no purge covers an object its key never changes |
| CacheGenerations.KeysOutOfScope | internal/cachectl/manager.go:112-128 | A step changes an object's key only if it is a restart or publishes a slot that covers the object |
| CacheGenerations.OtherRepositoriesUntouched | internal/cachectl/manager.go:112-128 | A purge bound to one repository leaves the keys of every other alone |
| CacheGenerations.ReloadInFlightIsStale | internal/cachectl/manager.go:62-84 | Freshness needs loading to stay at start-up: a reload while a purge is in flight lets an old generation come back |
| CborReading.CborReader.ReadHeader | internal/auth/webauthn.go:553-596 | The cursor reads the header that the specification reads, and stands after it |
| CborReading.CborReader.Take | internal/auth/webauthn.go:598-605 | Bounds-checked bytes for a 64-bit length converted to a signed one |
| CborReading.CborReader.SkipValue | internal/auth/webauthn.go:607-657 | The recursive cursor walk decides and advances exactly as the specification of skipping, and never past the data |
| CborReading.CborReader.SkipChildren | internal/auth/webauthn.go:624-632 | The loop over nested items |
| CborReading.ExtractAttestationAuthData | internal/auth/webauthn.go:492-546 | The statements compute the specified extraction |
| CborReading.ParseCborMap | internal/auth/webauthn.go:412-487 | The statements compute the specified parser |
| Cbor.ReadsHeader | internal/auth/webauthn.go:553-596 | Every header written in any of the five widths is read back (section 3 of RFC 8949) |
| Cbor.ReadHeaderWas | internal/auth/webauthn.go:553-596 | Conversely every header that is read is one of those encodings |
| Cbor.ArgumentByBytes | internal/auth/webauthn.go:553-596 | Major type and argument in terms of the bytes, for each of the five widths |
| Cbor.ShortHeadersAreRefused | internal/auth/webauthn.go:553-596 | A header is refused exactly if it is cut off or has one of the reserved or indefinite lengths |
| Cbor.SkipsItem | internal/auth/webauthn.go:607-657 | Every definite-length item within the nesting and count limits is skipped to exactly its encoded length |
| Cbor.SkippedWas | internal/auth/webauthn.go:607-657 | Whatever is skipped was the encoding of such an item |
| Cbor.SkipExactly | internal/auth/webauthn.go:607-657 | Both together: skipping succeeds with position p if and only if an admissible item is encoded up to p |
| Cbor.SkipsByInitialByte | internal/auth/webauthn.go:607-657 | What is skipped after each initial byte: integers and simple values, strings, arrays, maps and tags by their literal byte ranges (section 3.1 of RFC 8949), nothing nested more than 16 levels deep |
| Cbor.LargeArrayIsRefused | internal/auth/webauthn.go:624-632 | The limits do refuse well-formed items |
| Cbor.ExtractsExactly | internal/auth/webauthn.go:492-546 | The extraction returns given bytes if and only if the input is the encoding of a bounded map with exactly one authData entry, holding those bytes, and nothing after it |
| Cbor.ReadsBareAttestation | internal/auth/webauthn.go:492-546 | The literal bytes of an attestation object with authenticator data only give back that data |
| Cbor.ReadsNoneAttestation | internal/auth/webauthn.go:492-546 | So do those of the object an authenticator sends without attestation, with fmt and an empty statement before the data |
| CoseMap.ParsesExactly | internal/auth/webauthn.go:412-487 | The parser returns a map if and only if the data starts with the encoding of at most 64 pairs with distinct integer keys that denote it |
| CoseMap.ReadsEs256Key | internal/auth/webauthn.go:412-487 | The literal bytes of an ES256 key are read as its five parameters, the coordinates as byte strings |
| CoseMap.ReadsText | internal/auth/webauthn.go:412-487 | A text value is read as a text |
| CoseMap.DenotesPairs | internal/auth/webauthn.go:450-452 | A list of pairs denotes a map exactly when its keys are distinct, and then binds exactly the listed keys to the listed values |
| BearerChallenges.SplitAuthParameters | internal/proxy/challenge.go:51-86 | The flag-driven loop splits at commas outside quoted strings as specified |
| BearerChallenges.DecodeAuthValue | internal/proxy/challenge.go:88-119 | The escape loop decodes a token or quoted string as specified |
| BearerChallenges.ParseBearerChallenge | internal/proxy/challenge.go:18-49 | The statements compute the specified parser |
| BearerChallenges.BearerChallenge.Lookup | internal/proxy/challenge.go:121-128 | First parameter of that name, any letter case |
| BearerChallenges.BearerChallenge.Update | internal/proxy/challenge.go:130-138 | Overwrites the first parameter of that name in place, or appends one |
| BearerChallenges.BearerChallenge.ToString | internal/proxy/challenge.go:140-148 | The loop prints the specified text |
| BearerChallenges.RoundTrip | internal/proxy/challenge.go:18-148 | Parsing what was printed gives the parameters back if and only if there is one, all names are tokens and no value has a line break; commas, quotes and backslashes in values are no obstacle |
| BearerChallenges.LineBreakIsLost | internal/proxy/challenge.go:88-119 | A value with a line break does not come back |
| BearerChallenges.SetThenGet | internal/proxy/challenge.go:121-138 | After set, get of that name gives the value and the binding of every other name is unchanged |
| BearerChallenges.SetPosition | internal/proxy/challenge.go:130-138 | Where set writes: at the first parameter of the name or at the end |
| BearerChallenges.SetSurvives | internal/proxy/challenge.go:130-148 | A challenge rewritten by set, printed and parsed, is the updated challenge |
| BearerForms.WrittenChallengesAreRead | internal/proxy/challenge.go:18-119 | Every well-written challenge is understood: blanks around scheme, commas and equals signs, each value bare or quoted with any escapes |
| BearerForms.BareValuesExactly | internal/proxy/challenge.go:88-119 | A bare value is read exactly if it is a token |
| BearerForms.AnyCharacterMayBeEscaped | internal/proxy/challenge.go:88-119 | In quotes a backslash stands for the character after it |
| BearerForms.OtherSchemesAreRefused | internal/proxy/challenge.go:18-26 | Another scheme, or one that runs on, is refused |
| BearerForms.EmptyPartsAreRefused | internal/proxy/challenge.go:51-86 | A comma needs a parameter before it |
| Srcset.ParseSrcsetCandidates | internal/proxy/html.go:418-476 | The index loop computes the specified parser |
| Srcset.ParseCandidate | internal/proxy/html.go:430-473 | One round of the loop: URL token, trailing commas, descriptor up to a comma outside parentheses |
| Srcset.StripTrailingCommas | internal/proxy/html.go:438-443 | Strips all trailing commas and knows whether there was one |
| Srcset.ScanDescriptor | internal/proxy/html.go:455-466 | Finds the first comma outside parentheses |
| Srcset.MapUrls | internal/proxy/html.go:384-398 | Replaces exactly the mapped URLs, and reports whether there was one |
| Srcset.RenderParts | internal/proxy/html.go:402-410 | The printing loop |
| Srcset.RewriteSrcset | internal/proxy/html.go:382-411 | The attribute is printed anew exactly when some URL was mapped |
| Srcset.ParseIsParsed | internal/proxy/html.go:418-476 | What is parsed from any text: trimmed URLs without HTML white space, descriptors that read back, parentheses closed in all but the last |
| Srcset.ReadsBackExactly | internal/proxy/html.go:402-476 | Parsing inverts printing on a candidate list if and only if the parser can yield it and no URL begins or ends with a comma |
| Srcset.ParseRenderParse | internal/proxy/html.go:402-476 | For every text: parse, print, parse equals parse if and only if no parsed URL begins or ends with a comma |
| Srcset.RewriteChangesOnlyUrls | internal/proxy/html.go:382-476 | For every text and mapper: parsing the rewritten attribute gives the original candidates in order, mapped URLs replaced and descriptors untouched, if and only if every URL of the result can be printed |
| Srcset.OuterCommasAreLost | internal/proxy/html.go:418-476 | A list with an outer comma in a URL never reads back, whatever follows |
| Srcset.VerticalTabBreaksRoundTrip | internal/proxy/html.go:444-447 | There are such texts: a vertical tab hides a trailing comma |
| SrcsetForms.ReadsDescribed | internal/proxy/html.go:418-476 | A URL, white space and a descriptor are one candidate; its comma is the first one outside parentheses |
| SrcsetForms.ReadsLast | internal/proxy/html.go:455-473 | The last descriptor may leave a parenthesis open |
| SrcsetForms.ReadsBare | internal/proxy/html.go:436-452 | A URL with commas after it is a candidate without a descriptor |
| SrcsetForms.SeparatorsAreSkipped | internal/proxy/html.go:424-429 | White space and commas before a candidate are skipped |
| SrcsetForms.RewrittenExactly | internal/proxy/html.go:384-398 | Which URLs are replaced: all that are mapped, except data URLs in any letter case; and when anything is |
| SrcsetForms.RewritingIsRead | internal/proxy/html.go:382-476 | The rewritten attribute reads as the original list with exactly those URLs replaced, if and only if every URL of the result is clear of white space and outer commas |
| NginxFragments.CheckToken | internal/upstreamnginx/custom.go:101-127 | The word-by-word loops reject a token exactly when it is reserved, or forbidden at the start of a directive |
| NginxFragments.ScanCharacter | internal/upstreamnginx/custom.go:129-198 | One character on the scanner's variables is one step of the specification |
| NginxFragments.ValidateCustom | internal/upstreamnginx/custom.go:86-210 | The loop over the content accepts exactly what the specification accepts |
| NginxFragments.ClassifyCustom | internal/upstreamnginx/custom.go:34-73 | The loop over the configurations builds the specified texts or refuses the list |
| NginxFragments.ClassifyPlaces | internal/upstreamnginx/custom.go:34-73 | The list is refused exactly when an enabled configuration is not admissible; otherwise every place gets exactly the fragments of its configurations, in order |
| NginxFragments.DepthNeverNegative | internal/upstreamnginx/custom.go:173-187 | No scan takes the brace depth below zero |
| NginxFragments.NoEscape | internal/upstreamnginx/custom.go:173-187 | At no point of an accepted text has a closing brace escaped its context |
| NginxFragments.ScanMilder | internal/upstreamnginx/custom.go:101-127 | A scanner past the start of a directive accepts whatever one at the start accepts |
| NginxFragments.IndentIsSpread | internal/upstreamnginx/custom.go:46-46 | Indenting line by line is inserting the indent at the start and after every line break |
| NginxFragments.FlushSpread | internal/upstreamnginx/custom.go:101-127 | Indenting inside a token neither creates nor hides a forbidden or reserved word |
| NginxFragments.ScanIndented | internal/upstreamnginx/custom.go:128-199 | The scanner goes through the indented text as through the original: both are rejected or both end in the same place, even inside quotes and comments |
| NginxFragments.FragmentAcceptedExactly | internal/upstreamnginx/custom.go:43-46 | For accepted content under a one-line name the rendered fragment is accepted if and only if the trimmed content is |
| NginxFragments.TrimmedIsAccepted | internal/upstreamnginx/custom.go:46-46 | Trimming keeps acceptance when the only white space is the scanner's own |
| NginxFragments.AssembledTextsAreAccepted | internal/upstreamnginx/custom.go:34-73 | Composition under the actual word lists: every assembled text is accepted and settled, with brace depth zero, at every fragment boundary |
| NginxFragments.TrimmingMatters | internal/upstreamnginx/custom.go:46-46 | The condition on trimming is needed: root with a vertical tab is accepted as a token but rendered as the forbidden root |
| NginxFragments.NamesMayBreakOut | internal/upstreamnginx/custom.go:40-46 | The condition on names is needed: a name is checked trimmed but written as it is |
| NginxDirectives.PlainTextsExactly | internal/upstreamnginx/custom.go:86-210 | Scanner-free: a text without quotes, comments, backslashes and braced variables is accepted if and only if no generated name occurs in any word, no word that begins a directive is forbidden, and the braces match, where words are those between blanks, semicolons and braces |
| NginxDirectives.MayFlushExactly | internal/upstreamnginx/custom.go:11-25 | The lists: which names are generated and which directives forbidden |
| NginxDirectives.WordsAreChecked | internal/upstreamnginx/custom.go:101-198 | In any accepted text a word outside quotes and comments contains no generated name, and after a semicolon or brace it is no forbidden directive |
| NginxDirectives.FirstWordIsChecked | internal/upstreamnginx/custom.go:101-198 | So for the first word |
| NginxDirectives.CommentsAreErased | internal/upstreamnginx/custom.go:129-157 | A comment is worth the line break that ends it |
| NginxDirectives.QuotedTextIsOneToken | internal/upstreamnginx/custom.go:135-159 | Quoted characters only join the token around them |
| NginxDirectives.UnfinishedIsRefused | internal/upstreamnginx/custom.go:160-202 | An open quote or a backslash outside quotes is never accepted |
| NginxDirectives.VariableIsOneToken | internal/upstreamnginx/custom.go:162-178 | A variable in braces opens no block |
| NginxDirectives.FragmentExactly | internal/upstreamnginx/custom.go:46-46 | The text rendered for one configuration, with its begin and end comments |
| NginxDirectives.AdmittedExactly | internal/upstreamnginx/custom.go:36-96 | Which configurations are admissible: context against repository, name of 1 to 100 characters on one line, content within 1 MiB that is accepted |
| Redirects.SameOriginExactly | internal/proxy/transport.go:247-265 | The part-by-part comparison is equality of origins, hence an equivalence (section 5 of RFC 6454) |
| Redirects.OriginExactly | internal/proxy/transport.go:247-265 | The parts of an origin: scheme and host up to case, without a final dot, and the written port or that of the scheme |
| Redirects.FollowRedirects | internal/proxy/transport.go:172-220 | The loop computes the specified chain of requests and its outcome, with the error of each refusal |
| Redirects.ChainsAreBounded | internal/proxy/transport.go:172-220 | From any point of a chain: bounded length, checked targets, URLs that read differently from each other and from all visited |
| Redirects.RedirectsAreSafe | internal/proxy/transport.go:172-220 | A chain sends at most MaxHops requests, never to a URL twice nor back to the first, and only to targets that passed both checks |
| Redirects.ChainsEndForCause | internal/proxy/transport.go:172-220 | Why a chain ends, for every outcome: an answer that is no redirect is delivered, each refusal names a check that failed at that point, and so a redirect that passes them all is followed |
| Redirects.HopExactly | internal/proxy/transport.go:172-241 | What is sent at hop k, exactly: the target its response points to, credentials if and only if the chain stayed at their origin, every other header as the transport passes it on, GET without body after a 303 |
| Redirects.CredentialsStayAtTheirOrigin | internal/proxy/transport.go:146-241 | Credentials are present at hop k if and only if the client sent them, the transport passes them on and every URL up to that hop has the origin they are meant for |
| Redirects.SelectUpstream | internal/proxy/transport.go:57-77 | Failover returns the first usable answer; otherwise what the last candidate came to, its response already closed |
| HealthChecker.MatchExactly | internal/cluster/checker.go:290-302 | A node's configuration matches exactly when a complete expectation is known and every part is what the edge reports |
| HealthChecker.DriftExplained | internal/cluster/checker.go:290-302 | Which mismatch is reported: the first part that differs |
| HealthChecker.ContradictionsExactly | internal/cluster/checker.go:254-264 | A report contradicts its manifest exactly when its status is unknown or its fingerprint or generation differs |
| HealthChecker.DefaultThresholds | internal/cluster/checker.go:200-335 | Without configured thresholds three failures condemn a node and two good probes clear it |
| HealthChecker.ReportedIsFound | internal/cluster/checker.go:317-320 | A repository is found under its normalised slug exactly if it was reported, with the health of such a report |
| HealthChecker.CheckViable | internal/cluster/checker.go:279-284 | The loop over the reported repositories |
| HealthChecker.CollectHealth | internal/cluster/checker.go:317-320 | The loop that normalises the slugs |
| HealthChecker.Checker.RecordFailure | internal/cluster/checker.go:200-228 | The status columns and counters after a failed probe, also when the row cannot be written or is gone |
| HealthChecker.Checker.RecordInconsistent | internal/cluster/checker.go:230-252 | A contradictory snapshot makes the node unhealthy at once |
| HealthChecker.Checker.RecordGood | internal/cluster/checker.go:268-335 | Recovery only after enough good probes; degraded if a repository is not viable |
| HealthChecker.Checker.RecordSuccess | internal/cluster/checker.go:254-335 | Consistency checks first; then one event of the node's history |
| HealthChecker.Checker.CheckNode | internal/cluster/checker.go:143-163 | A probe, of a copy of the row read earlier, is one event of the node's history unless the status in the row changed in between; other nodes keep rows and counters |
| HealthChecker.Checker.Synchronise | internal/cluster/sync.go:150-164 | Synchronisation writes the row and leaves the counters |
| HealthChecker.ProbesReport | internal/cluster/checker.go:255-288 | A good probe reports healthy or degraded, degraded exactly when the edge says so or a repository is not viable |
| HealthChecker.CountersAreRuns | internal/cluster/checker.go:200-335 | The counters are the lengths of the latest runs of bad and good probes |
| HealthChecker.CondemnedStep | internal/cluster/checker.go:200-335 | One more event condemns, or the node was condemned and the event does not clear it |
| HealthChecker.StatusIsHistory | internal/cluster/checker.go:200-335 | Hysteresis: over every history, whatever writes failed, a node is unhealthy exactly when since the last stored trigger nothing cleared it; otherwise its status is the last one reported |
| Sorting.AnySortAgrees | internal/cluster/manifest.go:123-137 | Where the comparison orders the elements strictly, every sorted permutation is the same list |
| Sorting.SortsAgreeExactly | internal/cluster/manifest.go:123-137 | Sorting forgets the order and nothing else |
| Fingerprint.UpstreamOrder | internal/cluster/manifest.go:123-137 | The comparison of upstreams is a strict total order |
| Fingerprint.CustomOrder | internal/cluster/manifest.go:224-235 | The comparison of custom configurations orders all that differ in more than being enabled |
| Fingerprint.CanonicalizeRepositories | internal/cluster/manifest.go:94-202 | The loops compute the canonical repositories |
| Fingerprint.ClusterConfigFingerprint | internal/cluster/manifest.go:207-246 | The loops compute the fingerprint; a later repository replaces an earlier one with the same id |
| Fingerprint.RepositoryContentExactly | internal/cluster/manifest.go:94-196 | Two repositories have one canonical form if and only if they say the same up to list orders, white space, letter case, ids and local data |
| Fingerprint.FingerprintIsContent | internal/cluster/manifest.go:207-246 | For distinct slugs and sort keys, two configurations have one fingerprint if and only if they hold the same repositories and custom configurations as content |
| Fingerprint.FingerprintShowsRepositories | internal/cluster/manifest.go:94-246 | Equal fingerprints show every setting of every repository: address and priority of each upstream, paths, hosts, headers and package lists |
| Fingerprint.FingerprintShowsCustoms | internal/cluster/manifest.go:207-246 | And name, place and content of every custom configuration |
| Fingerprint.PlainContentIsKept | internal/cluster/manifest.go:214-215 | Content without carriage returns is fingerprinted as it is |
| Fingerprint.RepositoryOrderIsForgotten | internal/cluster/manifest.go:199-212 | Permuting the repositories changes nothing if every id that is referred to has one slug |
| Fingerprint.OrderForgottenExactly | internal/cluster/manifest.go:199-212 | And only then: with an id shared by two slugs some order gives another fingerprint |
| Fingerprint.CustomOrderIsForgotten | internal/cluster/manifest.go:224-235 | Permuting custom configurations with distinct sort keys changes nothing |
| Fingerprint.IdsAreForgotten | internal/cluster/manifest.go:208-222 | Renumbering ids so that different ones stay different changes nothing |
| Fingerprint.LineEndingsAreForgotten | internal/cluster/manifest.go:214-215 | CRLF or LF at the end of a line is the same content exactly unless a carriage return stands before it |
| Fingerprint.ExtractCapabilities | internal/cluster/manifest.go:255-269 | The kinds in increasing order, each once, however the map is walked |
| Fingerprint.CapabilitiesAreDetermined | internal/cluster/manifest.go:255-269 | That determines the list |
| NodeRouter.Router.SetNodes | internal/cluster/router.go:71-104 | The snapshot keeps everything but the write credential |
| NodeRouter.Router.SelectNode | internal/cluster/router.go:106-243 | The loops compute the specified choice |
| NodeRouter.SelectedQualifies | internal/cluster/router.go:106-193 | Who is chosen: an enabled, healthy or degraded node in step with the configuration that reports the repository viable and its kind, in the client's region if any such node is, with the least priority number; there is no choice exactly for registries and where no node qualifies |
| NodeRouter.RegionExactly | internal/cluster/router.go:156-166 | The region of a client is that of the first network it is in, if any |
| NodeRouter.TwoNodesShare | internal/cluster/router.go:195-239 | Of two nodes, however listed, the one with the smaller id gets the remainders below its weight; a weight that is not positive counts as 100 |
| NodeRouter.Router.TargetRegion | internal/cluster/router.go:157-166 | The region of the first network that contains the client |
| NodeRouter.FilterByRegion | internal/cluster/router.go:168-178 | Only nodes of the region, if it has any |
| NodeRouter.FilterByPriority | internal/cluster/router.go:181-193 | Exactly the nodes of least priority |
| NodeRouter.ChooseByWeight | internal/cluster/router.go:196-242 | The weighted choice; the fallback after the loop is unreachable |
| NodeRouter.ChosenExactly | internal/cluster/router.go:228-239 | A candidate is chosen exactly for the values on its own stretch of the line |
| NodeRouter.WeightsAreExact | internal/cluster/router.go:208-239 | Every candidate is chosen for exactly its weight many remainders if and only if the total fits 32 bits |
| NodeRouter.HeavyNodeIsStarved | internal/cluster/router.go:208-226 | A total past 32 bits, which no check on the weights prevents, may leave a node without any |
| NodeRouter.HeavyNodesDivideByZero | internal/cluster/router.go:208-226 | And two weights of 2^31 make the division fail |
| NodeRouter.NodeOrderIsForgotten | internal/cluster/router.go:106-243 | With distinct node ids the answer does not depend on the order of the node list |
| Upstreams.SelectActiveUpstream | internal/proxy/route.go:491-511 | The nested loops compute the specified choice |
| Upstreams.EnabledUpstreams | internal/proxy/route.go:491-497 | Exactly the enabled upstreams, in order |
| Sorting.FilterSort | internal/proxy/route.go:498-498 | A stable sort commutes with selecting |
| Upstreams.SelectionsAgreeExactly | internal/proxy/route.go:456-511 | activeRepositoryUpstream is the head of orderedRepositoryUpstreams, and errors exactly when that list is empty, if and only if the list is empty or its head has one of the four statuses |
| Upstreams.KnownStatusesAgree | internal/proxy/route.go:456-511 | So they always agree on the statuses that are ever written |
| Upstreams.BestIsActive | internal/proxy/route.go:456-511 | Then both select the best upstream: enabled, of best status, then least priority, then first; none exactly if none is enabled |
| Upstreams.UnknownStatusSeparates | internal/proxy/route.go:456-511 | On another status they would not |
| Upstreams.NoActiveExactly | internal/proxy/route.go:491-511 | There is no active upstream exactly when no enabled one has a known status |
| Routes.NormalizedIsNormal | internal/mirror/registry.go:329-351 | A normalised public path has a slash at each end and a visible first and last segment |
| Routes.NormalizeTwice | internal/mirror/registry.go:329-351 | Normalising a normalised public path changes nothing |
| Links.PublicPathExactly | internal/mirror/registry.go:329-351 | Which public paths are accepted, and as what: no segment empty or a dot or two, no character that needs escaping, and the first segment none of the gateway's own |
| Routes.ValidateRouteConflicts | internal/mirror/conflicts.go:16-79 | The loop accepts exactly the lists that are pairwise apart and apart from the system's own hosts and paths |
| Routes.OneServes | internal/mirror/conflicts.go:59-85 | In an accepted list at most one path-mode repository serves any path |
| Routes.OneNamed | internal/mirror/conflicts.go:40-57 | And at most one host-mode repository has any host |
| Routes.Registry.Replace | internal/mirror/registry.go:71-96 | The index by host is what looking through the list gives |
| Routes.Registry.UpdateUpstreamHealth | internal/mirror/registry.go:100-122 | Replaces exactly the health of the upstream, keeping the index |
| Routes.Registry.RouteRequest | internal/mirror/registry.go:131-191 | The three loops compute the specified route |
| Routes.Registry.LongestMatch | internal/mirror/registry.go:142-157 | The first repository with the longest root |
| Routes.RouteOrderIsForgotten | internal/mirror/registry.go:131-191 | For an accepted list the route of a request does not depend on the order of the list |
| Routes.HealthKeepsRoutes | internal/mirror/registry.go:100-122 | A health update changes no route |
| RoutePlaces.HostsAreRouted | internal/mirror/registry.go:131-141 | In an accepted list a request for a repository's own host goes to it |
| RoutePlaces.PathsAreRouted | internal/mirror/registry.go:142-157 | Otherwise it goes to the repository whose place its path is at, with the rest of the path |
| RoutePlaces.BasePathsAreRouted | internal/mirror/registry.go:158-191 | Failing that, the same below the base path |
| RoutePlaces.NothingIsRouted | internal/mirror/registry.go:131-191 | And nothing is found exactly where none of this applies |
| RoutePlaces.OverlapExactly | internal/mirror/conflicts.go:71-85 | Two places conflict if and only if some request would be at both |
| RoutePlaces.ReservedExactly | internal/mirror/conflicts.go:30-70 | A place is reserved if and only if it meets one of the gateway's own or the administration's |
| RoutePlaces.HostsOverlapExactly | internal/mirror/conflicts.go:40-48 | Two hosts conflict exactly when they are the same in lower case |
| RoutePlaces.ReservedHostsExactly | internal/mirror/conflicts.go:17-54 | A host is reserved exactly when it is the shared one or the administration's |
| Links.ResolveRequestRoute | internal/proxy/route.go:94-154 | The statements compute the specified resolution, with its error codes |
| Links.SegmentsStand | internal/proxy/route.go:281-291 | The segments of a path are exactly the stretches between two slashes, or between a slash and an end |
| Links.SafeExactly | internal/proxy/route.go:281-291 | A path is safe exactly if it has no NUL, carriage return, line feed or backslash and no segment that is a dot or two |
| Links.DirectExactly | internal/proxy/route.go:94-154 | A request is sent upstream with a path if and only if it is no system route, a repository is found, its prefix comes off leaving that path, and the path is safe and no adapter address |
| Links.RefusedExactly | internal/proxy/route.go:94-154 | 400 exactly for an unsafe path and 404 exactly where no repository or prefix fits; nothing else is refused |
| Links.StripExactly | internal/proxy/route.go:267-279 | Stripping takes exactly the prefix off, between slashes |
| Links.TokenRouteExactly | internal/proxy/route.go:193-206 | The token endpoint of a numbered repository is a system route; with anything but digits it is none |
| Links.MappedExactly | internal/proxy/html.go:305-351 | A link is mapped exactly when it has the base's origin, no encoded slash, and lies in the base's directory |
| Links.LinkPath | internal/proxy/html.go:353-372 | A mapped link is the public place, the prefix that is stripped again, and the path below the base |
| Links.StripsBack | internal/proxy/route.go:267-279 | Stripping gives the path below the base back unless the prefix is a run of slashes |
| Links.JoinsBackExactly | internal/proxy/html.go:335-351 | Joining the path within the base to the base again gives the target exactly when it is below the base and does not go on with another slash |
| Links.LinkIsRouted | internal/mirror/registry.go:131-191 | Routing a mapped link finds the repository and the rest of the link |
| Links.PathLinksAvoidSystemRoutes | internal/mirror/conflicts.go:66-70 | The conflict check keeps links of path-mode repositories off the system's own routes; only a base path can bring one in |
| Links.LinkLeadsBackExactly | internal/proxy/html.go:305-372 | For an accepted list, a link mapped and sent back through the router requests the URL it replaced (origin, path, query) if and only if the target is below the base without a doubled slash, safe, no adapter address and not taken for a system route |
| Links.DoubledSlashIsLost | internal/proxy/html.go:335-351 | A link with a doubled slash below the base does not lead back |
| LoginLimiter.Limiter.PruneLocked | internal/auth/session.go:352-361 | Removes exactly the expired entries |
| LoginLimiter.Limiter.Acquire | internal/auth/session.go:262-287 | The new table and whether a slot is granted |
| LoginLimiter.GrantedExactly | internal/auth/session.go:262-287 | A slot is granted exactly if neither failures nor attempts in flight have reached the maximum in the key's window, or for a new key if there is room or an expired idle entry to make room |
| LoginLimiter.Limiter.Release | internal/auth/session.go:288-306 | Works once; a success forgets the entry |
| LoginLimiter.Limiter.Allowed | internal/auth/session.go:310-322 | Whether an attempt may start; an expired entry is forgotten |
| LoginLimiter.Limiter.Failure | internal/auth/session.go:324-344 | Charges the key, opening a window if there is none |
| LoginLimiter.MapNeverOverflows | internal/auth/session.go:269-274 | Over every run the table never exceeds maxItems |
| LoginLimiter.EntriesAreProtected | internal/auth/session.go:352-361 | An unexpired or in-flight entry is removed or restarted by nothing but a success of its own key |
| LoginLimiter.RunBalances | internal/auth/session.go:262-308 | Under a monotone clock and without successes, an entry counts exactly the charges of its window and its open slots are in flight |
| LoginLimiter.GrantsAreBounded | internal/auth/session.go:262-308 | Over every run, with successes and with a clock that steps back, grants per key and window are never more than 2*max-1 |
| LoginLimiter.FailuresAndFlightsAreGrants | internal/auth/session.go:262-308 | Under a monotone clock, where slots are only taken and given back after failures, an entry's failures and attempts in flight are exactly the grants of its window |
| LoginLimiter.WindowsAreApart | internal/auth/session.go:277-280 | Two windows of one key start more than a window apart |
| LoginLimiter.SuccessForgetsSlots | internal/auth/session.go:300-302 | The balance, unlike the bound, needs the condition on successes: after one, an older slot given back is taken off a newer one |
| ValidatorCache.MetadataValidators.Get | internal/proxy/metadata.go:45-56 | A hit is present and not expired; an expired entry is dropped |
| ValidatorCache.MetadataValidators.PutEntry | internal/proxy/metadata.go:58-79 | Insertion, eviction loop and compaction compute the specified cache |
| ValidatorCache.PutKeeps | internal/proxy/metadata.go:58-79 | After a put at most maximum entries remain, each with its name in the order, and nothing that was not there before |
| ValidatorCache.HitsAreLatest | internal/proxy/metadata.go:45-85 | Over every run a hit is the most recent put of its key, with no remove since, and not expired |
| ValidatorCache.NothingIsLost | internal/proxy/metadata.go:45-85 | While no more keys are in use than there is room for, every unexpired entry put and not removed is hit |
| ValidatorCache.CompactsExactly | internal/proxy/metadata.go:58-79 | The order of names after a put without eviction: all of them, or the live ones when there are more than twice the maximum |
| ValidatorCache.PutEvictsExactly | internal/proxy/metadata.go:58-69 | What a put stores in closed form: the first live name goes, exactly when the key is new and the cache is full |
| ValidatorCache.FreshKeySurvivesExactly | internal/proxy/metadata.go:58-69 | A key just put is stored exactly unless it is new, the cache is full and a stale name of its own comes before every live one |
| ValidatorCache.StaleNameEvictsItsKey | internal/proxy/metadata.go:65-69 | That does happen |
| ConcurrencyLimiter.Limiter.Acquire | internal/limit/limit.go:18-33 | A slot is granted exactly while every limit set leaves room; the counters stay the numbers of slots out |
| ConcurrencyLimiter.Limiter.Release | internal/limit/limit.go:34-48 | Gives one slot back, once; total equals the sum over addresses, the sum over mirrors and the slots out |
| HourlyStats.MergeLaws | internal/stats/stats.go:358-370 | Merging wrapping counters is commutative and associative |
| HourlyStats.CountersCount | internal/stats/stats.go:203-228 | Each counter is the number, or the sum, that its name says, modulo 2^64 |
| HourlyStats.Stats.Load | internal/stats/stats.go:114-148 | After loading distinct records every hourly total is the sum over the mirrors |
| HourlyStats.Stats.Record | internal/stats/stats.go:229-264 | Under a monotone clock recording and both prunings keep every hourly total the sum over the mirrors of that hour |
| TokenMigration.EncryptedIsReadBack | internal/database/cluster_credentials.go:114-152 | What is encrypted is decrypted to the same token, under the primary key |
| TokenMigration.UnreadableExactly | internal/database/cluster_credentials.go:212-219 | A row stops the migration exactly if its ciphertext cannot be read or contradicts the plain text beside it |
| TokenMigration.EnvelopeExactly | internal/database/cluster_credentials.go:126-152 | A ciphertext is the version, the id of a key that is held, and what that key opens |
| TokenMigration.MigrateClusterMutationTokens | internal/database/cluster_credentials.go:175-238 | Succeeds exactly when the rows can be loaded and there is nothing to do, or a keyring reads every row, every outdated one can be rewritten and the commit works; otherwise nothing is written |
| TokenMigration.MigrationPreservesTokens | internal/database/cluster_credentials.go:209-233 | Every token is kept, as a ciphertext under the primary key and not in plain text |
| TokenMigration.SecondRunChangesNothing | internal/database/cluster_credentials.go:223-225 | A second run is a no-op |
| Passkeys.StepLocksOutExactly | internal/database/passkeys.go:96-182 | Every statement keeps each account able to log in, except the bulk delete exactly when the user's password is disabled |
| Passkeys.BulkDeleteLocksOut | internal/database/passkeys.go:158-161 | Such a bulk delete would lock its user out |
| Passkeys.NobodyIsLockedOut | internal/database/passkeys.go:96-182 | Over every run, a disabled password always implies a remaining passkey if and only if no bulk delete meets a disabled password |
| Passkeys.CountersMoveForward | internal/database/passkeys.go:115-126 | A stored signature counter never moves back, and a positive one is never accepted again |
| Passkeys.DisabledExactly | internal/database/passkeys.go:96-108 | Password login is switched off exactly for a user with a passkey and an unused recovery code |
| Passkeys.DeletedExactly | internal/database/passkeys.go:139-156 | A passkey is deleted exactly by its owner, and not the last one while the password is off |

## Left out

- HTTP handlers, JSON decoding, the admin pages and other presentation.
- SQL itself: each statement or transaction is one atomic step on a map or sequence of rows.
- `net/url`, `net/netip`, DNS and regular expressions: URLs are records of scheme, host, port, path and query; matchers,
  address checks and URL resolution are function parameters.
- The managed Nginx process: activation is a step that may fail and may leave any configuration active.
- Letters outside ASCII in `strings.ToLower` and `strings.EqualFold`, except the few that fold to ASCII; invalid UTF-8;
  lengths are counted in characters where Go counts bytes.
- Broadcasting a synchronisation or purge to all nodes by worker goroutines; one node is modelled.
- Package policies (block and allow lists), rate limits and metadata rewriting, which come after routing.
- The signed addresses of resources outside the repository base, fragments, and the escaped form of a path kept beside it.
- Challenges of other schemes than Bearer, and the choice among several challenge headers.
- Fields of a repository that are only copied: they are one opaque part of the record.
- The parsing of COSE keys and of authenticator data after the map was read; the signature checks.
- CborReading.CborReader.SkipValue: asks for data shorter than 2^63 bytes, which every Go slice is.
- CoseMap.ParsesExactly: asks for the same bound on the data.
- NginxFragments.AssembledTextsAreAccepted: asks that names have no line break and that the trimmed content is accepted
  too; both are needed (NamesMayBreakOut, TrimmingMatters). The size limit applies to one fragment, not to the assembled
  text.
- Fingerprint.FingerprintIsContent: asks for distinct slugs and distinct sort keys, since the order of ties is left to
  the sorting library.
- NginxDirectives.PlainTextsExactly: for texts without quotes, comments, backslashes and braced variables; what each of
  these does to the scan is in QuotedTextIsOneToken, CommentsAreErased, UnfinishedIsRefused and VariableIsOneToken.
- Fingerprint.FingerprintShowsRepositories: asks for distinct slugs and sort keys on one side, for the same reason.
- CacheGenerations.PurgeFreshness: loading happens at start-up only, as in the gateway; ReloadInFlightIsStale shows why.
- HealthChecker.StatusIsHistory: no other write changes a node's status between the read and the write of one probe; what
  a probe writes when one does is in CheckNode.
- LoginLimiter.FailuresAndFlightsAreGrants: for runs without a success, which forgets the entry (SuccessForgetsSlots).
- NodeRouter.WeightsAreExact: weights whose sum passes 2^63, where the sum itself would wrap around.
- Links.LinkLeadsBackExactly: the upstream that served the page is the one that serves the link.
- Routes.Registry.Replace: the indexes by slug and by id are not part of the model.
- Routes.Registry.UpdateUpstreamHealth: latency, message and time of the check are copied fields that are left out.
- Links.ResolveRequestRoute: the branches for signed auxiliary, token and adapter addresses are one outcome each.
- HourlyStats.Stats.Record: hours are whole numbers instead of formatted local times; daily, total, status and latency
  counters are not modelled.
- Redirects.SelectUpstream: building the request for a candidate and its cache key is one outcome of the attempt.
- The slice of the credential id in authenticator data, whose bound is computed in 16 bits.
