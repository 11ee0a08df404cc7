# Image resolution and headless-service reconciliation

This project models two parts of the Cassandra operator:

- **Image resolution** (`pkg/images/images.go`). Given the operator's image configuration, it decides:
  - which container image a server of a given type ("dse", "cassandra" or anything else) and version runs;
  - whether the version is accepted by the DSE or Cassandra version expression;
  - how a configured private registry rewrites every image reference, dropping a registry host the reference already names;
  - whether the registry's pull secret is appended to a pod specification.
- **The headless-service step of a reconcile pass** (`pkg/reconciliation/reconcile_services.go`).
  - Check phase: builds the four or five desired services of a datacenter and stamps the datacenter as their owner. It looks each one up, updates the drifted ones (different content hash) while keeping the platform-assigned cluster IP and resource version, and queues the missing ones.
  - Create phase: creates the queued services in a batch. Each create is preceded by a progress-status update and followed by one "CreatedResource" event.

Files:

- `wrappers.dfy`: `Option` and `Result`.
- `go_strings.dfy`: the Go string functions the registry rewriting relies on. These are `strings.Split` and `strings.Join` on "/", proved to be inverse to each other, and `strings.TrimSuffix`.
- `version_patterns.dfy`: the two version expressions.
  - Specification: an alternative's language, plus "some substring is in it", which is Go's unanchored `MatchString`.
  - An executable scanner proved equivalent to that specification.
- `images.dfy`: the image configuration as an immutable value passed to each operation, and the image operations. The pod specification is a class, whose pull-secret list the injection appends to in place.
- `reconcile_services.dfy`:
  - The step as pure functions (`CheckFrom`, `CreateFrom`, `CheckHeadless`) over a store of services.
  - The class `ReconciliationContext`. Its two methods work by loops, as in the source, and are proved equal to those functions.
  - The collaborators are stamping the owner reference, the store's get, update and create calls, and setting the progress status. Each one fails for the keys a `Faults` value names.
  - The step's writes are recorded in order in a trace: progress updates, updates and creates.
- `reconcile_services_properties.dfy`: reference definitions and lemmas about the step.
  - The reference definitions say which services are missing and which are stale, and what the writes and events must be.
  - The lemmas relate the step to those definitions.

## Model

| member | source | states |
|---|---|---|
| GoStrings.Split | pkg/images/images.go:75 | Go's split on "/": at least one piece, and exactly one piece iff there is no "/". The first piece is the text before the first "/", and no piece contains "/". |
| GoStrings.Join | pkg/images/images.go:78 | Go's join with "/": no pieces give "", and otherwise the result ends with the last piece. JoinSplit and SplitJoin relate it to Split. |
| GoStrings.JoinSplit | pkg/images/images.go:75-78 | Joining the "/"-pieces of any string with "/" gives back the string. |
| GoStrings.JoinSplitTail | pkg/images/images.go:75-78 | Joining every piece but the first gives back the text after the first "/". |
| GoStrings.SplitJoin | pkg/images/images.go:75-78 | Splitting the "/"-join of a non-empty list of slash-free pieces gives back the pieces. The pieces themselves may be empty. |
| GoStrings.TrimSuffix | pkg/images/images.go:86 | When the input ends with the suffix, the result followed by the suffix is the input. Otherwise the result is the input unchanged. |
| VersionPatterns.MatchStartsAtIff | pkg/images/images.go:27-28 | The scanner finds a match of an alternative at position i iff some substring starting at i is in that alternative's language. |
| VersionPatterns.AnyStartsAt | pkg/images/images.go:27-28 | True iff some alternative matches some substring starting at i. |
| VersionPatterns.SearchFrom | pkg/images/images.go:66 | True iff some alternative matches some substring starting at or after i. |
| VersionPatterns.MatchString | pkg/images/images.go:64-72 | An unanchored match: true iff some substring of the version is in the language of some alternative. |
| VersionPatterns.IsDseVersionSupported | pkg/images/images.go:64-67 | True iff some substring is 6.8.<digits> or 7.<digits>.<digits>. |
| VersionPatterns.IsOssVersionSupported | pkg/images/images.go:69-72 | True iff some substring is 3.11.<digits>, 4.<digits>.<digits> or 5.<digits>.<digits>. |
| VersionPatterns.AcceptanceIsUnanchored | pkg/images/images.go:66 | An accepted version stays accepted with any text before and after it. |
| VersionPatterns.LiteralCharsOccur | pkg/images/images.go:27-28 | A match of an alternative implies that the alternative's literal characters occur in the version. |
| VersionPatterns.SupportedVersionExamples | pkg/images/images.go:27-28 | DSE accepts 6.8.5 and 7.0.1; Cassandra accepts 4.1.0 and 3.11.14. |
| VersionPatterns.UnsupportedDseExample | pkg/images/images.go:27 | DSE rejects 6.9.0. |
| VersionPatterns.UnsupportedOssExample | pkg/images/images.go:28 | Cassandra rejects 2.2.19. |
| VersionPatterns.SubstringVersionsAccepted | pkg/images/images.go:64-72 | Because the match is unanchored, DSE accepts "16.8.5" and Cassandra accepts "v14.1.0-beta". |
| Images.HasRegistryHost | pkg/images/images.go:75-77 | True iff splitting on "/" gives more than one piece and the first piece contains '.' or ':'. |
| Images.StripRegistry | pkg/images/images.go:74-82 | The result is the reference, or a proper suffix of it that directly follows a "/" in it. StripRegistryRemovesHost says which. |
| Images.StripRegistryRemovesHost | pkg/images/images.go:74-82 | Stripping removes exactly the text up to and including the first "/" when that first segment names a host (contains '.' or ':'). Otherwise it leaves the reference unchanged. |
| Images.CustomRegistry | pkg/images/images.go:85-86 | The configured registry with one trailing "/" removed: when it ends with "/", the result followed by "/" is the configured registry. Otherwise it is the configured registry. |
| Images.ApplyRegistry | pkg/images/images.go:84-98 | Without a registry the reference is unchanged. With a registry R, the result starts with R + "/" and continues with a suffix of the reference. |
| Images.ApplyRegistryIdentityIff | pkg/images/images.go:84-94 | Every reference is left unchanged iff the configured registry is "" or "/". |
| Images.ApplyRegistryRewrites | pkg/images/images.go:88-93 | Under a registry R (one trailing "/" trimmed), a reference becomes R + "/" + the reference without its host segment. |
| Images.ApplyRegistryIdempotent | pkg/images/images.go:84-98 | Applying a single-host registry to an already rewritten reference changes nothing. |
| Images.ApplyRegistryExamples | pkg/images/images.go:84-94 | Under "my.registry.io/", "k8ssandra/cass-management-api:4.1.0" is prefixed with "my.registry.io/", and "quay.io/foo:bar" becomes "my.registry.io/foo:bar". |
| Images.CassandraContainerImageOverride | pkg/images/images.go:105-121 | The override is looked up only for "dse" (DSE map) and "cassandra" (Cassandra map), and only when overrides are configured. Otherwise there is none. |
| Images.ImageComponents | pkg/images/images.go:123-149 | The repository and suffix of a configured default component whose repository is non-empty. Otherwise the built-in repository of the type with an empty suffix, or ("", "") for an unknown type. |
| Images.IsVersionSupported | pkg/images/images.go:156-164 | "dse" is checked against the DSE expression and every other type against the Cassandra one. |
| Images.GetCassandraImage | pkg/images/images.go:151-169 | Succeeds iff there is an override or the version is accepted. An error names "dse" for type "dse", "cassandra" for any other type, and the version. |
| Images.OverrideTakesPrecedence | pkg/images/images.go:152-154 | An override is returned, registry-rewritten, without version validation. |
| Images.ComposedImage | pkg/images/images.go:166-168 | Without an override, an accepted version gives repository + ":" + version + suffix, registry-rewritten. |
| Images.DefaultImageExamples | pkg/images/images.go:151-169 | With nothing configured: dse 6.8.5 gives datastax/dse-server:6.8.5, cassandra 4.1.0 gives k8ssandra/cass-management-api:4.1.0, and dse 6.9.0 is an unsupported-version error. |
| Images.UnknownServerTypeHasEmptyRepository | pkg/images/images.go:123-131 | A type that is neither "dse" nor "cassandra", with a Cassandra-accepted version, gives the image ":" + version, registry-rewritten. |
| Images.GetConfigBuilderImage | pkg/images/images.go:171-173 | The configured config-builder image, unchanged without a registry. With a registry R, it is R + "/" + the image without its host segment. |
| Images.GetSystemLoggerImage | pkg/images/images.go:175-177 | The same for the system-logger image. |
| Images.AddDefaultRegistryImagePullSecrets | pkg/images/images.go:179-188 | Appends a reference to the pull secret iff its name is non-empty, and reports whether it did. The existing list is otherwise kept. |
| ReconcileServices.DesiredServices | pkg/reconciliation/reconcile_services.go:58-68 | The cql, seed, all-pods and additional-seed services in that order, followed by the node-port service exactly when node ports are enabled. |
| ReconcileServices.SetControllerReference | pkg/reconciliation/reconcile_services.go:76 | Sets the owner to the datacenter and changes nothing else. |
| ReconcileServices.Get | pkg/reconciliation/reconcile_services.go:83-96 | A lookup fails exactly for the keys whose get call fails. Otherwise it finds the stored object when the key is stored, and reports not-found when it is not. |
| ReconcileServices.MergeForUpdate | pkg/reconciliation/reconcile_services.go:101-114 | The update object is the desired service with the stored cluster IP and resource version. |
| ReconcileServices.CheckFrom | pkg/reconciliation/reconcile_services.go:72-123 | The check loop ends in Continue or Error, never Done. What it writes is stated by CheckMatchesReference and CheckErrorStopsAtFirstFailure. |
| ReconcileServices.CreateFrom | pkg/reconciliation/reconcile_services.go:21-44 | The create loop ends in Continue or Error and leaves the services field alone. What it writes is stated by CreateBatchShape. |
| ReconcileServices.CreatedEvent | pkg/reconciliation/reconcile_services.go:39 | A "Normal" event with reason "CreatedResource" and the message "Created service " followed by the service's name. |
| ReconcileServices.CheckHeadless | pkg/reconciliation/reconcile_services.go:48-131 | The step ends in Continue or Error, never Done. |
| ReconcileServices.ReconciliationContext.CreateHeadlessServices | pkg/reconciliation/reconcile_services.go:16-45 | The loop leaves the result and the context's new state equal to the create batch over the context's services (see CreateBatchShape). |
| ReconcileServices.ReconciliationContext.CheckHeadlessServices | pkg/reconciliation/reconcile_services.go:48-131 | The loop and the following create leave the result and new state equal to the whole step (see the lemmas below). |
| ReconcileServicesProperties.CheckWritesOnlyUpdates | pkg/reconciliation/reconcile_services.go:72-123 | The check loop creates nothing:<br>• the store's key set is unchanged;<br>• services outside the loop keep their objects;<br>• the trace only gains updates;<br>• the queue only grows, and only with services absent from the store. |
| ReconcileServicesProperties.CheckQueuesMissingInOrder | pkg/reconciliation/reconcile_services.go:87-89 | A check loop that gets through queues exactly the owner-stamped services absent from the store, in desired order. |
| ReconcileServicesProperties.CheckMatchesReference | pkg/reconciliation/reconcile_services.go:72-123 | For distinct keys, the loop continues iff no owner-reference, lookup or needed update call fails. It then writes exactly the merged updates of the services stored with a different hash, in order, and nothing else. |
| ReconcileServicesProperties.FailureIndex | pkg/reconciliation/reconcile_services.go:72-123 | The position of the first service at which an owner-reference, lookup or needed update call fails; no service before it fails. |
| ReconcileServicesProperties.CheckErrorStopsAtFirstFailure | pkg/reconciliation/reconcile_services.go:72-123 | For distinct keys, a failing check loop stops at the first failing service. Every service before it passes, the returned error is that service's failing call, and the writes are exactly the merged updates of the stale services before it, in order. |
| ReconcileServicesProperties.CheckIsNoOpWhenHashesMatch | pkg/reconciliation/reconcile_services.go:98-100 | When every service is stored with its desired hash, the loop continues and writes and queues nothing. |
| ReconcileServicesProperties.UpdatePreservesPlatformFields | pkg/reconciliation/reconcile_services.go:101-114 | The update carries the desired hash, content and key, and the datacenter as owner. It keeps the stored cluster IP and resource version. |
| ReconcileServicesProperties.CreateBatchShape | pkg/reconciliation/reconcile_services.go:21-44 | The batch creates a prefix of its services in order, each preceded by a progress update and followed by one event. It continues iff the prefix is all of them. On a create failure the trace ends with the failed service's progress update. |
| ReconcileServicesProperties.CreateNeverOverwrites | pkg/reconciliation/reconcile_services.go:33-37 | A create never replaces a stored object. |
| ReconcileServicesProperties.CreateBatchStoresAll | pkg/reconciliation/reconcile_services.go:21-44 | A batch that continues has stored every one of its services under its own key. |
| ReconcileServicesProperties.CreateBatchEventsFollowCreates | pkg/reconciliation/reconcile_services.go:21-40 | A create batch only appends to the trace, and the events it records are one per create in that trace suffix, in order. |
| ReconcileServicesProperties.EventsFollowCreates | pkg/reconciliation/reconcile_services.go:39 | The step only appends to the trace. The events it records are exactly one "Created service <name>" per create, in order; updates record none. |
| ReconcileServicesProperties.CheckFailureAbortsBeforeCreates | pkg/reconciliation/reconcile_services.go:91-96 | A failing owner-reference, lookup or update call returns that error before any create. No event is recorded and the services field is unchanged, but the updates already issued stay. For distinct keys, the error is the first failing service's call, and the store and trace hold exactly the updates of the stale services before it. |
| ReconcileServicesProperties.FirstLookupFailureWritesNothing | pkg/reconciliation/reconcile_services.go:85-96 | A lookup failure on the first service returns that error and changes nothing. |
| ReconcileServicesProperties.ServicesBecomeTheMissingOnes | pkg/reconciliation/reconcile_services.go:125-130 | After a check that gets through, the services field becomes the missing services if there are any. Otherwise it is unchanged and the step continues with no event. |
| ReconcileServicesProperties.CheckLeavesEachCurrentOrQueued | pkg/reconciliation/reconcile_services.go:72-123 | For distinct keys, after a check that gets through, every desired service is either stored with its desired hash or was missing and is queued. |
| ReconcileServicesProperties.SecondPassWritesNothing | pkg/reconciliation/reconcile_services.go:48-131 | For distinct keys, a second pass right after one that ended in Continue (same failures) continues and writes and records nothing. |

## Left out

- ParseImageConfig and LoadImageConfig (images.go:37-62) are not modelled. They read a file and decode it with the platform's codec. The decoded configuration is the `ImageConfig` parameter instead of a process-wide pointer.
- A nil image configuration is not modelled. If the configuration itself is nil, the source dereferences a nil pointer and panics; the model always has a configuration.
- GetConfigBuilderImage and GetSystemLoggerImage require configured overrides (`images.Some?`). The source panics on a nil overrides section, and the model does not capture that panic.
- Regular expressions are not modelled in general. Only the two alternative shapes the two version expressions use are modelled.
- The service constructors, the hash annotation and `ResourcesHaveSameHash` are not modelled. A service's hash is a field compared for equality, and its other content is an opaque string.
- `setControllerReference`, `setOperatorProgressStatus` and the store client are not modelled. Their failures come from the `Faults` sets; error values are reduced to a cause and key.
- Logging and the event recorder's delivery are not modelled. An event is appended to a list.
- The platform's assignments on create or update are not modelled. A created object is stored as sent, and an update does not change the resource version.
- A create of a key that is already stored fails in the model, as the platform's "already exists" error.
- After creating, the source returns Continue without checking the services again. The model follows the code. The re-check happens on the next pass, and SecondPassWritesNothing shows what that pass does.
- Concurrency with other writers to the store is not modelled.
