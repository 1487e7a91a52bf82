# Bucketeer backend: verified models

Dafny models of the state- and data-heavy parts of the Bucketeer feature flag backend, with proofs of
the properties their callers rely on. `dafny verify dfyconfig.toml` checks the whole project.

- **Prerequisite graph** (`PrerequisiteGraph`, `TopologicalSort`, `FeatureModel`, `PrerequisiteCommands`,
  `PrerequisiteEffects`, `PrerequisiteLinks`, `PrerequisiteChecks`, `PrerequisiteRequests`,
  `PrerequisiteOverlaps`, `FeatureService`). The feature service lists the features of an
  environment, checks every command of a request against them and then handles every command. The check of
  an added prerequisite appends the command's own object to the feature it checks, so checks, handlers and
  commands share objects; the classes model exactly that sharing, and a specification on
  values says what row results. Safety is an invariant over every run of requests.
- **Subscription workers** (`PubSub`, `Batching`, `EventPersister`, `SharedCache`, `FeatureCacher`,
  `ApiKeyCacher`, `ApiKeyRuns`, `AuditLogPersister`, `Paging`, `Separators`). Loops over deliveries, timer
  ticks and cancellation that hold a map of pending messages. Maps are ranged over in an arbitrary order.
  Services are functions of a logical clock, so every answer and every failure is covered. Each process starts
  several workers, and the gateway writes the same caches on a miss, so between any two calls of a worker
  everybody else may put anything into its cache.
- **Event counts** (`Regex`, `EvaluationStrings`, `Environments`, `DruidColumns`, `DruidJoin`,
  `DruidQuerier`, `VariationCounts`). The strings the persister prints, the patterns the Druid queries use
  on them, the columns and headers, and the hash join of goal rows to evaluation rows.
- **Auto-ops rules** (`AutoOpsRule`, `AutoOpsRequests`, `AutoOpsEdits`, `AutoOpsService`). A clause list edited
  in place in a shared backing array, and the machine that triggers a rule and arms it again.
- **Experiments** (`ExperimentRuns`, `ExperimentDomain`). The status machine and when an experiment stops
  blocking edits of its feature.
- **Keys and chunks** (`CacheKeys`, `SegmentUsersCache`, `LastUsedInfos`). A flat key-value store that
  must behave like a map per environment, and last-used infos filled in by chunks.

Classes carry the source's mutable objects; each method is proved against a function of the old state,
and the properties are lemmas about those functions. Time is an integer input. UUIDs are inputs that are
fresh. A database transaction either stores everything or nothing. Redis, Pub/Sub, MySQL and Druid are
represented by their answers.

## Where the code differs from what one would expect

- An accepted targeting request stores every added prerequisite twice (`RepeatsExactly`,
  `RepeatedEdgeExample`), so a later removal does not remove the edge (`RemoveDoesNotUndoAdd`), and a
  change handled before an addition of the same feature overwrites the addition
  (`ChangeLeaksIntoAddition`). `RepeatsExactly` and `RunRepeatsExactly` say exactly when no edge is
  repeated, for a request and for a run.
- The endpoints accept any command type and leave the ones they do not know unchecked, so each of them
  can break the graph (`VariationsBreakSoundness`, `TargetingBreaksSoundness`). `CommitSoundExactly` and
  `RunSoundExactly` say exactly which requests and runs keep it sound; sending each command through its
  own endpoint is enough (`RoutedRunStaysSound`).
- Transactions check what they have read and lock none of it, so two accepted additions that overlap can
  close a cycle (`OverlappingAddsCloseCycle`); `OverlappingRunSoundExactly` says exactly which runs keep
  the graph sound.
- A worker lists and then puts, and several workers and the gateway write one cache: an older list can be
  put over a newer one after the newer event was acked (`StalePutExample`), and an acked disabling can be
  undone by somebody else (`OtherWriterUndoesDisabling`). `AckedFreshExactly`, `RunCachesExactly` and
  `RunCachesByFlag` say exactly what is cached.
- An API key event writes its key as enabled whatever the state of the project, so an acked disabling can
  be undone within the same chunk of one worker (`KeyEventUndoesDisabling`, `SingleWriterCachesExactly`).
- The requested reason of a goal count is not validated and is put into a regular expression unescaped;
  with a dot or a bar it counts events that were not asked for (`CountsAsRequestedExactly`).
- A requested segment named like a goal column makes that column disappear from the result
  (`HeaderExactly`).
- The comment of `IsNotFinished` speaks of the status, the code of times; `CommentAgreesExactly` says when
  they agree. A finished experiment can become unfinished again (`FinishIsNotFinal`); `FinishedExactly`
  says exactly when.
- The creation check of an experiment's period subtracts in int64 (`PeriodOrderedExactly`,
  `WrappedPeriodAccepted`).
- A feature operation is performed before its transaction commits, so it can outlive a failed commit: the
  third term in `ExecutesOncePerEdit`.
- A message that does not decode is acked twice by the event persister when its batch holds a decodable
  one (`Expected` in `EventPersister`).

## Model

| member | source | states |
|---|---|---|
| TopologicalSort.Index | pkg/feature/domain/evaluation.go:101-106 | the two maps of the sort: every feature unvisited, each id mapped to its feature |
| TopologicalSort.Sorter.Visit | pkg/feature/domain/evaluation.go:108-130 | one depth-first visit keeps the search state, finishes its feature, and reports a cycle only if there is one and a missing feature only if one is missing |
| TopologicalSort.Sort | pkg/feature/domain/evaluation.go:100-139 | succeeds if and only if the prerequisite graph is closed and acyclic, and then lists every feature exactly once, each after all its prerequisites |
| FeatureModel.Feature.AddPrerequisite | pkg/feature/domain/feature.go:702-707 | appends a new prerequisite object and leaves the others in place |
| FeatureModel.Feature.FindPrerequisite | pkg/feature/domain/feature.go:729-736 | the first prerequisite on a feature, or -1 exactly when there is none |
| FeatureModel.Feature.ChangePrerequisiteVariation | pkg/feature/domain/feature.go:709-717 | writes through the pointer of the first prerequisite on that feature and no other; fails exactly when there is none |
| FeatureModel.Feature.RemovePrerequisite | pkg/feature/domain/feature.go:719-727 | removes exactly the first prerequisite on that feature and keeps the order of the rest |
| FeatureModel.Feature.AddVariation | pkg/feature/domain/feature.go:451-467 | appends the variation when its value has the feature's type |
| FeatureModel.Feature.RemoveVariation | pkg/feature/domain/feature.go:516-532 | removes the first such variation unless it is missing or in use |
| PrerequisiteCommands.HandleObjectsViews | pkg/feature/command/feature.go:56-133 | handling commands on shared objects has the same effect on targets and variations as on plain lists, fails in the same cases, and only ever copies links that were loaded or requested |
| PrerequisiteCommands.OutcomeViews | pkg/feature/command/feature.go:283-335 | the exact row a request stores, read as targets and variations: every stored link was stored before or written by a command |
| PrerequisiteCommands.ChangeOutcome | pkg/feature/command/feature.go:300-318 | a single change replaces the first link to that feature and nothing else |
| PrerequisiteCommands.AddOutcome | pkg/feature/command/feature.go:283-298 | a single addition through the targeting endpoint stores its link twice, through the handler alone once |
| PrerequisiteCommands.ChangeLeaksIntoAddition | pkg/feature/api/validation.go:614-639 | because the check appends the command's own object, a change handled before the addition of the same feature overwrites the addition's variation |
| PrerequisiteEffects.HandleCount | pkg/feature/command/feature.go:283-335 | conservation of edges: edges afterwards plus removals are edges before plus additions, per target |
| PrerequisiteEffects.HandleVariationCount | pkg/feature/command/feature.go:645-689 | conservation of variations in the same way, per variation id |
| PrerequisiteLinks.OutcomeLinks | pkg/feature/command/feature.go:56-133 | without objects shared with a check, handling commands on shared objects leaves exactly the links of plain list handling |
| PrerequisiteLinks.AdditionsOutcome | pkg/feature/command/feature.go:283-298 | handlers without changes and removals append exactly the added links |
| PrerequisiteLinks.HandleHead | pkg/feature/domain/feature.go:702-727 | the links to one feature form a queue: an addition goes to the end, a removal takes the head, a change rewrites the head, and no other queue is touched |
| PrerequisiteLinks.HandledQueues | pkg/feature/command/feature.go:283-335 | whatever the commands and their order, the links left to a feature are those stored and added, less one from the front for each removal, the head with the variation of the last change that no removal follows |
| PrerequisiteLinks.LeftExactly | pkg/feature/command/feature.go:283-335 | which links a variations request leaves, read off the stored row and its commands |
| PrerequisiteLinks.TargetLeftExactly | pkg/feature/command/feature.go:283-335 | which targets it leaves: those removed less often than stored and added |
| PrerequisiteGraph.NewEdgesCloseCycle | pkg/feature/domain/evaluation.go:100-139 | giving a feature other prerequisites in an acyclic graph creates a cycle, the error of the sort, if and only if one of them already reaches the feature |
| PrerequisiteChecks.AddsAcceptedSnoc | pkg/feature/api/validation.go:614-639 | adding one more edge to an acceptable set is acceptable exactly when the check of that edge, on the graph with the earlier ones, accepts it |
| PrerequisiteChecks.AcceptedSnoc | pkg/feature/api/validation.go:498-521 | a request with one more command is acceptable exactly when the shorter one is and the check of the command accepts |
| PrerequisiteChecks.AcceptedPrefix | pkg/feature/api/validation.go:498-521 | every prefix of an acceptable request is acceptable, so stopping at the first failed check refuses nothing acceptable |
| PrerequisiteRequests.TargetingSoundExactly | pkg/feature/api/feature.go:1100-1256 | an accepted targeting request, whatever its commands, keeps the graph sound if and only if the links to its feature keep their variations |
| PrerequisiteRequests.TargetingSoundOnCommands | pkg/feature/api/feature.go:1100-1256 | on the list of commands: if and only if no command removes a variation that an unarchived feature depends on, for distinct variation ids |
| PrerequisiteRequests.VariationsCycleExactly | pkg/feature/api/feature.go:945-1090 | an accepted variations request closes a cycle if and only if a target that it adds more often than it removes already reaches the feature in the stored graph |
| PrerequisiteRequests.VariationsSoundExactly | pkg/feature/api/feature.go:945-1090 | an accepted variations request, whatever its commands, keeps the graph sound if and only if every link left by its commands is offered and no target added more often than removed already reaches the feature; removing variations never breaks it |
| PrerequisiteRequests.VariationsSoundOnAdditions | pkg/feature/api/validation.go:433-445 | for a variations request that only adds prerequisites: if and only if every added link is offered and no added feature already reaches this one, which this endpoint does not check |
| PrerequisiteRequests.CommitSoundExactly | pkg/feature/api/validation.go:433-473 | any request that is carried out keeps the graph acyclic, with every edge on an unarchived feature and a variation it has, if and only if it is safe in that sense |
| PrerequisiteRequests.RunSoundExactly | pkg/feature/api/feature.go:945-1256 | along every run of create, targeting, variation and archive requests from rows without prerequisites, all states are sound if and only if every request carried out was safe |
| PrerequisiteRequests.RoutedRunStaysSound | pkg/feature/api/feature.go:945-1256 | in particular when each command goes through the endpoint that checks it; the graph over unarchived features is then also closed and free of self edges |
| PrerequisiteRequests.RepeatsExactly | pkg/feature/api/validation.go:614-639 | from any stored row: an accepted request leaves no repeated edge if and only if, for every target, edges before plus twice the additions minus the removals are at most one |
| PrerequisiteRequests.RepeatsFromDistinct | pkg/feature/api/validation.go:614-639 | from a row without repeats: if and only if the request also removes every target it adds |
| PrerequisiteRequests.RunGains | pkg/feature/api/feature.go:945-1256 | conservation of edges along every run: two for each addition through the targeting endpoint, one through the variations endpoint, less the removals |
| PrerequisiteRequests.RunRepeatsExactly | pkg/feature/api/feature.go:945-1256 | after a run a feature stores no repeated edge if and only if no target gained more than one |
| PrerequisiteRequests.RepeatedEdgeExample | pkg/feature/api/feature.go:1185-1233 | a sound database and an accepted request that stores a repeated edge |
| PrerequisiteRequests.RemoveDoesNotUndoAdd | pkg/feature/api/feature.go:1185-1233 | from any stored row, an accepted addition followed by a removal of the same prerequisite leaves the edge in place |
| PrerequisiteRequests.VariationsBreakSoundness | pkg/feature/api/validation.go:433-445 | the variations endpoint carries out a prerequisite command that it does not check, and a self edge is stored |
| PrerequisiteRequests.TargetingBreaksSoundness | pkg/feature/api/validation.go:498-521 | the targeting endpoint carries out the removal of a variation that another feature depends on |
| PrerequisiteOverlaps.AloneIsCommits | pkg/feature/api/feature.go:1150-1240 | a request whose reads are of the rows it writes to is one of the requests above |
| PrerequisiteOverlaps.ArchiveCheckExactly | pkg/feature/api/validation.go:447-462 | on a sound graph the check of an archive request refuses exactly what would break the graph |
| PrerequisiteOverlaps.AddCheckExactly | pkg/feature/api/validation.go:614-639 | on a sound graph the checks of added prerequisites refuse exactly what would repeat a target or break the graph |
| PrerequisiteOverlaps.LateCommitSoundExactly | pkg/feature/api/feature.go:1150-1240 | whatever a transaction had read, writing its row keeps the graph sound if and only if the row fits what is stored by then: links offered, variations that others depend on kept, and no prerequisite reaching the feature; an archived row exactly when no other feature depends on it |
| PrerequisiteOverlaps.OverlappingRunSoundExactly | pkg/feature/api/feature.go:745-1256 | along every run of overlapping requests from rows without prerequisites, all states are sound if and only if every row fitted when it was written |
| PrerequisiteOverlaps.OverlappingAddsCloseCycle | pkg/feature/api/feature.go:1150-1240 | two additions, each accepted by its check, that overlap and together store a cycle |
| FeatureService.FindFeature | pkg/feature/api/feature.go:1258-1265 | the first listed feature with the id, or none exactly when no feature has it |
| FeatureService.ValidateVariationID | pkg/feature/api/validation.go:648-659 | accepts exactly when the prerequisite names an unarchived feature and one of its variations, with the source's two error cases |
| FeatureService.ValidateAddPrerequisite | pkg/feature/api/validation.go:614-639 | accepts exactly when the edge is no self edge, no repeat, names an existing variation and leaves the graph closed and acyclic; appends the command's own object to the listed feature before it looks for cycles |
| FeatureService.ValidateFeatureTargetingCommand | pkg/feature/api/validation.go:498-521 | dispatches to the check of each command kind and accepts what has none |
| FeatureService.ValidateTargeting | pkg/feature/api/feature.go:1185-1196 | the command loop with its in-place appends accepts exactly when the graph with all new edges is acceptable as a whole |
| FeatureService.ValidateVariationCommand | pkg/feature/api/validation.go:464-473 | accepts exactly when no listed prerequisite names the variation |
| FeatureService.ValidateVariations | pkg/feature/api/validation.go:433-445 | accepts exactly when no unarchived feature's prerequisite names a variation that is removed or changed |
| FeatureService.ValidateArchiveFeature | pkg/feature/api/validation.go:447-462 | accepts exactly when no unarchived feature has the feature as a prerequisite |
| FeatureService.HandleAdd | pkg/feature/command/feature.go:283-298 | copies the command's object as it is by then |
| FeatureService.HandleChange | pkg/feature/command/feature.go:300-318 | writes the one shared object and leaves every other object of the request alone |
| FeatureService.Handle | pkg/feature/command/feature.go:56-133 | one command on the shared objects does exactly what the object-level specification says, and fails exactly when it does |
| FeatureService.HandleCommands | pkg/feature/api/feature.go:1215-1228 | the handler loop reaches exactly the specified outcome, or fails exactly when a command fails |
| FeatureService.Service.ListFeatures | pkg/feature/api/feature.go:1150-1173 | lists every unarchived feature once, as fresh objects |
| FeatureService.Service.HandleAndStore | pkg/feature/api/feature.go:1197-1240 | stores exactly the outcome of the commands, or changes nothing |
| FeatureService.Service.IsEditable | pkg/feature/api/feature.go:668-695 | reads all pages of the feature's experiments and allows an edit exactly when they could be listed and all are finished now |
| FeatureService.Service.UpdateFeatureTargeting | pkg/feature/api/feature.go:1100-1256 | carried out exactly when the feature's experiments are listed and finished, the request is acceptable and its commands succeed, with exactly the specified row; otherwise nothing changes |
| FeatureService.Service.UpdateFeatureVariations | pkg/feature/api/feature.go:945-1090 | likewise for variation requests |
| FeatureService.Service.ArchiveFeature | pkg/feature/api/feature.go:745-788 | archives exactly when no unarchived feature depends on the feature and its experiments are listed and finished; otherwise nothing changes |
| FeatureService.Service.CreateFeature | pkg/feature/api/feature.go:431-520 | creates a feature without prerequisites, unless the id exists |
| AutoOpsRule.WithoutAt | pkg/autoops/domain/auto_ops_rule.go:172-190 | removing the clause with a unique id is cutting its position out of the list |
| AutoOpsRule.Rule.SetTriggeredAt | pkg/autoops/domain/auto_ops_rule.go:89-93 | marks the rule as triggered now and changes nothing else |
| AutoOpsRule.Rule.SetOpsType | pkg/autoops/domain/auto_ops_rule.go:99-103 | changes the type and re-arms the rule |
| AutoOpsRule.Rule.AddClause | pkg/autoops/domain/auto_ops_rule.go:133-146 | appends a clause, in place or into a new backing array, and re-arms the rule |
| AutoOpsRule.Rule.ChangeClause | pkg/autoops/domain/auto_ops_rule.go:156-170 | replaces exactly the named clause's body and re-arms the rule, also when the clause is missing |
| AutoOpsRule.Rule.ShiftDown | pkg/autoops/domain/auto_ops_rule.go:172-190 | the in-place append that drops one position moves the tail down and leaves the last cell as it was |
| AutoOpsRule.Rule.RemoveWhileRanging | pkg/autoops/domain/auto_ops_rule.go:172-190 | ranging over the shared backing array while it is shifted still removes exactly the named clause |
| AutoOpsRule.Rule.DeleteClause | pkg/autoops/domain/auto_ops_rule.go:172-190 | removes exactly the named clause and keeps the order of the rest; refuses to empty the rule; re-arms it otherwise |
| AutoOpsRequests.EditOutcome | pkg/autoops/api/api.go:521-548 | an edit goes through exactly when changes and deletions name stored clauses, each deleted once and not all of them; the ids afterwards are exactly the stored and added ones that are not deleted |
| AutoOpsEdits.EditApplied | pkg/autoops/api/api.go:521-548 | after an accepted edit the type is the requested one or else the stored one, the rule is armed, and each stored or added clause that is not deleted is there, in order, with the body of the last change that names it or else its own |
| AutoOpsEdits.ArmedFires | pkg/autoops/api/api.go:654-710 | a rule that was created or edited fires, with its own type, on its next execution request whose calls all succeed, whatever happens to other rules in between, and then not again |
| AutoOpsRequests.ApplyRearms | pkg/autoops/domain/auto_ops_rule.go:99-190 | every non-empty sequence of successful commands leaves the rule armed |
| AutoOpsRequests.AddedIdsOfEdit | pkg/autoops/api/api.go:521-548 | the ids an edit adds, over all its command lists |
| AutoOpsRequests.RunKeepsClauses | pkg/autoops/domain/auto_ops_rule.go:42-82 | along every run every rule has at least one clause and distinct clause ids |
| AutoOpsRequests.ExecutesOncePerEdit | pkg/autoops/api/api.go:654-710 | along every run the successful executions of a rule are at most one plus its committed edits, and the feature operations performed are those executions plus the ones whose transaction then failed |
| AutoOpsService.Handle | pkg/autoops/command/auto_ops_rule.go:50-76 | one command on the loaded rule does what the command specification says, and fails exactly when it does |
| AutoOpsService.HandleAll | pkg/autoops/api/api.go:411-416 | the command loop stops at the first failure and otherwise applies all commands |
| AutoOpsService.Service.CreateAutoOpsRule | pkg/autoops/api/api.go:113-197 | stores a rule with the given type and clauses, armed, exactly when the id is new, there are clauses and nothing fails; otherwise nothing changes |
| AutoOpsService.Service.UpdateAutoOpsRule | pkg/autoops/api/api.go:355-436 | one step of the request machine; succeeds exactly when the edit is acceptable and nothing fails, and then stores the rule as edited and no other change |
| AutoOpsService.Service.DeleteAutoOpsRule | pkg/autoops/api/api.go:296-343 | marks the rule deleted or changes nothing |
| AutoOpsService.Service.ExecuteAutoOps | pkg/autoops/api/api.go:654-710 | one step of the request machine: fires exactly when the rule is armed and all calls succeed, switching the feature by the rule's type; an already triggered rule does nothing, and a failed commit undoes the trigger mark but not the feature operation |
| EventPersister.Persister.ExtractEvents | pkg/eventpersister/persister/persister.go:297-322 | acks exactly the messages that do not decode and groups the others by environment |
| EventPersister.Persister.MarshalEvents | pkg/eventpersister/persister/persister.go:240-266 | collects the marshalled events and records the failures of the others |
| EventPersister.Persister.WriteAll | pkg/eventpersister/persister/persister.go:238-280 | after all environments, a retryable failure is recorded for a message exactly when its marshalling failed that way or the writer reported it; the writer got the marshalled events of each environment in one call |
| EventPersister.Persister.SettleAll | pkg/eventpersister/persister/persister.go:281-294 | settles every message of the batch by the failures recorded |
| EventPersister.Persister.Send | pkg/eventpersister/persister/persister.go:230-295 | every message of the batch is settled at least once; when ids agree all its settlements are of one kind, Nack exactly when a retryable failure was recorded for it; the writer gets exactly the marshalled events of the batch, in one call for each environment |
| EventPersister.Persister.BatchLoop | pkg/eventpersister/persister/persister.go:188-228 | for every interleaving: each delivery is either settled or held and not both; a batch is sent exactly when one is due; a message is nacked exactly when it was in a sent batch in whose send a retryable failure came up for it, and no message is both acked and nacked; the writer gets exactly the marshalled events of the sent batches |
| Batching.WindowExactly | pkg/eventpersister/persister/persister.go:188-228 | a batch holds exactly the last delivery of each id since the send before |
| Batching.BatchedUnique | pkg/eventpersister/persister/persister.go:188-228 | the signals determine when a worker sends and what it holds |
| Batching.DeliveredFate | pkg/eventpersister/persister/persister.go:188-228 | every delivery with an id gets into a batch, or is held, or its id is delivered again |
| EventPersister.SendOneVerdict | pkg/eventpersister/persister/persister.go:230-295 | a send keeps that no message is both acked and nacked |
| PubSub.AccountHeld | pkg/feature/cacher/cacher.go:172-190 | taking a message into the chunk displaces at most the one with its id and keeps every delivery accounted for |
| PubSub.AccountFlushed | pkg/feature/cacher/cacher.go:186-197 | a flush that settles each message once keeps every delivery accounted for and settles nothing twice |
| Paging.Gather | pkg/account/apikeycacher/apikeycacher.go:375-415 | the paging loop ends and returns the whole listing, for every length |
| FeatureCacher.ListFeatures | pkg/feature/cacher/cacher.go:267-292 | the paging loop ends and returns exactly the features worth caching, in order, for every length |
| FeatureCacher.KeptOne | pkg/feature/cacher/cacher.go:279-284 | one feature is worth caching exactly when it is enabled or has an off variation |
| FeatureCacher.KeptConcat | pkg/feature/cacher/cacher.go:267-292 | the features worth caching of two pages are those of the first and then those of the second |
| FeatureCacher.KeyInjective | pkg/feature/cacher/cacher.go:239-244 | keys of colon-free feature ids tell features and environments apart |
| FeatureCacher.KeysCollideWithColons | pkg/feature/cacher/cacher.go:239-244 | with a colon in a feature id, which the check of feature ids rules out, two environments would share a key |
| FeatureCacher.SkippedIsRewritten | pkg/feature/cacher/cacher.go:202-237 | an event skipped as already handled belongs to an environment that this worker rewrote in this chunk |
| SharedCache.AppliedExactly | pkg/cache/v3/features.go:62-73 | a cache that several writers share holds for each key what was put last by anybody, and otherwise what it held before |
| FeatureCacher.Cacher.Refresh | pkg/feature/cacher/cacher.go:246-265 | puts the environment's kept features as listed at the start, exactly when listing and write succeed, among whatever others put between the two and after |
| FeatureCacher.Cacher.HandleMessage | pkg/feature/cacher/cacher.go:202-237 | settles one message, acking a feature event only after a rewrite or when its key was handled |
| FeatureCacher.Cacher.HandleChunk | pkg/feature/cacher/cacher.go:202-237 | for every iteration order and whatever others put meanwhile: each message settled once, every acked feature event's environment put by this worker during the chunk from a listing made in it, nothing else put by this worker, and a Nack only after a failed listing or write |
| FeatureCacher.Cacher.BatchLoop | pkg/feature/cacher/cacher.go:163-200 | over whole runs among other writers: a chunk is flushed exactly when a flush is due and exactly the messages of the flushed chunks and those without an id are settled; received is handled plus held; every acked feature event's environment was put by this worker from a listing no older than the event's delivery, and every nacked message is a feature event for which a listing or put failed since its delivery |
| FeatureCacher.FlushRewritten | pkg/feature/cacher/cacher.go:202-265 | one more chunk keeps that for all events acked before it and adds it for those acked in it |
| FeatureCacher.NothingNacked | pkg/feature/cacher/cacher.go:202-237 | in particular, while no listing or put fails nothing is nacked |
| FeatureCacher.AckedFreshExactly | pkg/feature/cacher/cacher.go:133-142 | with several workers, and a gateway that also puts what it listed: the cached list of an acked event's environment is no older than the event if and only if the last put for it, whoever made it, was read no earlier than the event |
| FeatureCacher.SingleWriterFresh | pkg/feature/cacher/cacher.go:202-265 | a worker that alone writes the cache leaves every acked event's environment cached from a listing no older than its delivery |
| FeatureCacher.StalePutExample | pkg/feature/cacher/cacher.go:133-142 | two workers whose overlapping handling leaves an acked event's environment cached from an older listing |
| ApiKeyCacher.EntryStaysExactly | pkg/account/apikeycacher/apikeycacher.go:345-373 | an entry is in the cache if and only if the last put for its key, by any writer, is of that entry |
| ApiKeyCacher.AllCachedExactly | pkg/account/apikeycacher/apikeycacher.go:345-373 | entries written with nobody else in between are all in the cache afterwards if and only if no key was written with two values |
| ApiKeyCacher.Cacher.Refresh | pkg/account/apikeycacher/apikeycacher.go:328-343 | caches the key as read now, exactly when the read and the write succeed |
| ApiKeyCacher.Cacher.RefreshAll | pkg/account/apikeycacher/apikeycacher.go:345-361 | caches every listed key of the environment with the given flag, or stops at a failure |
| ApiKeyCacher.Cacher.HandleProjectEvent | pkg/account/apikeycacher/apikeycacher.go:254-289 | acked exactly after every environment of the project was rewritten with the project's flag, or when there is nothing to do |
| ApiKeyCacher.Cacher.HandleEnvironmentEvent | pkg/account/apikeycacher/apikeycacher.go:291-317 | acked exactly after every key of a deleted environment was rewritten as disabled, or when there is nothing to do |
| ApiKeyCacher.Cacher.HandleMessage | pkg/account/apikeycacher/apikeycacher.go:207-252 | settles one message once, with the outcome of its event kind; nacks only after a failure |
| ApiKeyCacher.Cacher.HandleChunk | pkg/account/apikeycacher/apikeycacher.go:207-229 | for every iteration order and whatever others put meanwhile: each message settled once, with a record of what each handling put and when |
| ApiKeyCacher.Cacher.BatchLoop | pkg/account/apikeycacher/apikeycacher.go:168-205 | over whole runs among other writers: a chunk is flushed exactly when a flush is due and exactly the messages of the flushed chunks and those without an id are settled; received is handled plus held, every settled message with an id was handled, and the handlings are all that this worker put |
| ApiKeyRuns.AckedCachesExactly | pkg/account/apikeycacher/apikeycacher.go:254-317 | right after an acked project event or environment deletion whose keys nobody else put meanwhile, every listed key of every affected environment is cached with its namespace and flag, if and only if the listings do not give one key id two keys or two environments |
| ApiKeyRuns.RunCachesExactly | pkg/account/apikeycacher/apikeycacher.go:143-145 | among any other workers and writers, at every later moment of the run those keys are all cached so if and only if the last put of each of them, whoever made it, is of the entry this event wrote |
| ApiKeyRuns.RunCachesByFlag | pkg/account/apikeycacher/apikeycacher.go:143-145 | with stable answers: if and only if the last put of each of them carries this event's flag |
| ApiKeyRuns.SingleWriterCachesExactly | pkg/account/apikeycacher/apikeycacher.go:207-317 | for a worker that alone writes the cache: if and only if for each of them the last message that wrote it carries the same flag |
| ApiKeyRuns.RunCachesUnopposed | pkg/account/apikeycacher/apikeycacher.go:207-317 | in particular in every run in which no later message of the worker, and no put of anybody else since, sets the other flag for one of the environments |
| ApiKeyRuns.KeyEventUndoesDisabling | pkg/account/apikeycacher/apikeycacher.go:231-252 | a chunk in which a project is disabled and then one of its API keys has an event: both are acked and the key ends up cached as enabled |
| ApiKeyRuns.OtherWriterUndoesDisabling | pkg/account/apikeycacher/apikeycacher.go:143-145 | another worker's put between this worker's put and its ack leaves the key of a disabled project cached as enabled although the listings agree |
| ApiKeyCacher.RunChangesOnlyWritten | pkg/account/apikeycacher/apikeycacher.go:345-373 | a key that no handling writes changes only by what others put, and a key that nobody puts does not change |
| AuditLogPersister.Persister.ExtractAuditLogs | pkg/auditlog/persister/persister.go:205-224 | acks exactly the messages that do not decode; log lists and message lists stay aligned index by index |
| AuditLogPersister.Persister.CreateAuditLogs | pkg/auditlog/persister/persister.go:226-247 | stores a group and acks it, or nacks all of it |
| AuditLogPersister.GroupsAreNew | pkg/auditlog/persister/persister.go:195-203 | the undecodable messages and the two groups are a partition of the chunk |
| AuditLogPersister.Persister.FlushChunk | pkg/auditlog/persister/persister.go:195-203 | every message is settled exactly once, acked exactly when it does not decode or its own group was stored |
| AuditLogPersister.Persister.RunWorker | pkg/auditlog/persister/persister.go:156-193 | over whole runs: a chunk is flushed exactly when a flush is due and exactly the messages of the flushed chunks and those without an id are settled; a message is nacked exactly when the store of its own group failed at the flush of its chunk; flush by flush the logs grow by exactly the logs of the stored groups |
| EvaluationStrings.IntTextInjective | pkg/eventpersister/persister/persister.go:384-394 | printed versions determine the version |
| EvaluationStrings.DropLastField | pkg/eventcounter/druid/query.go:188-192 | the extraction pattern drops exactly the last field |
| EvaluationStrings.LastOfThree | pkg/eventcounter/druid/querier.go:53 | the variation pattern reads exactly the last of the remaining fields |
| EvaluationStrings.VariationRoundTrip | pkg/eventpersister/persister/persister.go:384-394 | printing an evaluation, dropping its reason and reading the variation back gives the variation id |
| EvaluationStrings.FilterSelectsExactly | pkg/eventcounter/druid/query.go:68-80 | the query's pattern matches exactly the printed evaluations of its feature and version, and of the reasons that fit the requested one, in which a dot stands for any character; behind a bar, exactly the texts of any feature that contain, or end in, the alternative |
| EvaluationStrings.ReasonSelectedExactly | pkg/eventcounter/druid/query.go:68-80 | the query for a reason selects that reason alone if and only if it contains neither a dot nor a bar |
| EvaluationStrings.CountsAsRequestedExactly | pkg/eventcounter/druid/query.go:53-80 | the query counts under each variation exactly the goal events in which the feature was evaluated to it for the requested reason, if and only if the reason contains neither a dot nor a bar |
| EvaluationStrings.BarSelectsOthers | pkg/eventcounter/druid/query.go:68-80 | with a bar in the reason an evaluation of another feature lets an event through |
| DruidColumns.ConvToEnvSegments | pkg/eventcounter/druid/querier.go:572-586 | prefixes exactly the user data segments, when the environment has a namespace |
| DruidColumns.ConvHeaders | pkg/eventcounter/druid/querier.go:435-449 | one header per column, without the environment prefix of user data |
| DruidColumns.SegmentRoundTrip | pkg/eventcounter/druid/querier.go:560-586 | a segment comes back as its own header if and only if it did not already carry the environment's prefix |
| DruidColumns.PersistedColumnRoundTrip | pkg/eventpersister/persister/persister.go:497-502 | the column the persister writes comes back as user.data.key if and only if there is no namespace or the key has no line feed |
| DruidColumns.SegmentIsPersisted | pkg/eventcounter/druid/querier.go:572-586 | the column asked of Druid for a segment of user data is the one the persister writes, if and only if there is no namespace or no line feed in the key |
| DruidColumns.HeadersComplete | pkg/eventcounter/druid/querier.go:451-458 | with a feature id the headers are the requested segments, the variation column and the value columns |
| DruidColumns.SegmentsFoundExactly | pkg/eventcounter/druid/querier.go:537-544 | all requested segments are found in the headers if and only if none carries the prefix; otherwise the join indexes its first row, if there is one, with -1 |
| DruidJoin.ConvToTable | pkg/eventcounter/druid/querier.go:397-433 | one row per item and one cell per column, with the variation cut out of its column; an error per column that is missing or of unknown type |
| DruidJoin.CellIndex | pkg/eventcounter/druid/querier.go:537-544 | the first column of that name, or -1 exactly when there is none |
| DruidJoin.NewKey | pkg/eventcounter/druid/querier.go:521-535 | the key is the segment values and the variation joined by commas |
| DruidJoin.JoinedInjective | pkg/eventcounter/druid/querier.go:533-535 | comma-free values have distinct keys |
| DruidJoin.CommaCollision | pkg/eventcounter/druid/querier.go:533-535 | with a comma in a value two different tuples share a key |
| DruidJoin.PairsExactly | pkg/eventcounter/druid/querier.go:467-486 | a pair of rows is joined exactly when their labels are equal and no later evaluation row has that label |
| DruidJoin.PairsOrdered | pkg/eventcounter/druid/querier.go:478-508 | the join keeps the order of the goal rows and uses each at most once |
| DruidJoin.LastAgrees | pkg/eventcounter/druid/querier.go:467-472 | for one goal row, the last row with its key is the last row with its values exactly when rows sharing only the key are superseded by one with the values |
| DruidJoin.HashJoinExactly | pkg/eventcounter/druid/querier.go:467-486 | for tables of any size, joining by key is the relational join if and only if the keys are faithful in that sense for every goal row |
| DruidJoin.CommaFreeKeysFaithful | pkg/eventcounter/druid/querier.go:533-535 | comma-free tables have faithful keys |
| DruidJoin.CellsUnderTheirColumns | pkg/eventcounter/druid/querier.go:488-507 | every output row is as long as the joined header and each of its cells sits under its own column name |
| DruidJoin.KeptSplit | pkg/eventcounter/druid/querier.go:488-495 | of excluded columns and others behind them, all the others are kept if and only if none of them is excluded |
| DruidJoin.JoinHeaders | pkg/eventcounter/druid/querier.go:546-558 | evaluation columns, then exactly the goal columns that are neither segments nor the variation, then the conversion rate |
| DruidJoin.CombineRow | pkg/eventcounter/druid/querier.go:488-507 | the evaluation cells, then exactly the goal cells whose columns are neither segments nor the variation, in order, then the conversion rate of the two user counts |
| DruidJoin.ByKey | pkg/eventcounter/druid/querier.go:467-472 | the hash map holds the last evaluation row of every key |
| DruidJoin.ConvToResult | pkg/eventcounter/druid/querier.go:460-510 | the hash join outputs exactly the rows of the join by key, which is the relational join if and only if the keys are faithful |
| DruidQuerier.Columns | pkg/eventcounter/druid/querier.go:435-458 | the columns asked of Druid and their headers |
| DruidQuerier.QueryCount | pkg/eventcounter/druid/querier.go:349-395 | goal counts alone without a feature; otherwise the header is segments, variation, evaluation counts, the five goal counts and the rate, and each row shows under each column what the evaluation item and the goal item of the pair have, numbers as themselves; the pairs are those of the join by key, the relational join if and only if the keys are faithful |
| DruidQuerier.HeaderExactly | pkg/eventcounter/druid/querier.go:546-558 | the header has all of these columns if and only if no segment is named like a goal column |
| DruidQuerier.OutputRowJoins | pkg/eventcounter/druid/querier.go:488-507 | an output row shows the segments, the variation and both evaluation counts of one item, the five goal counts of the other and their rate |
| DruidQuerier.JoinedExactly | pkg/eventcounter/druid/querier.go:467-486 | two items are joined exactly when they have the same text in every segment and the same variation and no later evaluation item has |
| DruidQuerier.OutputRowCvr | pkg/eventcounter/druid/querier.go:499-506 | the last cell of an output row is the conversion rate of the two items' user counts |
| DruidQuerier.LabelEndsInVariation | pkg/eventcounter/druid/querier.go:414-420 | an item whose dimension was cut from a printed evaluation is joined on that evaluation's variation id |
| VariationCounts.UnderMeans | pkg/eventcounter/api/api.go:175-192 | a field holds the value under the last column of its names |
| VariationCounts.FilledTwice | pkg/eventcounter/api/api.go:170-195 | a later row of a variation leaves nothing of an earlier one |
| VariationCounts.VariationIdx | pkg/eventcounter/api/api.go:204-211 | the first variation column, or an error exactly when there is none |
| VariationCounts.Fill | pkg/eventcounter/api/api.go:175-192 | the column loop fills the record of one row |
| VariationCounts.ConvToVariationCounts | pkg/eventcounter/api/api.go:155-202 | exactly one record per distinct requested id, strictly sorted by id; each field of a record is the cell of the variation's last row under that field's own column, or zero; an error exactly without a variation column |
| VariationCounts.LessExactly | pkg/eventcounter/api/api.go:200 | the order of the ids is the order of strings |
| VariationCounts.ResultUnique | pkg/eventcounter/api/api.go:196-201 | only one list meets that description, whatever order the map is ranged over |
| Environments.NamespaceOfId | pkg/environment/domain/environment.go:28-42 | an accepted environment id has a namespace over lower-case letters and digits; it is the administrator's exactly for an id of dashes only |
| CacheKeys.KeyInjective | pkg/cache/cache.go:67-72 | no two entries of the four kinds in the shared store have the same key, whatever their ids |
| CacheKeys.PrefixExactly | pkg/cache/cache.go:74-79 | a key starts with an environment's prefix exactly when it is a segment of that environment, also for the empty namespace |
| CacheKeys.UnderscoreNamespaceLeaks | pkg/cache/cache.go:74-79 | a namespace with an underscore, which the check of environment ids rules out, would be found under the administrator's prefix |
| SegmentUsersCache.WriteRefines | pkg/cache/v3/segment_users.go:87-94 | a write to the flat store changes its own entry and no other |
| SegmentUsersCache.RunRefines | pkg/cache/v3/segment_users.go:87-94 | after every sequence of writes of all kinds the flat store is the map of their entries |
| SegmentUsersCache.Scan | pkg/cache/v3/segment_users.go:96-117 | the scan loop ends and returns exactly the keys with the environment's prefix, or an error exactly when a call fails |
| SegmentUsersCache.Cache.Put | pkg/cache/v3/segment_users.go:87-94 | sets the entry of its environment and segment, or changes nothing |
| SegmentUsersCache.Cache.PutOther | pkg/cache/v3/features.go:62-73 | the other caches on the same store never change a segment entry |
| SegmentUsersCache.Cache.Get | pkg/cache/v3/segment_users.go:44-60 | the users put last for that environment and segment |
| SegmentUsersCache.Cache.GetMulti | pkg/redis/v3/redis.go:250-276 | the values of all keys in order, or an error when one is missing |
| SegmentUsersCache.Cache.GetAll | pkg/cache/v3/segment_users.go:62-85 | exactly the segments put for the environment, also for the empty namespace |
| ExperimentRuns.RunProgresses | pkg/experiment/domain/experiment.go:92-128 | every successful start, finish or stop raises the rank, so a run has at most three; stopped flag, stop time and status always agree; the period stays in order |
| ExperimentRuns.RankRises | pkg/experiment/domain/experiment.go:92-128 | one step of the same |
| ExperimentRuns.StatusExactly | pkg/experiment/domain/experiment.go:92-173 | after every run of a new experiment: stopped by force if and only if a stop was committed, otherwise stopped if and only if a finish was committed no earlier than the end of the period at the time, otherwise running if and only if a start was committed no earlier than its start, otherwise waiting; the period is the one the changes left |
| ExperimentRuns.FlagsExactly | pkg/experiment/domain/experiment.go:118-207 | a forced stop keeps the moment of the first committed stop; archived and deleted if and only if such a command was committed |
| ExperimentRuns.TextsExactly | pkg/experiment/domain/experiment.go:175-185 | name and description are those of the last committed change |
| ExperimentRuns.NotFinishedExactly | pkg/experiment/domain/experiment.go:224-236 | after every run of a new experiment it blocks edits of its feature if and only if no stop and no deletion was committed and the end of its period lies ahead |
| ExperimentRuns.StopIsFinal | pkg/experiment/domain/experiment.go:118-128 | after a stop the experiment is never unfinished again, whatever commands follow |
| ExperimentRuns.DeletedIsFinal | pkg/experiment/domain/experiment.go:203-207 | neither after a deletion |
| ExperimentRuns.FinishedExactly | pkg/experiment/domain/experiment.go:105-195 | whatever commands follow a finish, the experiment is unfinished at a later moment if and only if no stop and no deletion was committed and the last successful change of the stop time put it after that moment |
| ExperimentRuns.StopAtAfter | pkg/experiment/domain/experiment.go:130-173 | after any commands the stop time is that of the last successful change |
| ExperimentRuns.EndsExactly | pkg/experiment/domain/experiment.go:118-207 | after any commands an experiment is stopped or deleted if and only if a command to that effect was committed |
| ExperimentRuns.FinishHolds | pkg/experiment/domain/experiment.go:105-116 | after a finish it stays finished while no command changes the stop time |
| ExperimentRuns.FinishIsNotFinal | pkg/experiment/domain/experiment.go:166-173 | a finished experiment with a later stop time counts as unfinished again until that time, with status stopped |
| ExperimentRuns.CommentAgreesExactly | pkg/experiment/domain/experiment.go:224-236 | along every run of a new experiment, exactly when IsNotFinished agrees with its comment about the status |
| ExperimentRuns.PeriodOrderedExactly | pkg/experiment/api/experiment.go:302-308 | an accepted creation period is in order exactly when start plus wrapped length is within int64 |
| ExperimentRuns.WrappedPeriodAccepted | pkg/experiment/api/experiment.go:302-308 | the check accepts a period that ends before it starts when the difference wraps around |
| ExperimentDomain.FirstOccurrencesDistinct | pkg/experiment/domain/experiment.go:80-90 | goal ids without repetitions, in order of first occurrence, unchanged when already distinct |
| ExperimentDomain.RemoveDuplicated | pkg/experiment/domain/experiment.go:80-90 | the loop computes exactly the first occurrences |
| ExperimentDomain.Experiment.constructor | pkg/experiment/domain/experiment.go:41-78 | a new experiment waits, is not stopped, and has distinct goal ids |
| ExperimentDomain.Experiment.StartExperiment | pkg/experiment/domain/experiment.go:92-103 | does exactly what the state machine says, or nothing |
| ExperimentDomain.Experiment.FinishExperiment | pkg/experiment/domain/experiment.go:105-116 | likewise |
| ExperimentDomain.Experiment.StopExperiment | pkg/experiment/domain/experiment.go:118-128 | likewise |
| ExperimentDomain.Experiment.ChangeExperimentPeriod | pkg/experiment/domain/experiment.go:130-148 | likewise |
| ExperimentDomain.Experiment.ChangeExperimentStartAt | pkg/experiment/domain/experiment.go:150-164 | likewise |
| ExperimentDomain.Experiment.ChangeExperimentStopAt | pkg/experiment/domain/experiment.go:166-195 | likewise, checked against the start and the clock |
| ExperimentDomain.Experiment.NotFinished | pkg/experiment/domain/experiment.go:224-236 | not deleted, before the stop time and before the stopped time |
| ExperimentDomain.Experiment.Handle | pkg/experiment/command/experiment.go:50-73 | every command does all of its change or nothing |
| ExperimentDomain.ContainsRunningExperiment | pkg/feature/api/feature.go:686-695 | true exactly when some experiment is unfinished now |
| LastUsedInfos.InfoIdInjective | pkg/feature/domain/feature_last_used_info.go:115-117 | info ids determine feature id and version |
| LastUsedInfos.LatestIsLastUsed | pkg/feature/api/feature.go:1478-1485 | with distinct feature ids, matching by id alone finds the info of the feature's own version |
| LastUsedInfos.LastUsedExactly | pkg/feature/api/feature.go:1457-1487 | the info found is the stored one of this very feature and version, and without one nothing changes |
| LastUsedInfos.GetFeatureLastUsedInfos | pkg/feature/storage/v2/feature_last_used_info.go:48-105 | exactly the stored rows with these ids, in any order |
| LastUsedInfos.SetLastUsedInfosToFeature | pkg/feature/api/feature.go:1457-1487 | every feature of a chunk gets the info of its own version or keeps what it had |
| LastUsedInfos.SetLastUsedInfosToFeatureByChunk | pkg/feature/api/feature.go:1440-1455 | chunks of a thousand set the same infos as one pass; on a failure exactly the chunks before it are filled |

## Left out

- UnarchiveFeature, DeleteFeature and archive commands sent through the targeting endpoint: they do not
  check prerequisites again, so the graph invariant is not claimed across them.
- Isolation of the database below whole rows: a transaction reads one committed state (archiving two) and
  writes its row at once; the classes of FeatureService run one request at a time.
- Targeting rules, strategies and variation types: their checks appear as flags of a command (`valid`,
  `handled`, `inUse`, `typeMatches`).
- FeatureModel.Feature.AddVariation: the check of the value against the variation type is an input, and
  the targets, rules and strategies that get an entry for the variation are not modelled.
- FeatureModel.Feature.RemoveVariation: whether the variation is in use by rules, strategies or as the off
  variation is an input, and the targets that lose their entry are not modelled.
- FeatureService.ValidateFeatureTargetingCommand: the checks of rules, strategies and clauses are one
  input per command.
- FeatureService.Service.CreateFeature: the validation of the creation command and the storage are one
  input.
- AutoOpsService.Service.CreateAutoOpsRule: the request checks of types, goals and clause contents, which
  only refuse requests, are not modelled.
- AutoOpsService.Service.UpdateAutoOpsRule: likewise, with the check that a goal exists.
- Version counters, update times of features, published feature events: an error while publishing after
  the commit is reported to the caller although the rows have changed; the model's result is that of the
  transaction.
- That feature ids are distinct within an environment is the primary key of the storage, and enters as
  such.
- AutoOpsRequests.RunKeepsClauses: assumes that UUIDs drawn for new clauses are fresh, also among the ids
  the request itself names.
- The webhook path of auto-ops: one rule's error rolls back all rules after remote calls were made.
- Clauses of a rule are pointers in the source; the model keeps their values in the backing array, which
  no other object refers to.
- EventPersister.Persister.Send: claims settlement and the calls of the writer. A write error is logged and
  not recorded, so an Ack does not imply that an event was written.
- The Postgres path, evaluation lookups and JSON of the event persister: marshalling is a function of the
  services.
- A listing read page by page is one answer of the service at one moment; changes between its pages are not
  modelled.
- FeatureCacher.AckedFreshExactly: other writers put what the service listed at some moment, as the other
  workers and the gateway do; `FreshExactly` is without that assumption.
- ApiKeyRuns.RunCachesByFlag: other writers put keys that the services answered, with any flag.
- Messages displaced by a later delivery with the same id are not settled by the cachers and the audit
  log worker; they are accounted for as displaced.
- Druid's own filtering and aggregation; the model starts from its result items and from the regular
  expression semantics of its pattern language.
- EvaluationStrings.FilterSelectsExactly: for reasons of letters, digits, `_`, `-`, dots and bars; other
  regular expression syntax in a requested reason, or any in a requested feature id, which are not
  validated either, is not modelled.
- EvaluationStrings.ReasonSelectedExactly: for the same reasons.
- EvaluationStrings.CountsAsRequestedExactly: for the same reasons, and for events with at most one
  evaluation of each feature.
- Regular expressions beyond literals, the dot, `.*`, anchors and alternatives, and Go slices that share
  spare capacity in `generateColumns` and `convToResult`, whose overwritten tails are not read again.
- Floating-point rounding: counts and rates are real numbers. Conversion of values beyond int64.
- SegmentUsersCache.Cache.GetAll: Redis's reply to a request for no keys is an input (`emptyFails`), and
  glob characters do not occur in the prefixes.
- Experiment results, goals, tags, user lists, authentication, metrics, logging and localisation.
