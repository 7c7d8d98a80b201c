# A model of KubeStellar's placement logic, in Dafny

KubeStellar spreads workload objects over edge clusters. EdgePlacement objects say *what* goes
*where*; the where resolver turns "where" into lists of destinations; the placement translator joins
"what" with "where", keeps tables of what goes to each destination, and writes SyncerConfig objects
that tell the syncers; JSONPath expressions say how objects are changed on their way. This project
models that logic and proves what it is for.

* **The placement pipeline** (`Changes`, `FactoredMap`, `IndexedSet`, `HashMap`, `Joins`,
  `Differencers`, `PlacementTypes`, `WorkloadProjector`, `BindingOrganizer`, `PlacementHistory`,
  `SetBinder`, `Query`, `Pipeline`, `SyncerConfig`, `EndToEnd`). An incremental engine: differencers
  feed dynamic joins, which feed groupings, projections and doubly indexed tables. Every stage is a
  class with its representation invariant, proved against a flat map or relation. The stages are then
  assembled, and after every run of events the tables answer the relational query that the source documents,
  evaluated from scratch over the latest word on each EdgePlacement (`Pipeline.Assemble`); two runs
  with the same latest words end with the same namespaced tables and upsyncs, in whatever order the
  events came, but for the choice among versions that EdgePlacements do not agree on
  (`Pipeline.OrderDoesNotMatter`). The spec that is written for a destination says exactly what is
  called for there (`Pipeline.SyncerConfigFor`), which `EndToEnd.ConfigAfter` says field by field,
  from the events to the entries of the spec.
  For cluster-scoped objects the query can fail: deleting a tuple about a namespaced object also
  deletes the entry of a cluster-scoped object of the same resource and name. The tables are
  described exactly all the same. After any run, an entry is missing just when the latest "what" of
  its EdgePlacement dropped a namespaced twin while the destination was there, and the destination
  has been there ever since (`PlacementHistory.Missing`); the tables are what is called for less what
  is missing, and the query is answered if and only if another EdgePlacement makes up for each loss.
* **The where resolver** (`WhereResolver`). Two reverse indices guide the editing of each
  SinglePlacementSlice, which should list, without repeats, the pairs reached by two hops. One filter
  compares spaces and another does not, so a SyncTarget can bring pairs in that are not called for,
  or are there already. The slices and the indices are described exactly all the same. After any run,
  a slice has what is called for and those extra pairs that no event has cleared since they came in
  (`WhereResolver.Extra`), and it is right if and only if there are none of the latter.
* **JSONPath** (`JsonPath`, `JsonPathPrinter`, `JsonPathGrammar`, `JsonPathReader`, `JsonTokens`,
  `JsonEval`, `JsonPlaces`, `JsonInsertion`, `JsonNewPlaces`, `JsonCompletion`, `JsonDescent`,
  `JsonEvaluator`, `JsonAddresses`). The lexer and the parser as they move over the text, which accept
  exactly what a separate grammar derives; a canonical printer that the parser inverts; the evaluator
  with its termination measure, and the exact condition on path and data on which all its striding
  loops get to an end without leaving their slice, in 64 bits; and an exact account of what applying
  a constant does, in terms of separate definitions of selection, insertion and replacement. What
  names, numbers, ranges and insertion are is said once more in terms of characters and fields.
* **Three small state machines** (`SyncConfigManager`, `DefinitionTracking`, `SpaceIds`) with
  invariants over every run.

The stages of the program are connected by callbacks that run synchronously and in order. Here a
stage returns the changes that it emits as a sequence, and the next stage consumes that sequence.
Where the program ranges over a Go map, the model takes an arbitrary order (`Changes.VisitOrder`),
so every result holds for all orders. Locks make each transaction or reconciliation one step.

Where a `hide` statement appears in a proof, it only keeps definitions out of the verifier's way.

## Model

| member | source | states |
|---|---|---|
| `FactoredMaps.RunRefinesFlatMap` | pkg/placement/map-factored.go:134-197 | for any bijective factorer and any run of puts and deletes, the two-level map stands for the flat map of the same run and has no empty inner map |
| `FactoredMaps.Run3RefinesFlatMap` | pkg/placement/map-factored.go:257-284 | the same for three levels: every inner factored map stands for the flat inner map, nothing is empty at any level |
| `FactoredMaps.RepresentationIsUnique` | pkg/placement/map-factored.go:88-96 | two nested maps without empty inner maps are equal exactly when the flat maps they stand for are |
| `FactoredMaps.FactoredMap.Put` | pkg/placement/map-factored.go:134-172 | the flat contents gain the mapping; the create or update notice is true to the old contents and replays to the new ones, and so does the notice about the group |
| `FactoredMaps.FactoredMap.Delete` | pkg/placement/map-factored.go:174-197 | the flat contents lose the mapping, an inner map that becomes empty goes; a notice appears exactly when something was there, true to the old contents and replaying to the new ones |
| `FactoredMaps.FactoredMap.Run` | pkg/placement/map-factored.go:134-197 | over any calls, every notice of the unified observer is true to what the notices before it lead to, and replaying them all gives the contents; so do the notices about the groups |
| `FactoredMaps.FactoredMap.Get` | pkg/placement/map-factored.go:124-132 | the value that the flat contents have for the whole key, if any |
| `FactoredMaps.FactoredMap.Visit` | pkg/placement/map-factored.go:114-122 | each entry of the flat contents comes exactly once, in whatever order |
| `FactoredMaps.FactoredMap.Len` | pkg/placement/map-factored.go:105-112 | the sum of the inner lengths is the size of the flat contents |
| `FactoredMaps.FactoredMap.IsEmpty` | pkg/placement/map-factored.go:98-100 | empty exactly when the flat contents are |
| `IndexedSets.RunProjects` | pkg/placement/set-project.go:57-74 | for any run of additions and removals, what the downstream hears is true to its state and builds exactly the projection of the upstream set |
| `IndexedSets.KeysAreProjection` | pkg/placement/set-indexed.go:71-81 | with no empty bucket, the keys of the index are the projection of the set |
| `IndexedSets.IndexedSet.Add` | pkg/placement/set-indexed.go:117-126 | the set gains the tuple; the result tells if it is new; the key is announced only with its first tuple |
| `IndexedSets.IndexedSet.Remove` | pkg/placement/set-indexed.go:128-142 | the set loses the tuple; the key is withdrawn only with its last tuple, and its bucket goes |
| `IndexedSets.IndexedSet.Has` | pkg/placement/set-indexed.go:98-106 | membership in the set |
| `IndexedSets.IndexedSet.Visit1to2` | pkg/placement/set-indexed.go:171-178 | the second parts that go with a key, each once |
| `HashMaps.RunRefinesMap` | pkg/placement/map-hash.go:66-93 | for a lawful domain and any run, a lookup gives the value of the latest put of an equal key that no delete of an equal key followed |
| `HashMaps.PutMeans` | pkg/placement/map-hash.go:66-80 | a put changes the value of the keys equal to its key, and of no others |
| `HashMaps.DeleteMeans` | pkg/placement/map-hash.go:82-93 | a delete takes away the keys equal to its key, and no others |
| `HashMaps.HashMap.Seek` | pkg/placement/map-hash.go:95-104 | the bucket by hash modulo eight, and the position of the equal key in it or its length |
| `HashMaps.HashMap.Get` | pkg/placement/map-hash.go:57-64 | the value of the equal key, if any |
| `HashMaps.HashMap.Put` | pkg/placement/map-hash.go:66-80 | lookups of keys equal to this one now give the value, lookups of others are as before; the event is a creation, or an update with the old value |
| `HashMaps.HashMap.Delete` | pkg/placement/map-hash.go:82-93 | lookups of keys equal to this one now give nothing, lookups of others are as before; an event appears exactly when there was a value, and carries it |
| `HashMaps.HashMap.Visit` | pkg/placement/map-hash.go:106-115 | no two visited keys are equal, and the visited entries are the contents |
| `HashMaps.HashMap.Len` | pkg/placement/map-hash.go:49-55 | the number of keys, equal ones counted once: the length of every list of pairwise different keys that has an equal for each key with a value, and there is such a list |
| `HashMaps.RunIsMap` | pkg/placement/map-hash.go:66-93 | where the equality of the domain is identity, any run leaves the lookups of an ordinary map that had the same run |
| `HashMaps.PairsAreLawful` | pkg/placement/hash-domain.go:44-51 | pairs of lawful domains form a lawful domain: equality is an equivalence and equal values hash alike |
| `HashMaps.TriplesAreLawful` | pkg/placement/hash-domain.go:53-62 | the same for triples |
| `HashMaps.TransformsAreLawful` | pkg/placement/hash-domain.go:64-82 | the same for transformed values |
| `HashMaps.SlicesAreLawful` | pkg/placement/hash-domain.go:84-109 | the same for slices |
| `HashMaps.SliceEqualLoop` | pkg/placement/hash-domain.go:90-100 | the loop tells whether slices have the same length and pairwise equal elements |
| `HashMaps.SliceHashLoop` | pkg/placement/hash-domain.go:102-109 | the loop computes the hash of a slice in 64 bits |
| `PlacementTypes.DomainsAreExact` | pkg/placement/hash-domain.go:111-174 | the domains of strings, names, upsync sets and destinations compare all fields, so their equality is equality |
| `PlacementTypes.UpsyncTableIsMap` | pkg/placement/binding-organizer.go:159-163 | so the hash map behind the upsync projection has, after any run, the lookups of an ordinary map |
| `PlacementTypes.FactorersAreBijective` | pkg/placement/workload-projector.go:1530-1600 | the factorers of distribution tuples, mode keys, full keys and upsync tuples are bijections |
| `Joins.RunJoins` | pkg/placement/join-dynamic-12vwith13.go:30-91 | over every interleaving of changes to both inputs the receiver holds exactly the joined tuples with their current values |
| `Joins.JoinIsUnique` | pkg/placement/join-dynamic-12vwith13.go:22-29 | the inputs determine the join |
| `Joins.DynamicJoin12VWith13.PutLeft` | pkg/placement/join-dynamic-12vwith13.go:76-84 | a put to the left reaches every right partner, new or updated, and keeps the join |
| `Joins.DynamicJoin12VWith13.DeleteLeft` | pkg/placement/join-dynamic-12vwith13.go:86-91 | a delete from the left is passed on for every right partner, and keeps the join |
| `Joins.DynamicJoin12VWith13.AddRight` | pkg/placement/join-dynamic-12vwith13.go:55-61 | a new right pair is joined with every left entry, an old one emits nothing |
| `Joins.DynamicJoin12VWith13.RemoveRight` | pkg/placement/join-dynamic-12vwith13.go:63-69 | a removed right pair takes its tuples along |
| `Joins.DynamicJoin12VWith13.Apply` | pkg/placement/join-dynamic-12vwith13.go:43-48 | any one input change: the emitted stream turns the old join into the new one |
| `Joins.Relation2Equijoin12with13` | pkg/placement/join-static.go:19-29 | the static join: (y, z) is in it exactly when some x goes with both |
| `Joins.DynamicFullJoin12with13.ChangeLeft` | pkg/placement/join-dynamic-12with13.go:73-92 | the triples emitted for a left change are strictly new or strictly present, and the full join is kept |
| `Joins.DynamicFullJoin12with13.ChangeRight` | pkg/placement/join-dynamic-12with13.go:94-104 | the same for a right change, with the columns swapped back |
| `Joins.DynamicJoin12with13.ChangeLeft` | pkg/placement/join-dynamic-12with13.go:30-37 | after a left change the receiver still holds the equijoin with the shared column projected out |
| `Joins.DynamicJoin12with13.ChangeRight` | pkg/placement/join-dynamic-12with13.go:30-37 | the same after a right change |
| `Joins.DynamicJoin12with13.HoldsEquijoin` | pkg/placement/join-static.go:19-29 | what the dynamic join leaves at its receiver is the static equijoin of the current inputs |
| `Differencers.MapUpdateToMatch` | pkg/placement/map-set-differencer.go:134-145 | the puts are all mappings of the target, the deletes exactly what is not in it, and together they turn the one map into the other |
| `Differencers.SetUpdateToMatch` | pkg/placement/map-set-differencer.go:118-132 | additions are exactly what is in some slice of the target and not there yet, removals exactly what is there and in no slice, each once, repeats in the target notwithstanding |
| `Differencers.SliceDifference` | pkg/placement/slice-differencer.go:29-41 | the changes, applied to the elements of the old slice, give the elements of the new one |
| `WorkloadProjector.RecordIndex3.Put` | pkg/placement/workload-projector.go:109-136 | the index by source gains the tuple: the record of the source is nested by resource and by object, an inner map appears with its first entry, none is empty, and the index leads to a record exactly while it is not empty |
| `WorkloadProjector.RecordIndex2.Put` | pkg/placement/workload-projector.go:137-160 | the same for the index by destination, whose records are nested by pairs of resource and object |
| `WorkloadProjector.RecordIndex3.Delete` | pkg/placement/workload-projector.go:109-136 | it loses the tuple, and every inner map that becomes empty goes; an emptied record stays but is no longer led to |
| `WorkloadProjector.RecordIndex2.Delete` | pkg/placement/workload-projector.go:137-160 | the same for the index by destination |
| `WorkloadProjector.ScopeTables.PutDistribution` | pkg/placement/workload-projector.go:1280-1289 | both distribution indices gain the tuple and go on standing for the same tuples |
| `WorkloadProjector.ScopeTables.DeleteDistribution` | pkg/placement/workload-projector.go:1280-1289 | both lose it |
| `WorkloadProjector.ScopeTables.PutMode` | pkg/placement/workload-projector.go:1290-1297 | both mode indices gain the version |
| `WorkloadProjector.ScopeTables.DeleteMode` | pkg/placement/workload-projector.go:1290-1297 | both lose it |
| `WorkloadProjector.ScopeTables.ModesByResource` | pkg/placement/workload-projector.go:1317-1340 | looking a resource up in the modes by resource: it is there exactly when some destination has a mode for it, and then with exactly those destinations and their versions |
| `WorkloadProjector.ScopeTables.UpThenDownLookup` | pkg/placement/workload-projector.go:784-805 | going level by level, a tuple is in the record of its destination exactly when it is in the record of its source, with the same bits, and both indices lead there: the lookups logged as impossible succeed |
| `WorkloadProjector.ScopeTables.SourcesFor` | pkg/placement/workload-projector.go:761-768 | the record of a destination gives, for an object, exactly the sources that want it there, with their bits |
| `WorkloadProjector.ScopeTables.DestinationsFor` | pkg/placement/workload-projector.go:784-805 | the record of a source gives, for an object, exactly its destinations with their bits; there are none to be had just when there is no such tuple |
| `BindingOrganizer.DetailsSansEP` | pkg/placement/binding-organizer.go:168-180 | in any visiting order: the bits are the disjunctions over the group, the version is one of the group's; nothing for an empty group |
| `BindingOrganizer.PickThe1` | pkg/placement/binding-organizer.go:291-305 | in any visiting order: a version that the group has, and whether it is the only one |
| `BindingOrganizer.Scope.Put` | pkg/placement/binding-organizer.go:60-148 | a new full tuple keeps distributions equal to the groups' bits and modes equal to picked versions |
| `BindingOrganizer.Scope.Delete` | pkg/placement/binding-organizer.go:60-148 | so does a deleted one |
| `BindingOrganizer.Scope.OnGroup` | pkg/placement/binding-organizer.go:75-91 | a changed group is summarized and passed on to the distributions and to the version groups |
| `BindingOrganizer.Scope.OnVersions` | pkg/placement/map-factored-aggregate.go:21-38 | a changed version group leads to a picked version, or to none when it is gone |
| `BindingOrganizer.Scope.ModesAlwaysMatch` | pkg/placement/workload-projector.go:961-965 | in every state, after losses too: a resource has a version for a destination exactly when some object of it is distributed there, and the version is one that a full tuple of that resource and destination has |
| `BindingOrganizer.Scope.AgreedVersion` | pkg/placement/binding-organizer.go:291-305 | where all those tuples have the same version, it is that one |
| `BindingOrganizer.Scope.VersionForProj` | pkg/placement/workload-projector.go:1317-1345 | the lookup whose failure is logged never fails for a resource that is distributed, and the version picked is one that some full tuple of the resource has |
| `BindingOrganizer.Organizer.Put` | pkg/placement/binding-organizer.go:381-397 | a tuple of a resource that goes to the mailbox enters the table of its scope, others enter none |
| `BindingOrganizer.Organizer.Delete` | pkg/placement/binding-organizer.go:399-422 | it leaves the table of its scope; the cluster-scoped table loses the key in any case |
| `BindingOrganizer.Organizer.ChangeUpsync` | pkg/placement/binding-organizer.go:368-375 | the upsync relation stays the projection of the full upsync tuples |
| `SetBinder.SetBinder.constructor` | pkg/placement/set-binder-assembly.go:65-122 | the assembled pipeline starts out empty, valid and with nothing lost |
| `SetBinder.SetBinder.ReceiveDownsync` | pkg/placement/set-binder-assembly.go:212-220 | from any state: the join input for one EdgePlacement becomes what is now called for, and exactly these cluster-scoped entries of it are lost after that: those with a namespaced twin that was dropped, at destinations that are there; all other entries called for are put again |
| `SetBinder.SetBinder.ReceiveUpsync` | pkg/placement/set-binder-assembly.go:221-227 | the upsync input for one EdgePlacement becomes the new whole |
| `SetBinder.SetBinder.ReceiveWhere` | pkg/placement/set-binder-assembly.go:228-231 | from any state: both joins get the new destinations of one EdgePlacement; an entry stays lost exactly while its destination stays |
| `SetBinder.SetBinder.WhatPut` | pkg/placement/set-binder-assembly.go:126-139 | from any state: the latest "what" is recorded, what is lost is as said, and all entries that the EdgePlacement wants are present if and only if the new "what" does not collide |
| `SetBinder.SetBinder.WhatDelete` | pkg/placement/set-binder-assembly.go:141-158 | the "what" becomes empty, an unknown cluster is ignored, what is lost is as said |
| `SetBinder.SetBinder.WherePut` | pkg/placement/set-binder-assembly.go:162-174 | the latest "where" is recorded, what is lost is as said |
| `SetBinder.SetBinder.WhereDelete` | pkg/placement/set-binder-assembly.go:176-192 | the "where" becomes empty, an unknown cluster is ignored, what is lost is as said |
| `SetBinder.SetBinder.Handle` | pkg/placement/set-binder-assembly.go:124-192 | any one event, from any state: what is lost after it, key by key; and if nothing wanted was lost before, nothing is after it exactly when the event is not harmful |
| `SetBinder.SetBinder.Run` | pkg/placement/set-binder-assembly.go:124-192 | any run, from any state: what is lost at its end is exactly what the events make of what was lost before; nothing, if none was harmful |
| `PlacementHistory.OnlyTheLatestCounts` | pkg/placement/set-binder-assembly.go:194-235 | what is recorded for an EdgePlacement is the latest word on its "what" and on its "where", however the events were interleaved |
| `PlacementHistory.LatestWhatIs` | pkg/placement/set-binder-assembly.go:124-160 | the latest word on a "what" is what the last event on it put, or nothing if that was a deletion or there was none |
| `PlacementHistory.LatestWhereIs` | pkg/placement/set-binder-assembly.go:160-192 | the latest word on a "where" is all destinations of all slices that the last event on it put, or nothing |
| `PlacementHistory.CollisionDecides` | pkg/placement/binding-organizer.go:399-422 | from any state: after a new "what" all that its EdgePlacement wants of the cluster-scoped table is present if and only if the event is not harmful |
| `PlacementHistory.HarmDecides` | pkg/placement/binding-organizer.go:399-422 | where nothing wanted is lost, an event keeps it so exactly when it is not harmful |
| `PlacementHistory.MissingIsMissingFrom` | pkg/placement/binding-organizer.go:399-422 | what the events lose step by step, from nothing, is what the history says is missing: a namespaced twin dropped by the latest "what", and the destination there then and ever since |
| `PlacementHistory.OneScopeIsHarmless` | pkg/placement/binding-organizer.go:381-422 | a run in which each resource is either always namespaced or never is harmless |
| `Pipeline.NamespacedTablesAnswer` | pkg/placement/binding-organizer.go:190-252 | the distributions and modes of namespaced objects answer the documented query, in every reachable state |
| `Pipeline.ClusterScopedTablesAnswer` | pkg/placement/binding-organizer.go:190-252 | in every reachable state: those of cluster-scoped objects are what is called for less what is lost; they answer the query if and only if each loss is made up for, by the same bits for the distributions and by another object of the resource for the modes |
| `Query.ClusterScopedFullIs` | pkg/placement/binding-organizer.go:325-347 | the full cluster-scoped table is the join less what is lost |
| `Query.WholeTable` | pkg/placement/binding-organizer.go:325-347 | the full table has all that is wanted exactly when nothing wanted is lost |
| `Query.LossMatters` | pkg/placement/binding-organizer.go:168-180 | distributions made without some of the calls answer the query if and only if for each tuple the remaining calls have the same bits, and there is one |
| `Query.LossMattersForModes` | pkg/placement/binding-organizer.go:291-305 | modes made without some of the calls answer the query if and only if each resource and destination with a call has a remaining one |
| `Pipeline.UpsyncsAnswer` | pkg/placement/binding-organizer.go:150-165 | the upsync relation is the projection of what EdgePlacements call for |
| `Query.DistributionsAreDetermined` | pkg/placement/binding-organizer.go:190-252 | the same latest words and the same losses among the calls determine the distributions |
| `Query.ModesAreDetermined` | pkg/placement/binding-organizer.go:291-305 | the same latest words and the same losses determine which resources have a version where, and the version too wherever the remaining calls agree on one |
| `Query.UpsyncsAreDetermined` | pkg/placement/binding-organizer.go:190-252 | the same latest words determine the upsyncs |
| `Pipeline.ModesAlwaysMatch` | pkg/placement/workload-projector.go:961-965 | in both scopes of every reachable pipeline, modes and distributions are about the same resources and destinations, in versions that are contributed |
| `Pipeline.Assemble` | pkg/placement/set-binder-assembly.go:65-122 | from nothing, after any run of events: namespaced tables and upsyncs answer the query over the latest words; a cluster-scoped entry is present exactly when it is wanted and not missing, the tables are what is called for less what is missing, and they answer the query if and only if that is made up for; so they do if no event was harmful |
| `Pipeline.OrderDoesNotMatter` | pkg/placement/set-binder-assembly.go:124-192 | two runs with the same latest words on every EdgePlacement end with equal namespaced distributions, equal upsyncs, and namespaced modes for the same resources and destinations, with equal versions where the calls agree; the cluster-scoped distributions and modes are alike in the same way if the same wanted entries are missing |
| `Pipeline.LosesAnObject` | pkg/placement/binding-organizer.go:399-422 | a run of three events after which a cluster-scoped object that is called for is not distributed, and its resource has no version |
| `Pipeline.LosingRunMisses` | pkg/placement/binding-organizer.go:399-422 | in that run the history says that the entry is missing |
| `Pipeline.RepeatBringsBack` | pkg/placement/map-set-differencer.go:134-145 | with its last event repeated the run is still not harmless, and yet the tables answer the query |
| `Pipeline.OnlyTheLastIsHarmful` | pkg/placement/binding-organizer.go:399-422 | in the run of three events exactly the last one meets the condition for harm |
| `Pipeline.SyncerConfigFor` | pkg/placement/workload-projector.go:1610-1706 | in every reachable state: the spec written for a destination lists exactly the namespaced objects called for there that go to the edge, each resource in a version called for, exactly the upsyncs called for, and of the cluster-scoped objects those with a call that is not lost |
| `EndToEnd.ConfigAfter` | pkg/placement/workload-projector.go:1610-1706 | from nothing, after any run of events, field by field: the spec for a destination lists a namespace and a name under a resource if and only if the resource goes to the mailbox and the edge and the latest words on some EdgePlacement have that object and that destination; likewise a cluster-scoped object, if moreover that entry has not gone missing; likewise the upsyncs; every version listed is that of such an object; nothing is listed twice |
| `EndToEnd.TablesAfter` | pkg/placement/binding-organizer.go:190-252 | from nothing, after any run of events: an object is distributed from a source to a destination if and only if its resource goes to the mailbox and the latest words on some EdgePlacement of that source have the object and the destination (and, for a cluster-scoped one, the entry has not gone missing), and each bit is set if and only if some such EdgePlacement sets it |
| `EndToEnd.SaysNamespaced` | pkg/placement/workload-projector.go:1682-1694 | the entries of a spec, read by their fields, are what its decoding has |
| `EndToEnd.SaysClusterScoped` | pkg/placement/workload-projector.go:1695-1702 | the same for cluster-scoped entries |
| `SyncerConfig.WantedFor` | pkg/placement/workload-projector.go:1610-1678 | grouped by resource, exactly the objects distributed to the destination that go to the edge, with the version of the modes table |
| `SyncerConfig.Grouped` | pkg/placement/workload-projector.go:1626-1643 | the grouping loop: an object is in the group of its resource exactly when it was visited and goes to the edge |
| `SyncerConfig.SpecFromRelations` | pkg/placement/workload-projector.go:1680-1706 | decoding the spec that is built gives the relations back, in whatever order it was built |
| `SyncerConfig.BuildNamespaced` | pkg/placement/workload-projector.go:1682-1694 | one entry per resource, and the entries say what is wanted |
| `SyncerConfig.BuildClusterScoped` | pkg/placement/workload-projector.go:1695-1702 | the same for cluster-scoped resources, with no object listed twice |
| `SyncerConfig.ByNamespace` | pkg/placement/workload-projector.go:1684-1688 | one entry per namespace, each with its names once, and together exactly the objects |
| `SyncerConfig.IsGood` | pkg/placement/workload-projector.go:1719-1788 | a spec is good if and only if it decodes to the wanted relations |
| `SyncerConfig.SyncConfigObject` | pkg/placement/workload-projector.go:652-720 | a spec is written exactly when there is none or it is not good, and afterwards a good one is stored |
| `SyncerConfig.SyncsSettle` | pkg/placement/workload-projector.go:652-720 | what was written is judged good when it is read back: while the relations stay, any number of syncs makes at most one write |
| `SyncerConfig.HaveNamespaced` | pkg/placement/workload-projector.go:1724-1739 | the loop unites the entries of a resource and keeps the version of the first |
| `SyncerConfig.NoDifference` | pkg/placement/map-types.go:427-444 | no difference is enumerated, in either direction, exactly when the maps are equal |
| `SyncerConfig.SetEqual` | pkg/placement/set-types.go:457-462 | equal lengths and one inclusion amount to equality |
| `SyncerConfig.DecodedNamespaced` | pkg/placement/workload-projector.go:1724-1739 | what a list with repeated resources says: all objects of all entries, the first version |
| `SyncerConfig.DecodedClusterScoped` | pkg/placement/workload-projector.go:1754-1759 | for cluster-scoped resources the last entry counts |
| `WhereResolver.Resolver.ReconcileOnLocation` | pkg/where-resolver/reconcile_on_location.go:92-254 | from any state that some history leads to: after a Location was added or updated, both indices and every slice, pair by pair, are as the longer history says |
| `WhereResolver.Resolver.EditForLoc` | pkg/where-resolver/reconcile_on_location.go:152-251 | the slices of the EdgePlacements that did or do select the Location become what the history says, the others are untouched |
| `WhereResolver.Resolver.ReconcileOnSyncTarget` | pkg/where-resolver/reconcile_on_synctarget.go:86-250 | the same after a SyncTarget was added or updated |
| `WhereResolver.Resolver.EditForSt` | pkg/where-resolver/reconcile_on_synctarget.go:127-247 | the slices of the EdgePlacements that the index or a match leads to become what the history says, the others are untouched |
| `WhereResolver.Resolver.NextSlice` | pkg/where-resolver/reconcile_on_synctarget.go:154-190 | one slice, cleaned of the SyncTarget and extended if it is in use: what is called for is there once, and what the history says is extra is there in addition |
| `WhereResolver.Resolver.FindEpsUsedSt` | pkg/where-resolver/store.go:68-75 | the EdgePlacements that the indices reach from a SyncTarget |
| `WhereResolver.Resolver.ReconcileOnEdgePlacement` | pkg/where-resolver/reconcile_on_edgeplacement.go:62-182 | the slice of an EdgePlacement that was added or updated is right, whatever it was before; the other slices and the indices are as the history says |
| `WhereResolver.Resolver.SinglesForEp` | pkg/where-resolver/reconcile_on_edgeplacement.go:86-99 | computing from scratch gives exactly the two-hop pairs, once each |
| `WhereResolver.Resolver.Receive` | pkg/where-resolver/store.go:24-37 | any one event in any reachable state: the indices and all slices stay as the history says, and putting an EdgePlacement makes its slice right |
| `WhereResolver.Resolver.Handle` | pkg/where-resolver/store.go:24-37 | moreover, a right slice stays right exactly when the event does not cross spaces for its EdgePlacement; if everything is right, it stays so exactly when the event does not match across spaces |
| `WhereResolver.Resolver.SliceRightIff` | pkg/where-resolver/store.go:24-37 | in every reachable state: a slice lists exactly the pairs that are called for and the extra ones, and it is right if and only if no pair is extra. A pair is extra if some SyncTarget brought it in from a selected Location of another space, and no event since has cleared it: its EdgePlacement was not put again, nor was its Location or SyncTarget while the EdgePlacement was seen to be concerned |
| `WhereResolver.Resolver.SliceFromHistory` | pkg/where-resolver/store.go:24-37 | in every reachable state, by the last words on all objects: a slice lists a pair if and only if it is extra, or some selector of the EdgePlacement matches a Location that selects a SyncTarget of its space, and the pair has their names, their space and the UID |
| `WhereResolver.Resolver.Run` | pkg/where-resolver/store.go:24-37 | after any run, for every EdgePlacement: its slice is right if and only if the history leaves no pair extra; everything is right after a run without a match across spaces |
| `WhereResolver.ExtraStep` | pkg/where-resolver/reconcile_on_synctarget.go:127-247 | what one event does to what is extra: it adds what it brings across spaces, and takes away what it clears |
| `WhereResolver.RightIff` | pkg/where-resolver/reconcile_on_synctarget.go:286-313 | a slice with each called-for pair once, and each extra pair once more than called for or oftener, is right if and only if nothing is extra |
| `WhereResolver.PutAgainRights` | pkg/where-resolver/reconcile_on_synctarget.go:127-190 | a SyncTarget that is put again without a match across spaces takes its extra pairs out of the slices that the resolver reaches, and no others |
| `WhereResolver.CalledForIs` | pkg/where-resolver/reconcile_on_edgeplacement.go:86-99 | what is called for, written out over the fields of EdgePlacement, Locations and SyncTargets |
| `WhereResolver.SelectorsAddUp` | pkg/where-resolver/reconcile_on_synctarget.go:269-284 | an EdgePlacement with the selectors of two calls for exactly what one or the other calls for; without selectors, for nothing |
| `WhereResolver.LastWordCounts` | pkg/where-resolver/reconcile_on_edgeplacement.go:60-99 | over any run, what is there of each kind is what the last event about it put, unless that was a deletion |
| `WhereResolver.OneSpaceNeverCrosses` | pkg/where-resolver/reconcile_on_synctarget.go:253-266 | with one consumer space there is never such a match |
| `WhereResolver.CrossesSpaces` | pkg/where-resolver/reconcile_on_synctarget.go:253-266 | three events after which the slice of an EdgePlacement is wrong: its Location and its SyncTarget are in different spaces |
| `WhereResolver.MadeCounts` | pkg/where-resolver/reconcile_on_synctarget.go:286-313 | of the pairs that a SyncTarget makes, one is made once if called for and never if not, unless a match across spaces makes it: then once more, or oftener |
| `WhereResolver.LocsIndexedIff` | pkg/where-resolver/store.go:24-37 | the index of Locations is the selection relation if and only if no match across spaces came in with its SyncTarget |
| `WhereResolver.FilterStsByLoc` | pkg/where-resolver/reconcile_on_location.go:257-284 | exactly the SyncTargets of the same space whose labels match, once each |
| `WhereResolver.FilterEpsByLoc` | pkg/where-resolver/reconcile_on_location.go:287-302 | exactly the EdgePlacements of which at least one selector matches the labels of the Location, once each |
| `WhereResolver.FilterLocsBySt` | pkg/where-resolver/reconcile_on_synctarget.go:253-266 | exactly the Locations that match, of whatever space |
| `WhereResolver.FilterLocsByEp` | pkg/where-resolver/reconcile_on_synctarget.go:269-284 | exactly those of the given Locations whose labels at least one selector matches, once each |
| `WhereResolver.CleanByLoc` | pkg/where-resolver/reconcile_on_location.go:325-334 | everything but the entries of one Location remains |
| `WhereResolver.CleanBySt` | pkg/where-resolver/reconcile_on_synctarget.go:326-335 | everything but the entries of one SyncTarget remains |
| `WhereResolver.MakeSinglesForLoc` | pkg/where-resolver/reconcile_on_location.go:336-363 | one entry for each SyncTarget that the Location selects |
| `WhereResolver.MakeSinglesForSt` | pkg/where-resolver/reconcile_on_synctarget.go:286-313 | one entry for each Location, under the space of the SyncTarget |
| `WhereResolver.Reindex` | pkg/where-resolver/reconcile_on_edgeplacement.go:102-113 | the key is in exactly the given rows, other keys are where they were |
| `WhereResolver.DropFromRows` | pkg/where-resolver/store.go:77-81 | the key is in no row, other keys are where they were |
| `WhereResolver.Union` | pkg/where-resolver/store.go:57-75 | the union of the given rows |
| `JsonPathReader.Lexer.constructor` | pkg/jsonpath/lexer.go:53-60 | the lexer starts at the first character, or at the end of an empty text |
| `JsonPathReader.Lexer.Advance` | pkg/jsonpath/lexer.go:98-113 | the lexer moves on by one character, and fails only past the end |
| `JsonPathReader.Lexer.Next` | pkg/jsonpath/lexer.go:62-96 | the next token is the first token of the remaining text, and the lexer moves past it |
| `JsonPathReader.Lexer.NextNumber` | pkg/jsonpath/lexer.go:158-191 | the loop over octal, hexadecimal and decimal digits ends where the number ends |
| `JsonPathReader.Lexer.NextString` | pkg/jsonpath/lexer.go:115-156 | the loop ends after the closing quote, escaped characters skipped, and fails on a text without one |
| `JsonPathReader.Lexer.NextIdentifierName` | pkg/jsonpath/lexer.go:193-204 | the loop ends where the identifier ends |
| `JsonPathPrinter.LexIsMaximal` | pkg/jsonpath/lexer.go:62-96 | names and numbers are as long as they can be, a number is decimal and has the value of its digits, two dots are one token |
| `JsonTokens.NamesAre` | pkg/jsonpath/lexer.go:193-214 | a text is one name if and only if it starts with a letter, an underscore or a dollar sign and goes on with these, digits and the two joiners; beyond ASCII, as the Unicode tables say |
| `JsonTokens.NamesParse` | pkg/jsonpath/parser.go:126-211 | every name after a dollar sign and a dot selects the member of that name |
| `JsonTokens.DigitsAre` | pkg/jsonpath/lexer.go:158-191 | a digit is a number, with its value |
| `JsonTokens.OneMoreDigit` | pkg/jsonpath/lexer.go:158-191 | one more digit makes ten times the number plus the digit; beyond 9223372036854775807 it is an error |
| `JsonTokens.NumbersAreDigits` | pkg/jsonpath/lexer.go:158-191 | nothing but digits is a number |
| `JsonPathReader.Parse` | pkg/jsonpath/parser.go:116-213 | the parser accepts exactly what the reading function reads, and yields the same selectors |
| `JsonPathReader.ParseStringSubscripts` | pkg/jsonpath/parser.go:217-244 | reads the rest of a bracket of strings |
| `JsonPathReader.ParseNumericSubscripts` | pkg/jsonpath/parser.go:248-293 | reads the rest of a bracket of numbers, or a range |
| `JsonPathReader.ParseRangeTail` | pkg/jsonpath/parser.go:297-348 | reads the rest of a range |
| `JsonPathReader.ParseString` | pkg/jsonpath/parser.go:111-114 | reads a whole text: it yields a list of selectors if and only if the grammar derives it from the text; whatever it yields is producible |
| `JsonPathGrammar.ParsesWhatIsDerived` | pkg/jsonpath/parser.go:116-352 | a text is read as a list of selectors if and only if it can be cut into tokens that spell a dollar sign and then these selectors |
| `JsonPathGrammar.DerivesAtMostOne` | pkg/jsonpath/parser.go:116-352 | no text derives two lists of selectors |
| `JsonPathGrammar.LexedIs` | pkg/jsonpath/lexer.go:62-204 | the lexer returns a token if and only if the text begins with it: specials, identifiers and numbers that end where they must, quoted literals with escapes |
| `JsonPathPrinter.RoundTrip` | pkg/jsonpath/parser.go:116-213 | every printable list of selectors, written canonically, parses back to itself |
| `JsonPathPrinter.ReadAll` | pkg/jsonpath/parser.go:126-211 | the same from any point of the text, whether or not a star may follow |
| `JsonPathPrinter.ReadSlice` | pkg/jsonpath/parser.go:297-352 | ranges, with single indices up to the largest 64-bit integer, whose end wraps around |
| `JsonPathPrinter.ReadList` | pkg/jsonpath/parser.go:217-293 | lists of names and lists of indices |
| `JsonPathPrinter.ParsedIsProducible` | pkg/jsonpath/parser.go:26-45 | conversely, all that is read is flat lists of one kind with at least two members, ranges within 64 bits, names, stars and double dots |
| `JsonPathPrinter.DigitsValue` | pkg/jsonpath/lexer.go:188-191 | the decimal digits of a number have that number as their value |
| `JsonPathReader.ParsedEqual` | pkg/jsonpath/parser.go:73-83 | the comparison of parsed paths is equality |
| `JsonPathReader.SelectorsEqual` | pkg/jsonpath/parser.go:85-96 | the comparison of selectors is equality |
| `JsonPathReader.RangesEqual` | pkg/jsonpath/parser.go:98-109 | the comparison of ranges is equality |
| `JsonEval.Apply` | pkg/jsonpath/eval.go:31-85 | what the evaluator computes is defined, by a measure of data and path, for every function on paths without double dots, and for every scalar-valued function on all paths, because then no call makes a value higher, insertion included |
| `JsonEvaluator.Evaluate` | pkg/jsonpath/eval.go:31-85 | the loops, in any order of map keys, compute that value if and only if every range completes on every array of the original data that the path leads to with it; otherwise the evaluation runs forever or off a slice |
| `JsonEvaluator.EvaluateList` | pkg/jsonpath/eval.go:56-59 | the same for a list, one member after the other |
| `JsonEvaluator.EvaluateRange` | pkg/jsonpath/eval.go:45-55 | the striding loop, in 64 bits, visits exactly the indices that the range covers, or runs into trouble |
| `JsonEval.RangeLoopEnds` | pkg/jsonpath/eval.go:52-54 | the loop over a range ends without leaving the slice if and only if there is nothing to do, or it starts at zero or later, strides forward, and does not overflow after the last index that it covers |
| `JsonEval.RangeCompletesIs` | pkg/jsonpath/eval.go:45-55 | the range completes if and only if it starts at or after its end or that of the array, or it starts at zero or later, strides forward, and from no index that it gets to before both ends does a step exceed 64 bits |
| `JsonEval.CoversIs` | pkg/jsonpath/eval.go:45-55 | an index is visited if and only if it lies before the end of the array and of the range, and is a number of strides, none or more, after the start |
| `JsonEvaluator.EvaluateChildren` | pkg/jsonpath/eval.go:60-82 | the same if-and-only-if for all children |
| `JsonEvaluator.EvaluateElements` | pkg/jsonpath/eval.go:62-77 | the loop over elements visits each exactly once |
| `JsonEvaluator.EvaluateMembers` | pkg/jsonpath/eval.go:66-81 | the loop over members visits each exactly once |
| `JsonCompletion.CompletesIff` | pkg/jsonpath/eval.go:31-85 | for any path and function on which the evaluation is defined, with insertion or without: every loop gets to its end if and only if every range completes on every array of the original data that the path leads to with it, a condition on the path and the data alone |
| `JsonCompletion.ShallowCompletesIff` | pkg/jsonpath/eval.go:31-85 | without a double dot, those arrays are just the ones that the selectors before the range select |
| `JsonCompletion.VisitsByPrefix` | pkg/jsonpath/eval.go:31-70 | without a double dot, an array is met with a range exactly when the beginning of the path before that range selects it |
| `JsonCompletion.VisitsAfterReplace` | pkg/jsonpath/eval.go:56-59 | after some places were replaced by a scalar, a path meets with its ranges the arrays that it met before, less those at or below a replaced place |
| `JsonCompletion.EasilyCompletes` | pkg/jsonpath/eval.go:45-55 | on any path: if every range of it completes on arrays of all the lengths in the data, the evaluation gets to its end |
| `JsonCompletion.TameCompletes` | pkg/jsonpath/eval.go:45-55 | in particular if no array has more than some number of elements, and every range starts at zero or later, strides forward, and cannot overflow within that number |
| `JsonEvaluator.ParsedPathsComplete` | pkg/jsonpath/eval.go:45-55 | whatever the parser yields gets to its end on such data, if its strides are neither zero nor too long |
| `JsonEvaluator.ReplaceByText` | cmd/json-path-replace/main.go:45-59 | one path and one replacement, from the text on: fails exactly when the text does not parse or a range does not complete where the path leads; otherwise grows the data and replaces exactly what is selected |
| `JsonPlaces.ReplacesSelected` | pkg/jsonpath/eval.go:23-85 | applying a constant without insertion replaces exactly the selected places, for every path, nested lists included; for a container in place of a scalar, if the path has no double dot |
| `JsonPlaces.ParentFirst` | pkg/jsonpath/eval.go:71-82 | under a double dot alone, a function that makes scalars gets the whole value and no child: a parent comes before its children |
| `JsonPlaces.RangeSelects` | pkg/jsonpath/eval.go:45-55 | a range selects exactly the elements of an array at such indices |
| `JsonPlaces.IndexSelects` | pkg/jsonpath/parser.go:350-352 | a single index selects exactly the element that has it, if there is one |
| `JsonPlaces.SelectedAfterReplace` | pkg/jsonpath/eval.go:31-85 | after a replacement a path selects what it selected before, less what is gone; within a container that was put in, nothing is said |
| `JsonPlaces.ReplaceTwice` | pkg/jsonpath/eval.go:56-59 | replacing in turn amounts to replacing the union, unless something is asked for within a container that was put in |
| `JsonPlaces.SelectedDepth` | pkg/jsonpath/eval.go:31-85 | without a double dot, a path leads as far down as it is long |
| `JsonInsertion.GrowsAndReplaces` | pkg/jsonpath/eval.go:23-85 | applying a constant with insertion grows the value along the leading definite selectors, nested lists of them included, and then replaces exactly what the path selects in the grown value |
| `JsonInsertion.GrowAdds` | pkg/jsonpath/eval.go:24-29 | a place that comes in is a null member, and each of its steps is one that the selector of that level, or a member of the list at any depth, names, or hits in an array; after any other selector no key comes in |
| `JsonNewPlaces.InsertionStops` | pkg/jsonpath/eval.go:24-29 | for every path: after a star, a double dot or a range that is not one index with stride one, nothing comes into being; a new place is no deeper than the selectors before lead, or at or below a place that holds the constant |
| `JsonInsertion.GrowLeavesOthers` | pkg/jsonpath/eval.go:24-29 | a place off that way is as before |
| `JsonInsertion.GrowKeeps` | pkg/jsonpath/eval.go:24-29 | growing takes no place away and changes no scalar |
| `JsonInsertion.ConstantThere` | pkg/jsonpath/eval.go:23-24 | the constant stands at every selected place that is not below another |
| `JsonInsertion.OthersUnchanged` | pkg/jsonpath/eval.go:23-24 | a place neither above nor below a selected one is as in the grown value, and off the definite beginning of the path it is as before |
| `JsonInsertion.ApplyingAgain` | pkg/jsonpath/eval.go:31-85 | applying the same constant again changes nothing |
| `JsonInsertion.ParsedPathsApply` | pkg/jsonpath/eval.go:23-85 | for whatever the parser yields, both accounts hold, without insertion and with it |
| `JsonAddresses.AddressesWork` | cmd/json-path-replace/main.go:45-59 | a dollar sign followed by names and indices after dots always parses, always completes, and has any function applied at that place, as a direct definition says |
| `JsonAddresses.UpdatesThere` | pkg/jsonpath/eval.go:31-85 | on a path of names and single indices and for any function, applying it with insertion is updating the place: a missing member comes in, the next one after a missing one does not, and an element must exist; without insertion nothing happens unless the place is there |
| `JsonAddresses.SelectsThere` | pkg/jsonpath/eval.go:31-85 | such a path selects its place if it exists, and nothing else |
| `JsonAddresses.UpdateIsThere` | pkg/jsonpath/eval.go:37-55 | the function gets there, applied to what is there or to null, if and only if what is around the place is an object, or an array with that element |
| `JsonAddresses.UpdateLeavesOthers` | pkg/jsonpath/eval.go:37-55 | places neither above nor below are as before |
| `JsonAddresses.AppliedOnce` | pkg/jsonpath/eval.go:31-70 | on any path of names, ranges and stars, any function is applied once at every selected place, to what is there |
| `JsonAddresses.AppliedNowhereElse` | pkg/jsonpath/eval.go:31-70 | and places neither above nor below a selected one are as before |
| `JsonAddresses.TextParses` | pkg/jsonpath/parser.go:126-211 | names and indices after dots are read as names and single indices, in order |
| `JsonInsertion.SomeTextsDoNotComplete` | pkg/jsonpath/parser.go:297-348 | the parser yields ranges on which the loop runs forever, and ranges on which it overflows and leaves the slice |
| `JsonInsertion.NotForAllLists` | pkg/jsonpath/eval.go:56-59 | with a double dot inside a list, which the parser never makes, insertion in turn differs from insertion first |
| `JsonDescent.EndsIff` | pkg/jsonpath/eval.go:31-85 | for a double dot with at most one selector after it, putting any constant gets to an end, of the nested calls and of all loops, if and only if the path selects nothing in the value or nothing strictly within the constant, and its ranges complete on every array that it leads to in the value, and in the constant too if that is put anywhere |
| `JsonDescent.GoesOn` | pkg/jsonpath/eval.go:71-82 | where something is selected in both, the calls nest without bound |
| `SyncConfigManagement.SyncConfigManager.Upsert` | pkg/syncer/controller/syncconfigmanager.go:72-81 | over any history, both ways: synced is what configs list now, unsynced is what was ever listed and is not now; what the new config lists for downsync is synced down and not unsynced, and so for upsync |
| `SyncConfigManagement.SyncConfigManager.Delete` | pkg/syncer/controller/syncconfigmanager.go:83-91 | the same after a delete; what only the deleted config listed is unsynced |
| `SyncConfigManagement.SyncConfigManager.InTerms` | pkg/syncer/controller/syncconfigmanager.go:112-140 | in every reachable state, in terms of the fields: synced down is what some config has under downsync, unsynced down is what some config had there at some time and none has now; the same for upsync |
| `SyncConfigManagement.SyncConfigManager.Refresh` | pkg/syncer/controller/syncconfigmanager.go:93-110 | the same for the common part |
| `SyncConfigManagement.SyncConfigManager.Disjoint` | pkg/syncer/controller/syncconfigmanager.go:122-140 | synced and unsynced have nothing in common |
| `SyncConfigManagement.CreateIndexed` | pkg/syncer/controller/syncconfigmanager.go:44-60 | the exposed slice lists the index once each |
| `SyncConfigManagement.CreateDownAndUp` | pkg/syncer/controller/syncconfigmanager.go:112-120 | exactly what some config has under downsync, and exactly what some config has under upsync |
| `SyncConfigManagement.UpdateUnsynced` | pkg/syncer/controller/syncconfigmanager.go:122-140 | what was unsynced or synced, less what is synced next |
| `DefinitionTracking.Tracker.SetDefiner` | pkg/apiwatch/definition-tracking.go:26-54 | the definer has what is enumerated; the two relations stay transposes, and no resource keeps an empty definer set |
| `DefinitionTracking.Tracker.AddNew` | pkg/apiwatch/definition-tracking.go:30-38 | repeats or not, exactly the newly enumerated resources gain the definer |
| `DefinitionTracking.Tracker.RemoveOld` | pkg/apiwatch/definition-tracking.go:39-51 | exactly the resources no longer enumerated lose it, and go if it was the last |
| `SpaceIds.SpaceRelation.SetMapping` | pkg/kbuser/space_ids.go:110-135 | with an ID: the space has it, both ways, no other space has it, and the others keep theirs; without: the space has none, nothing leads to it, and the others keep theirs; the maps stay mutually inverse, without empty IDs |
| `SpaceIds.AssignedMeans` | pkg/kbuser/space_ids.go:110-135 | that this is what assigning an ID means |
| `SpaceIds.Subject` | pkg/kbuser/space_ids.go:82-88 | a name is about a space if and only if it is the prefix and at least two characters, which are the ID of the space |
| `SpaceIds.SpaceRelation.OnAdd` | pkg/kbuser/space_ids.go:82-94 | a config map with a proper name gives its space the ID in its label, as above, others change nothing |
| `SpaceIds.SpaceRelation.OnDelete` | pkg/kbuser/space_ids.go:96-108 | a config map with a proper name takes the ID of its space away, both ways, and leaves the others alone; others change nothing |
| `SpaceIds.SpaceRelation.ThereAndBack` | pkg/kbuser/space_ids.go:141-151 | looking an ID up one way and back gives the same ID |
| `SpaceIds.LateDelete` | pkg/kbuser/space_ids.go:96-108 | a late delete for the former space of an ID does not disturb its new space |

## Left out

- Informers, listers, work queues, API clients, locks, contexts and logging: listers are the current catalog, API writes are assignments, and each transaction or reconciliation is one step.
- Observers: a stage returns its changes as a sequence that the next stage consumes, so a receiver that would call back into the stage is not modelled.
- The tables of namespaced and of cluster-scoped objects share one generic model; the records per source and per destination are split by scope and represented by their keys instead of pointers.
- The destinations and sources that a transaction marks as changed, and what the projector then does to objects of the mailboxes.
- Failed reads and writes of SyncerConfigs, which are tried again.
- The group that `pickThe1` logs as a conflict: the model says that some version of the group is picked, as the code does in its arbitrary order.
- Discovery of resources and their modes: whether a resource goes to the mailbox or to the edge is a parameter.
- The what resolver (pkg/placement/what-resolver.go): mostly plumbing around informers.
- `WrapSetWithMutex`: not used as a set, since its removal adds.
- Sets, maps and forks that only delegate (pkg/placement/map-types.go, pkg/placement/set-types.go) would add easy members only.
- CRC-64: the checksum of a string is a parameter.
- Deletion of Locations and SyncTargets and errors midway in the where resolver: the code analyses the missing object before it looks at the deletion, and updates its store before the API calls.
- Kube-bind names: a key is a pair of space and name; the encoding of such a pair in one string is not modelled.
- JavaScript string literals and Unicode tables: parameters, with the one assumption for the round trip that a literal without escapes stands for itself.
- What the parser returns beside an error: the model has no value then.
- JsonEval.Apply: leaves out container-valued functions on paths with a double dot, where the evaluator goes on into what it has put there and may never come to an end; see JsonDescent.EndsIff.
- JsonEvaluator.Evaluate: has the same restriction, and works on values and not on maps and slices in place; for trees without sharing the two are the same, and sharing is not modelled.
- JsonDescent.EndsIff: is about one selector after the double dot; with more, what is around the constant can complete a selection within it, and no such simple condition is known here.
- JsonEvaluator.ReplaceByText: leaves out replacements by containers on paths with a double dot, as JsonEvaluator.Evaluate does, and is about one pair of arguments, with the replacement decoded and the data in memory.
- JsonInsertion.GrowsAndReplaces: is for lists of definite selectors, nested or not; the parser makes no others (JsonInsertion.ParsedPathsApply), and with a double dot inside a list it does not hold (JsonInsertion.NotForAllLists); without insertion all lists are covered (JsonPlaces.ReplacesSelected).
- JsonInsertion.ConstantThere: the same restriction on lists.
- JsonInsertion.OthersUnchanged: the same restriction on lists.
- JsonInsertion.ApplyingAgain: the same restriction on lists.
- `Conversions` of the sync config manager, which it computes from the previous configs.
- pkg/jsonpath/jsonpath.go, pkg/customize, the syncers, the mailbox controller, the space framework and the other commands.
