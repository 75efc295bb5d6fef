# IM-Manager: deployments, databases and file stores

IM-Manager deploys groups of stacks that need each other, keeps the databases they run on in an S3
bucket, and backs up and restores their file stores. This project models the parts of it in which
state, loops or interleavings decide what happens, and proves what they promise. Each file is one
module.

| file | what it models |
|---|---|
| Graphs.dfy | the graph that refuses cycles, and Kahn's sort |
| Model.dfy | stacks, instances and their parameters; stacks are abstract, so no claim depends on a particular registry |
| Stacks.dfy | creating the registry: ordering, and one source for each consumed parameter |
| InstanceGraphs.dfy | validating a deployment, and its deploy and destroy orders |
| ParameterResolution.dfy, ResolutionProperties.dfy | filling in, checking and consuming parameters, and what one pass and two passes achieve |
| ResolutionDepth.dfy, ResolutionLimits.dfy | how many passes are enough whatever the providers read, and examples that show where the results end |
| InstanceStore.dfy | stored instances: save, update, deploy, delete one, delete all |
| Text.dfy, Urls.dfy | numerals, prefixes, and the URL that leads from a row to its object |
| DatabaseStore.dfy | rows, locks and objects, one failing step at a time |
| DatabaseSaves.dfy | the lock and save protocol |
| DatabaseOperations.dfy | upload, copy, rename, delete and save, over whole runs |
| Multipart.dfy | streaming upload in parts, and the backup that feeds it |
| BackupPipeline.dfy | the concurrent archive writer as a machine of steps |
| FileStoreRestore.dfy | restoring an archive, and the marker that makes it happen once |
| EventStream.dfy | the event stream and its resumption |
| RefreshTokens.dfy | refresh-token rotation with interleaved requests |

Where the source changes things in place the model does too: classes with fields, arrays and loops,
each proved against a specification function or an outright statement of the new state. Protocols
(the backup pipeline, the event stream, the tokens) are machines whose steps are the atomic actions
of the goroutines or of the outside store; the marker and the token services are both imperative
code and a machine, and the code is proved to take the machine's steps. A call to something outside
(S3, the database, Redis, helmfile) may fail wherever the source can see it fail; the choice is left
open, so a claim holds for every pattern of failures. A crash is a failure at the next step. So that
no claim is met by failing always, a store or client can be `reliable`: then nothing fails for
reasons of its own, and the operations are proved to succeed exactly when their own conditions hold.
The database store also counts the row writes, unlocks and loads that failed, so that a contract can
say that nothing but such a failure led to an outcome.

## What the code does that its documentation does not say

- `pkg/instance/filestore.go:22-23` bounds the buffered objects by the sixteen fetchers. The writer
  holds one more. For every bucket and listing order the most that is ever buffered is the number of
  small objects, or seventeen if there are more than sixteen (`BufferedAtMostPeak`, `PeakIsReached`); so
  the documented bound holds if and only if at most sixteen are small (`FetchersBoundBufferedIff`).
- A save does not always restore the lock. If it succeeds, or fails before the dump is in place, the
  lock is not what it was if and only if the database was not locked before and either reloading the
  record after locking it or an unlock has failed (`LeftLocked`); then the saving instance keeps the
  lock. If it fails once the original row is gone, the database is not locked, even if it was before.
  Between the two it depends on what failed, and is stated exactly (`StaysLocked`).
- A save that stops after the original row was deleted leaves the database under the temporary row's
  id only (`Removed`, `Renamed`); every stage a save can stop at is spelled out by `Left`. It takes a
  row write that fails: in a reliable store no save is interrupted.
- Renaming onto the name of another row overwrites that row's object before the unique index refuses
  the row, and so do uploading and copying: when the row is refused the object is already written. The
  objects of all other rows are kept if and only if no other row with an object has the name, or has the
  same content already (`MoveKeepsOthersIff`, `PutKeepsOthersIff`, `ClashOverwrites`). If after a rename
  the old object cannot be deleted, every row still finds an object, but the other row finds the wrong
  one.
- An operation is `broken` if a row is refused after its object was written or deleted. In a reliable
  store each operation says exactly when that is (`Breaks`): uploads, copies and renames to a name or
  slug that is taken, and the deletion of a database whose file store is locked. The latter deletes
  the locked file store's object, because `deleteFS` does not look at the lock
  (`DatabaseDeleteBreaks`).
- A producer that fails with an end-of-file kind of error completes the uploaded object, although the
  backup reports a failure. If no call fails, the object is assembled if and only if something was
  written and the producer's error is of no other kind (`PerformBackup`).
- Completing an upload without parts is refused by S3, so an empty stream is not uploaded; like any
  upload whose completion fails it is not aborted either (`StreamUpload`).
- A deployment's parameters are resolved in one pass in listing order. A parameter that an instance
  consumes from another's parameters is right after that pass if and only if its source held it in
  time, or the consumer's own value is by chance the source's default (`OnePassMatchesIff`).
- Two passes reach a fixpoint if no provider reads values that its own stack consumes
  (`TwoPassesAreEnough`); other values it may read, and the registered providers read none. With
  one that does, a chain of three instances can need three passes (`ReadingProviderNeedsThreePasses`).
  Whatever providers read, there are never more needed than the longest chain of requirements has
  stacks (`PassesByHeight`), nor than an accepted deployment has instances
  (`AcceptedNeedsNoMorePasses`).
- A key that is empty, starts with "./" or ends with "/" does not survive a backup and a restore;
  the round trip holds if and only if no key is of that kind (`RoundTrip`).
- An archive can mark a bucket before it is restored if and only if an entry before its last writes the
  marker's key (`MarksTooEarlyIff`); the rest is then never restored (`MarkerInArchiveLosesData`). The
  backup's listing leaves that key out, but not the key "./" followed by the marker's, which becomes
  the marker's when it is restored (`BackupWritesMarkerIff`).
- A client whose connection is dropped before its first event loses what is published until it
  reconnects, because it has no event id to resume from (`SilentDropLoses`); from its first event on
  nothing is lost (`NothingLostOrRepeated`).
- Signing out while one of the user's refreshes is under way does not keep the user signed out; with
  none under way it does (`SignedOutForGood`).

## Model

| member | source | states |
|---|---|---|
| Graphs.AddEdgeAcyclic | pkg/instance/service.go:241-243 | adding an edge keeps a graph without cycles so if and only if the edge's target does not reach its source |
| Graphs.DirectedGraph.AddVertex | pkg/stack/stack.go:52-57 | refuses a vertex that is there already, and adds any other |
| Graphs.DirectedGraph.AddVertices | pkg/instance/service.go:245-253 | adds all of a list of distinct names, or points at the first repeated one |
| Graphs.DirectedGraph.CreatesCycle | pkg/instance/service.go:241-243 | the depth-first search finds the target if and only if the target reaches the source |
| Graphs.DirectedGraph.PushPredecessors | pkg/instance/service.go:241-243 | the search goes on to exactly the predecessors of the current vertex |
| Graphs.DirectedGraph.AddEdge | pkg/instance/service.go:286-298 | refuses exactly a missing endpoint, a repeated edge, or an edge that would close a cycle, and then changes nothing |
| Graphs.DirectedGraph.AddEdges | pkg/stack/stack.go:59-71 | links every target, or stops at the first refused one with the true reason |
| Graphs.TakeReady | pkg/instance/service.go:562-566 | one round of the sort moves exactly the vertices without remaining predecessors into the queue |
| Graphs.TopologicalSort | pkg/instance/service.go:562-566 | succeeds if and only if there is no cycle, whatever the map order, and lists every vertex once with all edges forward |
| Graphs.NoSourceMeansCycle | pkg/instance/service.go:562-566 | vertices that all still wait for one another contain a cycle |
| Graphs.ForwardOrderImpliesAcyclic | pkg/instance/service.go:562-566 | an order with all edges forward exists only without cycles |
| Graphs.AcyclicIsRanked | pkg/instance/service.go:241-243 | without cycles the vertices can be ranked so that every edge leads down, with fewer ranks than vertices |
| Graphs.RankedIsAcyclic | pkg/instance/service.go:241-243 | and where they can be ranked there is no cycle |
| Stacks.CountZero | pkg/stack/stack.go:116-119 | a provider count is zero if and only if no required stack is a source of the parameter |
| Stacks.CountMany | pkg/stack/stack.go:120-122 | a provider count exceeds one if and only if two different sources exist |
| Stacks.CountOne | pkg/stack/stack.go:76-78 | a provider count is one if and only if there is exactly one source |
| Stacks.Tally | pkg/stack/stack.go:97-113 | one loop over names raises exactly the counts of consumed names, and the required stack's count when it raises any |
| Stacks.TallyRequired | pkg/stack/stack.go:96-114 | a required stack counts once for offering a parameter itself and once for providing it |
| Stacks.CountProviders | pkg/stack/stack.go:81-114 | the two frequency maps hold the number of sources of each consumed parameter and whether each required stack provides anything |
| Stacks.StackFindings | pkg/stack/stack.go:116-129 | reports exactly the justified complaints about one stack |
| Stacks.NoFindingsIffConsistent | pkg/stack/stack.go:76-77 | there is nothing to complain about if and only if each consumed parameter has exactly one source and each required stack provides something |
| Stacks.ValidateConsumedParameters | pkg/stack/stack.go:78-133 | reports exactly the justified complaints; none if and only if every stack is consistent |
| Stacks.ValidateNoCycles | pkg/stack/stack.go:47-74 | succeeds if and only if names are distinct, requirements are present and not repeated, and there is no cycle; an error names what is really wrong |
| Stacks.BlamedIsNotOrderable | pkg/stack/stack.go:62-68 | whatever an error reports keeps the stacks from being ordered |
| Stacks.RefusalBlames | pkg/stack/stack.go:61-69 | the graph's refusal of an edge is reported as what is wrong with the stacks |
| Stacks.Register | pkg/stack/stack.go:36-39 | the registry holds exactly the given stacks, each under its name |
| Stacks.New | pkg/stack/stack.go:25-41 | a registry is created if and only if the stacks can be ordered and are consistent; otherwise the error is true |
| InstanceGraphs.AcceptsAnyOrder | pkg/instance/service.go:240-303 | the verdict on a deployment does not depend on the order of its instances |
| InstanceGraphs.LinkCompanions | pkg/instance/service.go:261-284 | links an instance to every companion its parameters demand, in any map order, or reports what is wrong |
| InstanceGraphs.LinkInstance | pkg/instance/service.go:255-300 | links an instance to everything it needs, or reports what is wrong |
| InstanceGraphs.ValidateNoCycles | pkg/instance/service.go:240-303 | accepts if and only if stack names are distinct and registered, no companion check that a parameter names fails on that parameter, nothing is needed for two reasons, everything needed is present, and stacks can be ranked above what they need; then the graph is exactly the needs |
| InstanceGraphs.AcceptsIffDeployable | pkg/instance/service.go:240-303 | that condition, written out over requirements and the answers of the checks themselves, is equivalent to what the graph finds |
| InstanceGraphs.EdgeHasReason | pkg/instance/service.go:261-300 | every edge is a requirement or what a check answered for the parameter it belongs to, and there are no others missing |
| InstanceGraphs.NeededTwiceHasTwoReasons | pkg/instance/service.go:270-298 | a need is repeated if and only if there are two reasons for it: requirements or parameters whose checks call for it |
| InstanceGraphs.BlamesTruly | pkg/instance/service.go:246-298 | what each rejection means: a failed check is the check's own error, a missing or repeated stack is needed for the reasons there are, and a cycle leaves no ranking |
| InstanceGraphs.BlamedIsRejected | pkg/instance/service.go:246-298 | whatever an error reports makes the deployment unacceptable |
| InstanceGraphs.RefusalBlames | pkg/instance/service.go:270-298 | the graph's refusal of an edge is reported as what is wrong with the instances |
| InstanceGraphs.FindInstanceByStackName | pkg/instance/service.go:382-389 | finds the first instance of a stack, or none if there is none |
| InstanceGraphs.OneEachIsShuffle | pkg/instance/service.go:570-573 | picking one instance for each sorted name gives every instance exactly once |
| InstanceGraphs.OrderedNeeds | pkg/instance/service.go:568-573 | the reversed sort puts everything an instance needs before it |
| InstanceGraphs.DeploymentOrder | pkg/instance/service.go:417-426 | succeeds if and only if the instances are deployable, and returns all of them once, each after everything that it requires or that a check of its parameters calls for |
| InstanceGraphs.ReversedNeeds | pkg/instance/service.go:506-510 | in the destroy order everything an instance needs comes after it |
| ParameterResolution.Deployment.AddDefaultParameterValues | pkg/instance/service.go:401-415 | adds exactly the missing parameters, with their defaults or empty |
| ParameterResolution.Deployment.ValidateParameters | pkg/instance/service.go:334-346 | passes if and only if every validator accepts its value |
| ParameterResolution.Deployment.ConsumeOne | pkg/instance/service.go:355-377 | consults the required stacks in turn, storing after each; fails if and only if one is missing or a provider fails |
| ParameterResolution.Deployment.ResolveConsumedParameters | pkg/instance/service.go:348-380 | resolves every consumed parameter of an instance, in any map order |
| ParameterResolution.Deployment.ResolveParameters | pkg/instance/service.go:305-332 | one pass in place computes what the specification says, instance after instance |
| ParameterResolution.ConsumedValueIgnoresSelf | pkg/instance/service.go:349-377 | an instance's own parameters do not matter for what it consumes |
| ParameterResolution.DefaultsChangeNoSource | pkg/instance/service.go:318-325 | storing an instance's defaults first changes nothing of what it consumes |
| ResolutionProperties.ConsistentHasSoleCarrier | pkg/stack/stack.go:76-133 | the validation at creation leaves one required stack that carries a consumed parameter |
| ResolutionProperties.SoleCarrierDecides | pkg/instance/service.go:355-377 | the loop over required stacks yields what the one carrier gives |
| ResolutionProperties.ResolveCompletes | pkg/instance/service.go:305-332 | after a pass each instance has exactly its stack's parameters, and what it does not consume is what the user gave, or the default |
| ResolutionProperties.ConsumesFromSource | pkg/instance/service.go:305-380 | from any point of a pass on, an instance still to come ends up matching its source if the source is ready: its parameter is there or comes earlier, or its provider is asked after it was completed, reads no parameters, or reads none that its stack consumes from a source with all parameters |
| ResolutionProperties.ResolvedMatchesSource | pkg/instance/service.go:348-380 | after a pass a consumed value equals that of its single source, if the source was ready |
| ResolutionProperties.LastMatchesSource | pkg/instance/service.go:348-380 | the last instance consumes what its sources hold after the pass, whatever providers read |
| ResolutionProperties.OnePassMatchesIff | pkg/instance/service.go:348-364 | after one pass a value consumed from a parameter equals its source if and only if the source held it from the start or came earlier, or the consumer's own value equals the source's default |
| ResolutionProperties.UnreadyKeepsOwn | pkg/instance/service.go:355-364 | a consumer whose source does not hold the parameter in time keeps its own value |
| ResolutionProperties.SecondPassSettles | pkg/instance/service.go:305-332 | a second pass makes every consumed value match its source, for providers that do not read values their own stack consumes |
| ResolutionProperties.SettledIsFixpoint | pkg/instance/service.go:305-332 | a pass over a settled deployment changes nothing and fails only by a validator |
| ResolutionProperties.PassConsults | pkg/instance/service.go:355-374 | for providers that read no parameters: a pass that succeeds has found every required instance, and every provider that is asked answers |
| ResolutionProperties.PassSucceeds | pkg/instance/service.go:305-332 | once all parameters are there, a pass succeeds if and only if the validators accept them and everything consumed can be consulted, for providers that do not read values their own stack consumes |
| ResolutionProperties.SecondPassSucceeds | pkg/instance/service.go:305-332 | after a pass that succeeds, a second one succeeds if and only if the validators accept what the first one left and the providers answer on it, for providers that do not read values their own stack consumes; providers that read no parameters always answer |
| ResolutionProperties.PassValidates | pkg/instance/service.go:334-346 | a pass succeeds only if every validator accepts the value that the user gave, or else the default |
| ResolutionProperties.ValidatorsDecide | pkg/instance/service.go:305-346 | if everything an instance consumes can be consulted, its turn succeeds if and only if its validators accept those values |
| ResolutionProperties.TwoPassesAreEnough | pkg/instance/service.go:305-332 | two passes reach a fixpoint for every instance order, for providers that do not read values their own stack consumes; when the second succeeds is exact, and a third changes nothing and fails only by a validator |
| ResolutionLimits.OnePassIsNotEnough | pkg/instance/service.go:305-332 | an instance of the condition above: a consumer listed before its source misses the source's default, and the deployment is not settled |
| ResolutionLimits.ReadingProviderNeedsThreePasses | pkg/instance/service.go:366-374 | with a provider that reads a value its own stack consumes, two passes over a chain of three instances are not enough, so the bounds below are reached |
| ResolutionLimits.ReadsOnlyNames | pkg/instance/service.go:366-374 | a provider that looks only at the instance's name and group reads no parameters |
| ResolutionLimits.ReadsNoConsumedIff | pkg/instance/service.go:366-374 | a provider that reads a parameter reads a consumed one if and only if its stack consumes it |
| ResolutionDepth.TurnSettles | pkg/instance/service.go:305-380 | right after its turn an instance with all parameters matches its sources, whatever providers read |
| ResolutionDepth.PassDeepens | pkg/instance/service.go:305-380 | a pass leaves alone what is settled below some rank of the requirement order, and settles one rank more |
| ResolutionDepth.PassesSettle | pkg/instance/service.go:305-380 | after n passes all instances below rank n are settled |
| ResolutionDepth.PassesByDepth | pkg/instance/service.go:305-380 | whatever providers read, as many passes as there are ranks reach a fixpoint, if they succeed |
| ResolutionDepth.PassesByHeight | pkg/instance/service.go:305-380 | so whatever providers read, as many passes as the longest chain of requirements has stacks reach a fixpoint, if they succeed |
| ResolutionDepth.ChainsReachHeight | pkg/instance/service.go:305-380 | no chain of stacks, each required by the one before, is longer than the height says |
| ResolutionDepth.LongestChain | pkg/instance/service.go:305-380 | and one is as long |
| ResolutionDepth.AcceptedIsRanked | pkg/instance/service.go:240-303 | the instances of an accepted deployment can be ranked, each above all it requires, with no more ranks than instances |
| ResolutionDepth.AcceptedNeedsNoMorePasses | pkg/instance/service.go:240-332 | so an accepted deployment needs no more passes than it has instances |
| ResolutionProperties.CreatedRegistryIsSound | pkg/stack/stack.go:25-41 | every registry that is created is coherent and has one carrier for each consumed parameter, given that copies are the registered stacks and that no required stack merely consumes the same name |
| InstanceStore.ValidatedKeepsClosed | pkg/instance/service.go:174-191 | a change that was validated keeps stack names distinct and requirements present |
| InstanceStore.RunsStayClosed | pkg/instance/service.go:158-238 | so does any run of saves, updates and deletions, accepted, rejected or failing |
| InstanceStore.StoreStaysClosed | pkg/instance/service.go:158-238 | from an empty store on, no deployment ever has two instances of a stack, and each required stack has an instance in it |
| InstanceStore.InstanceService.FindDeployment | pkg/instance/repository.go:87-104 | lists exactly the deployment's instances, each once, in any order |
| InstanceStore.InstanceService.RejectConsumedParameters | pkg/instance/service.go:194-207 | passes if and only if the stack exists and none of the names is consumed |
| InstanceStore.InstanceService.ValidateAndResolve | pkg/instance/service.go:176-184 | succeeds if and only if the deployment is acceptable and resolves, and completes every instance |
| InstanceStore.InstanceService.SaveInstance | pkg/instance/service.go:158-192 | stores the new instance as it is in the resolved deployment, where it comes last, with what was supplied as it was, and changes nothing else; it succeeds only if no stored instance has its name, group and stack, and fails only if one has, storing fails, the deployment or stack is unknown, a consumed parameter is supplied, or the deployment with it is not acceptable or does not resolve |
| InstanceStore.SavedMatchesSources | pkg/instance/service.go:174-191 | what a saved instance consumes is what its sources hold in the resolved deployment, whatever providers read |
| InstanceStore.InstanceService.UpdateInstanceParameters | pkg/instance/service.go:920-983 | stores the instance with the new values as it is in the resolved deployment: own parameters that were not given, and everything but the parameters and the public flag, stay; nothing else changes; it fails only if storing fails, the instance or deployment is unknown, a consumed parameter is supplied, or the deployment with them is not acceptable or does not resolve |
| InstanceStore.UpdatedMatchesSources | pkg/instance/service.go:945-983 | what an updated instance consumes is what its sources hold in the resolved deployment, for stored instances with exactly their stacks' parameters and providers that do not read values their own stack consumes |
| InstanceStore.StoredKeepsExact | pkg/instance/service.go:174-191 | what saves and updates store keeps every stored instance with exactly its stack's parameters |
| InstanceStore.InstanceService.DeleteInstance | pkg/instance/service.go:209-238 | succeeds if and only if the instance is in the deployment, the rest is acceptable without it, and neither its destruction nor its removal fails; then its record goes, with the locks it holds, and otherwise nothing changes |
| InstanceStore.InstanceService.DestroyAll | pkg/instance/service.go:512-524 | each instance is attempted once; a record and its locks go only if its own destruction and removal succeed |
| InstanceStore.InstanceService.DeleteDeployment | pkg/instance/service.go:505-530 | walks the exact reverse of the deploy order; the deployment goes if and only if nothing failed |
| InstanceStore.SurvivorsAreTheFailed | pkg/instance/service.go:512-527 | the deployment's surviving records are exactly the failed ones, and no other deployment is touched |
| InstanceStore.ListingDecides | pkg/instance/service.go:505-509 | whether a deployment is acceptable does not depend on how the database lists it |
| InstanceStore.DeployDeployment | pkg/deployment/service.go:57-78 | what has been deployed when it stops is a prefix of the order, with everything it needs deployed before it; it stops only at an instance that failed |
| InstanceStore.Updated | pkg/instance/service.go:930-943 | exactly the given values replace or join the parameters, all others stay, and the record keeps its identity |
| Text.ValueOfFormat | pkg/event/handler.go:276 | a printed numeral stands for its number |
| Text.FormatInjective | pkg/token/repository.go:45 | different user ids print differently |
| Text.ParseFormatted | pkg/event/handler.go:128 | a printed number within range is read back as itself, and one out of range is refused |
| Text.ParsesSigned | pkg/event/handler.go:128 | an optional sign and digits are read as their number if it fits in 64 bits, and refused otherwise |
| Text.OnlyNumeralsParse | pkg/event/handler.go:128 | nothing else is read as a number |
| Text.LeadingZero | pkg/event/handler.go:128 | zeros in front do not matter |
| Urls.ParsePrinted | pkg/database/service.go:107-119 | parsing a row's URL amounts to unescaping its key up to the first "#" or "?" |
| Urls.UnescapeEscaped | pkg/database/service.go:109-114 | whatever bytes are escaped, unescaping gives them back |
| Urls.UnescapeInParts | pkg/database/service.go:109-114 | a string is unescaped piece by piece, and refused if and only if some piece is |
| Urls.BadEscape | pkg/database/service.go:109-112 | a percent sign is refused unless two hexadecimal digits follow |
| Urls.NoOtherHexDigits | pkg/database/service.go:109-112 | both cases of the sixteen digits count, and nothing else |
| Urls.FragmentIs | pkg/database/service.go:109-112 | the fragment is what follows the first number sign |
| Urls.OtherSchemesAreRefused | pkg/database/service.go:109-112 | an empty URL has the empty key, and one that does not start like a row's is refused |
| Urls.UrlRoundTrip | pkg/database/service.go:107-119 | the key printed into a URL is read back if and only if it is free of "%", "?", "#" and control characters |
| Urls.KeyInjective | pkg/database/service.go:203-209 | group names without "/" make keys of different rows differ |
| Urls.CleanKey | pkg/database/service.go:113 | clean group and name make a clean key |
| DatabaseStore.Store.FindById | pkg/database/repository.go:58-69 | loads the row with its lock, or reports that it is missing |
| DatabaseStore.Store.Insert | pkg/database/repository.go:33-41 | stores a row under a fresh id unless a unique index forbids it |
| DatabaseStore.Store.Upsert | pkg/database/repository.go:203-211 | overwrites one row with its slug recomputed, unless a unique index forbids it |
| DatabaseStore.Store.DeleteRow | pkg/database/repository.go:143-181 | deletes exactly an existing, unlocked row |
| DatabaseStore.Store.UpdateId | pkg/database/repository.go:71-78 | moves a row, with its lock, to a free id; a missing row and equal ids change nothing |
| DatabaseStore.Store.LockRow | pkg/database/repository.go:93-124 | locks exactly an existing, unlocked row |
| DatabaseStore.Store.UnlockRow | pkg/database/repository.go:126-141 | removes the lock of a database, whoever holds it, or reports that there is none |
| DatabaseStore.Store.CopyObject | pkg/storage/s3.go:62-76 | copies an object; a missing source and a copy onto itself are errors |
| DatabaseStore.Store.MoveObject | pkg/storage/s3.go:78-90 | copies and then deletes; if the deletion fails both objects remain |
| DatabaseSaves.EnsureLocked | pkg/database/service.go:434-455 | refuses a lock of another instance or user, takes the lock if there is none, and changes nothing else; a lock that it leaves on a failure is due to a failed reload |
| DatabaseSaves.CreateDatabase | pkg/database/service.go:548-560 | adds one new row without a URL |
| DatabaseSaves.Dump | pkg/database/service.go:737-759 | stores the dump under the row's key and then notes URL and size in the row |
| DatabaseSaves.DumpTemporary | pkg/database/service.go:473-481 | whatever fails, all but the temporary row and object stay as they were |
| DatabaseSaves.TakeOver | pkg/database/service.go:501-538 | the temporary row replaces the original under its id, and the lock is set again; it stops early only if a row write fails, and then the lock is lifted unless it could not be |
| DatabaseSaves.Relock | pkg/database/service.go:531-536 | sets the lock that the record had |
| DatabaseSaves.FinalizeSave | pkg/database/service.go:488-539 | moves the dump over the original's object first; a failed copy changes nothing |
| DatabaseSaves.LeftByFinalize | pkg/database/service.go:488-539 | what each stage of the replacement leaves of rows and objects |
| DatabaseSaves.SaveUnderLock | pkg/database/service.go:470-484 | the save of a locked record: success, or one of the stages it can stop at |
| DatabaseSaves.SaveLocked | pkg/database/service.go:457-484 | the same with the final unlock: on success, and on a failure before the dump is in place, the lock stays if and only if it was there before or an unlock failed; on a failure in between, whether it stays is an exact condition on what failed |
| DatabaseSaves.Save | pkg/deployment/service.go:182-190 | on success identity, other rows and other objects are as before and the object holds the dump; a failure up to the copy leaves the original and its object alone; in both cases the lock is as before unless it was not there and a reload or unlock failed, in which case it stays; later failures leave no lock once the row is gone; if no step fails, the save succeeds if and only if it may lock and the temporary name is free |
| DatabaseSaves.StoppedSave | pkg/database/service.go:501-538 | a save that stops once the original row is gone loses only the row's id: the new dump is in place under the old key, its row is there under the temporary id, and all other rows and objects are as they were |
| DatabaseSaves.LocksTogether | pkg/database/service.go:460-468 | what locking, saving and unlocking together leave of the lock |
| DatabaseSaves.FinalRowKeepsIdentity | pkg/database/service.go:511-515 | a saved row keeps name, group, URL, slug, creation time and owner |
| DatabaseOperations.DistinctObjects | pkg/database/service.go:203-209 | distinct rows own distinct objects |
| DatabaseOperations.LinkedKey | pkg/database/service.go:249-254 | a row's URL leads to its own object, or to no key if it is empty |
| DatabaseOperations.Upload | pkg/database/service.go:202-218 | stores the object under the row's key, then the row with that URL; the row is refused after that, with the object written, exactly if its name or slug is taken, or a write fails; any other failure changes nothing; no other object changes unless another row has the name |
| DatabaseOperations.CopyInto | pkg/database/service.go:107-126 | a new row gets its own copy of the object; the copy stays if the row is refused; the same for refusals, other failures and other objects |
| DatabaseOperations.Copy | pkg/database/service.go:94-129 | the copy's row is what was given, under the given name with the source's extension if that is missing; it has the source's content and refers to its own copy of the file store, and no other row or object changes; when it succeeds and when it breaks is exact if no step fails |
| DatabaseOperations.CopiesAre | pkg/database/service.go:94-157 | the two copies written out: fields, names, URLs, slugs and contents |
| DatabaseOperations.CopyNameIs | pkg/database/service.go:100-105 | a copy keeps the given name, and gets the source's extension exactly if it lacks it |
| DatabaseOperations.BaseIsStem | pkg/database/service.go:142-144 | a file store's name is its database's without ".sql.gz.pgc", ".pgc" or ".sql.gz", followed by its own extension |
| DatabaseOperations.CopyBoth | pkg/database/service.go:112-128 | the same once the source is found |
| DatabaseOperations.LinkFileStore | pkg/database/service.go:171-176 | the database refers to the file store's new row, and nothing else changes |
| DatabaseOperations.CopyFileStore | pkg/database/service.go:131-179 | a new row has the file store's content under the derived name, and the database refers to it; a missing file store is no error |
| DatabaseOperations.MoveTo | pkg/database/service.go:355-375 | moves the object and renames the row; whatever fails, no other object changes unless another row has the name; the row is refused, with the object moved, exactly if its name or slug is taken, or a write fails; any other failure leaves at most a copy |
| DatabaseOperations.MoveKeepsOthersIff | pkg/database/service.go:361-366 | a move keeps the objects of all other rows if and only if no other row with an object has the name, or the same content is there already |
| DatabaseOperations.PutKeepsOthersIff | pkg/database/service.go:113-126 | an upload or copy keeps the objects of all other rows if and only if no other row with an object has the group and name, or the same content is there already |
| DatabaseOperations.ClashOverwrites | pkg/database/service.go:361-375 | renaming onto another row's name overwrites its object, unnoticed if the old object stays |
| DatabaseOperations.Rename | pkg/database/service.go:355-383 | renames a database and then its file store, moving both objects; when it succeeds and when it breaks is exact if no step fails |
| DatabaseOperations.RenamesAre | pkg/database/service.go:355-394 | the renaming written out: only name, slug and URL of the two rows change, and each object moves to the key of the new name |
| DatabaseOperations.RenameFileStore | pkg/database/service.go:385-413 | renames the file store after its database and moves its object; a missing file store is no error |
| DatabaseOperations.Remove | pkg/database/service.go:249-265 | deletes the object, if there is a URL, and then the row; it breaks exactly if the row is locked, or a write fails |
| DatabaseOperations.Delete | pkg/database/service.go:239-298 | deletes an unlocked database and its file store with their objects, and a locked database not at all; if no step fails it breaks exactly if the file store is locked and has an object |
| DatabaseOperations.DeleteFileStore | pkg/database/service.go:270-298 | deletes the file store; if it is locked its object goes and its row stays |
| DatabaseOperations.DerivedNamesAreClean | pkg/database/service.go:100-105 | names derived from clean names are clean |
| DatabaseOperations.LinkedAfterMove | pkg/database/service.go:355-375 | moving an object and renaming its row keeps every row linked |
| DatabaseOperations.LinkedAfterSave | pkg/database/service.go:460-539 | so does a save, unless it was interrupted where the temporary row lost its object |
| DatabaseOperations.SaveDatabase | pkg/deployment/service.go:182-190 | a save replaces one row and one object and keeps every row linked; wherever it stops no other row's object changes, and it is interrupted only if a row write fails |
| DatabaseOperations.KeptBySave | pkg/database/service.go:460-539 | a save touches no other row's object, wherever it stops |
| DatabaseOperations.Perform | pkg/database/service.go:94-298 | every operation keeps every row linked unless a row is refused after its object was written, which takes a failed row write, and in a reliable store happens exactly where `Breaks` says; it keeps the objects of all rows it does not concern unless it takes another row's name |
| DatabaseOperations.AdmissibleIs | pkg/database/service.go:94-129 | what the runs below are about: any deletion, and any other operation with clean names |
| DatabaseOperations.Run | pkg/database/service.go:94-539 | over any run of operations in which no row write fails, every row with a URL has the URL of its group and name, its object exists, and distinct rows own distinct objects; in a reliable store a run is broken exactly by its first operation that breaks |
| Multipart.ChunksJoin | pkg/storage/s3.go:258-310 | the chunks joined in order are the stream |
| Multipart.ChunksFit | pkg/storage/s3.go:267-298 | all chunks but the last are exactly 10 MiB, the last is not empty, and their number is the length over 10 MiB rounded up |
| Multipart.ChunkAt | pkg/storage/s3.go:267-298 | the i-th chunk is the i-th stretch of the stream |
| Multipart.Reader.Read | pkg/storage/s3.go:272 | a read of any length, even none, delivers the next bytes of the stream |
| Multipart.ReadFull | pkg/storage/s3.go:272-278 | fills the buffer however the reader splits its reads, and tells a short stream from a full buffer |
| Multipart.Client.Upload | pkg/storage/s3.go:218-235 | sends what the buffer holds at that moment, so reusing the buffer is safe |
| Multipart.ReadChunk | pkg/storage/s3.go:271-282 | one turn of the loop has the next chunk of the stream in the buffer, or the stream is at its end |
| Multipart.UploadParts | pkg/storage/s3.go:264-298 | the parts sent are the chunks numbered from 1 on, and the size is what was read |
| Multipart.StreamUpload | pkg/storage/s3.go:258-310 | success is one completion with all chunks and no abort; a failed part or stream is exactly one abort and no completion; if no call fails, every stream that ends and is not empty is uploaded |
| Multipart.SuccessfulCalls | pkg/storage/s3.go:258-310 | the calls of a successful upload written out: the i-th part has number i and holds the i-th 10 MiB of the stream, and all are completed in order |
| Multipart.PerformBackup | pkg/instance/backupService.go:41-66 | succeeds if and only if producer and upload do; if no call fails the object is assembled if and only if something was written and the producer did not fail, or failed with an end-of-file kind of error |
| BackupPipeline.StepConserves | pkg/instance/filestore.go:49-98 | no step of any goroutine loses or repeats an object |
| BackupPipeline.StepKeepsFaithful | pkg/instance/filestore.go:57-98 | whatever is read, held or written is the object's content, and only small objects are buffered |
| BackupPipeline.StepKeepsOrdered | pkg/instance/filestore.go:47-100 | at most sixteen fetchers; the channel closes only after they returned; the writer stops only after that |
| BackupPipeline.InvariantHolds | pkg/instance/filestore.go:31-101 | in every reachable state the listed objects are exactly those waiting, held by a goroutine, or written |
| BackupPipeline.FinishedArchiveIsComplete | pkg/instance/filestore.go:31-101 | a finished archive has one entry for each listed object, with its content, and none for the marker |
| BackupPipeline.ClosedOnlyAfterReturns | pkg/instance/filestore.go:52-82 | nothing is sent on a closed channel |
| BackupPipeline.OnlySmallAreHeld | pkg/instance/filestore.go:57-82 | in every reachable state contents are held of objects of up to 32 MiB only, and larger ones reach the writer without |
| BackupPipeline.NeverStuck | pkg/instance/filestore.go:47-100 | some step can be taken until the pipeline is finished |
| BackupPipeline.StepReducesWork | pkg/instance/filestore.go:47-100 | every step leaves less to do |
| BackupPipeline.RunsAreBounded | pkg/instance/filestore.go:47-100 | no run is longer than seven steps an object and three more |
| BackupPipeline.BufferedAtMostPeak | pkg/instance/filestore.go:20-24 | never more objects are buffered than are small enough, nor than seventeen |
| BackupPipeline.PeakIsReached | pkg/instance/filestore.go:20-24 | that many are buffered at some point of some run, for every bucket and every listing order |
| BackupPipeline.FetchersBoundBufferedIff | pkg/instance/filestore.go:20-24 | the documented bound of sixteen holds in all reachable states if and only if at most sixteen listed objects other than the marker are small |
| FileStoreRestore.LastEntryWins | pkg/instance/filestore.go:153-171 | a restore replaces exactly the keys its entries write, each by its last entry |
| FileStoreRestore.WrittenByAnEntry | pkg/instance/filestore.go:161-168 | a key is written if and only if a regular entry has that name, with or without "./" |
| FileStoreRestore.RestoresWhatItDescribes | pkg/instance/filestore.go:143-172 | whatever the order of the entries, a restore adds the archive's objects and keeps all others |
| FileStoreRestore.FinishedRunArchives | pkg/instance/minioBackupSource.go:31-57 | every finished run of the pipeline makes an archive of the bucket without the marker |
| FileStoreRestore.PrefixedIsLost | pkg/instance/filestore.go:164-167 | a key that starts with "./" never comes back |
| FileStoreRestore.RoundTrip | pkg/instance/filestore.go:127-172 | archive and restore give back the bucket without the marker if and only if every key is non-empty, does not start with "./" and does not end with "/" |
| FileStoreRestore.BackupThenRestore | pkg/instance/filestore.go:31-172 | the same if-and-only-if for every finished run of the concurrent pipeline |
| FileStoreRestore.BackupWritesMarkerIff | pkg/instance/filestore.go:161-168 | restoring a backup writes the marker's key if and only if the bucket held it with "./" before it |
| FileStoreRestore.BackendsAgree | pkg/instance/filestore.go:143-144 | an archive of a directory tree, with "./" before every name, restores to the same objects |
| FileStoreRestore.ExternalBucket.EnsureBucket | pkg/instance/filestore.go:201-213 | creates a missing bucket, empty |
| FileStoreRestore.ExternalBucket.FilestoreRestored | pkg/instance/filestore.go:180-189 | tells whether the marker is there, or that it could not be asked |
| FileStoreRestore.ExternalBucket.RestoreTarGz | pkg/instance/filestore.go:145-172 | leaves the bucket as after the entries that were passed, all of them on success |
| FileStoreRestore.ExternalBucket.RestoreFilestore | pkg/instance/service.go:64-110 | whatever fails, the bucket is as after a deploy that got so far; success means the marker is there, and if nothing fails it succeeds |
| FileStoreRestore.MarkedIsLeftAlone | pkg/instance/service.go:77-84 | once the marker is there, only the application's own writes change the bucket |
| FileStoreRestore.LastTouchDecides | pkg/instance/service.go:77-84 | once the marker is there a key holds what the application last saved under it, or nothing if it removed it, however many deploys follow |
| FileStoreRestore.UntouchedStays | pkg/instance/service.go:77-84 | and keys that it does not touch stay as they are |
| FileStoreRestore.MarkerMeansRestored | pkg/instance/service.go:64-110 | the marker is there if and only if a deploy wrote it; the first that did had restored its whole archive, and what was written since survives every later deploy |
| FileStoreRestore.PartThenAll | pkg/instance/service.go:86-103 | restoring an archive over a part of it is the same as restoring it at once |
| FileStoreRestore.RetriesConverge | pkg/instance/service.go:64-110 | after any number of failed deploys the one that succeeds leaves the bucket as if it had been the only one |
| FileStoreRestore.MarksTooEarlyIff | pkg/instance/service.go:86-110 | a deploy can fail and leave the bucket marked if and only if an entry before the archive's last writes the marker |
| FileStoreRestore.MarkerInArchiveLosesData | pkg/instance/minioBackupSource.go:40-43 | what such an archive loses: why the listing must leave the marker out |
| EventStream.NotificationsReachTheirOwner | pkg/notification/publisher.go:72-82 | a published notification is streamed to its own user, while in its group, and to nobody else |
| EventStream.SentExactly | pkg/event/handler.go:144-281 | a client is sent a message if and only if it is for one of its groups, names no owner or the client's user, and has a kind and content, which the event then carries |
| EventStream.ResumesAfter | pkg/event/handler.go:122-134 | the id of an event resumes the stream at the next offset |
| EventStream.HeaderDecides | pkg/event/handler.go:122-134 | no header means the next message, a header that is no 64-bit number is refused, and any other means the number after it, wrapping around |
| EventStream.FirstConnectStartsNow | pkg/event/handler.go:117-126 | until a client has received something, each of its connections starts at the end of the stream |
| EventStream.NoOldEvents | pkg/event/handler.go:117-120 | in no run does a client receive a message published before it first connected |
| EventStream.SilentDropLoses | pkg/event/handler.go:117-126 | nor one published before a later connection, if it had received nothing until then |
| EventStream.NothingMissedSinceConnecting | pkg/event/handler.go:117-134 | from its first connection on it misses nothing, unless that is dropped before it has received anything |
| EventStream.EventsInOrder | pkg/event/handler.go:257-281 | each event belongs to one accepted message, and ids ascend |
| EventStream.EventsComplete | pkg/event/handler.go:219-251 | every accepted message contributes its event |
| EventStream.StepKeepsOrder | pkg/event/handler.go:38-115 | every step keeps what was received, and what is under way, in sequence |
| EventStream.StepIsAsSaid | pkg/event/handler.go:55-90 | a published message joins the stream and nothing else changes it; a client in some group starts where its header says, and before the first message if that is negative |
| EventStream.RunsStayInOrder | pkg/event/handler.go:38-134 | so does every run of connects, deliveries and drops |
| EventStream.NothingLostOrRepeated | pkg/event/handler.go:117-134 | over any run a client has received exactly the accepted messages from its first to its last event, each once and in order, and once caught up all since its first |
| EventStream.CatchesUp | pkg/event/handler.go:117-134 | a client that has received something can always catch up without a further message |
| EventStream.CanConnect | pkg/event/handler.go:55-66 | in every run a client that is not connected can connect if and only if it is in some group |
| EventStream.PublishedArrives | pkg/event/handler.go:68-115 | a message for a connected client can always reach it, as its last event |
| RefreshTokens.KeysOfOneUser | pkg/token/repository.go:45-47 | the pattern of one user never matches the key of another |
| RefreshTokens.KeyDeterminesToken | pkg/token/repository.go:21-30 | a key stands for one user and one token id |
| RefreshTokens.TokenKeyIs | pkg/token/repository.go:21-22 | a token is stored under its user's id, a colon and its own |
| RefreshTokens.StepKeepsRedeemed | pkg/token/repository.go:29-42 | a redeemed key stays gone |
| RefreshTokens.StepKeepsOneHolder | pkg/token/service.go:76-108 | a chain has one live token, or one request about to store one, or neither |
| RefreshTokens.StepKeepsUsers | pkg/token/service.go:76-108 | a chain stays with the user who signed in |
| RefreshTokens.RunsStaySound | pkg/token/service.go:76-108 | all of this holds however requests interleave, fail, or crash |
| RefreshTokens.RedeemedOnce | pkg/token/service.go:76-81 | each refresh token is redeemed at most once |
| RefreshTokens.RedeemNeedsLive | pkg/token/repository.go:29-42 | a refresh is granted if and only if its token is in the store, and the token is then gone |
| RefreshTokens.GrantsAreRecorded | pkg/token/repository.go:29-42 | what is recorded as redeemed contains every refresh that was granted |
| RefreshTokens.GrantedOnce | pkg/token/service.go:76-108 | no two steps of a run are refreshes granted for the same token |
| RefreshTokens.RequestsHappenOnce | pkg/token/service.go:76-108 | a request begins once and ends once, so it stores at most one token |
| RefreshTokens.OneLiveTokenPerChain | pkg/token/service.go:76-108 | a sign-in chain has at most one live token, and none while a refresh is about to store one |
| RefreshTokens.SignedOutForGood | pkg/token/service.go:132-134 | a user without tokens stays signed out until the next sign-in if and only if none of the user's requests was under way |
| RefreshTokens.TokenStore.DeleteRefreshToken | pkg/token/repository.go:29-42 | succeeds if and only if the store answered and had the token |
| RefreshTokens.TokenStore.SetRefreshToken | pkg/token/repository.go:21-27 | stores the new token, or ends the request |
| RefreshTokens.TokenStore.GetTokens | pkg/token/service.go:76-108 | takes the steps of one request; the old token goes before the new one comes, and nothing else changes; if no command fails it succeeds exactly for a live token or a sign-in |
| RefreshTokens.TokenStore.Scan | pkg/token/repository.go:48-57 | finds every key of the pattern, some perhaps twice, unless it breaks off |
| RefreshTokens.TokenStore.DeleteRefreshTokens | pkg/token/repository.go:45-66 | never removes another user's token; on success the user has none |

## Left out

- Save: the temporary name and the destination are assumed to be used by nobody else meanwhile; two saves of one database by the same instance and user are not excluded by the code and may interfere.
- DumpTemporary: the database dump is a value; starting `pg_dump` in a pod and choosing its format are not part of this model.
- Store: description, file-store link and external downloads are not carried over by a save in the source either; external downloads are not modelled at all.
- Run: stops at the first `broken` operation and claims nothing of the rows' links from there on; it assumes group names without "/" and clean names.
- FreshId: an id is fresh if no row has it or refers to it, as with a sequence that never hands out an id twice.
- TwoPassesAreEnough: assumes that no provider reads a value that its own stack consumes; the registered ones read the instance's name and group only. For other providers PassesByHeight gives the bound.
- PassesByHeight: assumes that the passes succeed; when a pass succeeds is stated for the providers of TwoPassesAreEnough only.
- CreatedRegistryIsSound: assumes that no required stack carries a consumed name without being a source of it, which the creation of a registry does not check.
- KeyOf: URLs of another scheme than the rows have are refused rather than parsed; strings are characters, not UTF-8 bytes.
- DeleteInstance: the companion checks see values in the clear, while the source runs them on values as stored, where sensitive ones are encrypted.
- ResolveParameters: the source also writes the consumer's group into the source instance; here only the provider sees it. Instances are values, so aliasing between them is not modelled.
- SaveInstance: validation runs before defaults are filled in, so a companion that only a default demands is not checked; that a stored deployment can be deployed is not claimed.
- DeleteDeployment: that requirements stay present after a partly failed deletion is not claimed, since the source does not keep it.
- UpdateInstanceParameters: resolves the whole deployment but stores one instance, so stored consumed values of the others are not claimed to agree.
- BackupPipeline: the error paths of the archive writer, whose early returns close the channel while fetchers may still send; listing, fetch and write fail in no modelled run.
- Stored: an object with content whose key ends with "/" makes the tar writer fail; here it becomes an entry without content.
- MarkerMeansRestored: assumes that no deployed archive and no live write uses the marker's key.
- NothingLostOrRepeated: the user's groups do not change between connections, the stream is not truncated, and the consumer is delivered every message from its offset on; the broker's own reconnects are not part of this model.
- MapMessageToEvent: the retry interval with its random jitter.
- GetTokens: signing and validating tokens; a generated id is assumed not to have been used before.
- DeleteRefreshTokens: the scan sees the keys of one moment; requests that interleave with a sign-out are covered by the machine, not by this method.
- StreamUpload: part numbers above the store's limit are modelled as a refused part.
- PerformBackup: the producer runs to its end before the upload is accounted for, so cancelling one side because the other failed is not modelled.
- Deleting a deployment when its last instance goes, recording backups, and backups and restores inside pods.
- The registry assumes that each copy of a stack among another's requirements equals the registered stack of that name.
- The concrete stacks, ciphers, JWT, gzip and tar bytes, Redis, Kubernetes, helmfile, RabbitMQ and the HTTP layer.
- pkg/instance/restoreService.go, which nothing uses.
- The wording of error messages.
