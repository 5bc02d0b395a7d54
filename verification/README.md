# CoachIQ core: a verified model

This project models the parts of the CoachIQ backend whose correctness spans many steps,
and proves what they are for.

**The service start-up scheduler** is the centre. A resolver keeps a graph of Required
dependencies and its transpose, substitutes fallbacks, rejects cycles, peels the graph into
stages, rewrites those stages in place and measures depths. A registry then runs the stages;
inside a stage every service has its own starter, and the starters interleave at their awaits.
The main result joins the two halves: *for every sequence of registrations, repeated names
included, and every interleaving, start-up succeeds if and only if every Required dependency is
registered, no edge ever required closes a cycle, and every initialisation comes up by itself;
and however it ends, it ends in a state that does not depend on the interleaving*
(`Registry.RegisterAndStart`).

**Around it** stand six smaller systems: the entity manager, the configuration merge, the
document chunkers, the vehicle safety state engine, the timed caches of the configuration
service and the layered grouping script.

| file | contents |
|---|---|
| `Services.dfy`, `Names.dfy` | names and their sorting, dependencies, `Option` |
| `Graphs.dfy` | walks, cycles, levels, distances |
| `Chains.dfy` | chains that mix current dependencies and stale edges |
| `Sorter.dfy` | graphlib's sorter, driven batch by batch |
| `BreadthFirst.dfy` | breadth-first search with a queue that may repeat vertices |
| `Resolver.dfy` | `ServiceDependencyResolver` |
| `Histories.dfy` | resolvers over several registrations and resolutions |
| `Startup.dfy` | start-up as a state machine over all schedules |
| `Registry.dfy` | `EnhancedServiceRegistry`, a refinement of the state machine on top of the resolver |
| `EntityManager.dfy` | `EntityManager` and its histories |
| `ConfigMerge.dfy` | `deep_merge` and its algebra |
| `Chunkers.dfy`, `Tokens.dfy` | sliding windows, sections, token chunks |
| `SafetyEngine.dfy` | `SafetyStateEngine` over event histories |
| `SpecCache.dfy` | the layered caches and the check for modified files |
| `RefactorOrder.dfy` | `topological_sort` and `find_circular_dependencies` |

Objects whose methods update fields are classes with those fields; each method is proved
against a specification, and the specification's properties are lemmas. Where the order of
iterating over a dict matters, in the reassignment of stages and in bulk loading, the model
follows the dict's order; everywhere else it takes the elements of a dict or a set in an
arbitrary order, so those results hold for every order. The return of an initialiser, the
clock and the content of files are parameters.

## Where the code departs from what one would expect

The model follows the code in each of these places. Each line names the member that shows the
departure or says exactly when it occurs.

* **Fallbacks do not help.** Substitution changes the graph, but staging and the starters look
  only at the primary name. `tests/test_service_dependency_resolver.py:122-137` expects the
  dependent in stage 1; the code yields stage 0 (`Histories.FallbackExample`), and its start fails
  on the primary name (`Startup.UpExactlyWhen`).
* **Resolving twice after a substitution** stops at the edge that the first resolution removed
  (`Histories.ResolveTwice`, an if-and-only-if), and registering the missing service afterwards
  does not bring that edge back, so that the stages need not repeat either
  (`Histories.LateRegistration`); `Histories.ResolveAgain` says when they do.
* **Registering a name again** replaces the node and keeps the old edges. Dependencies still come
  first and resolving again still repeats the stages. A stage is then the length of the longest
  *mixed* chain (`Resolver.PassRestages`), which can exceed the longest current one, and an
  impacted service can share the stage of the one that impacts it (`Histories.StaleEdges`).
  `Resolver.CurrentChainsExactlyWhen` and `Resolver.ImpactedLaterExactlyWhen` say when they do
  not, by the order of registration and the edges.
* **An impacted service can have been started** when a fallback was substituted
  (`Registry.FallbackImpacted`) or an edge is stale (`Registry.StaleImpacted`). With no dependency
  missing, `Registry.RegisterAndStart` says exactly which services have been, by their mixed
  chains.
* **Optional dependencies create no edges.** The injection of one depends on the schedule exactly
  when it is another service of the same stage that comes up
  (`Startup.InjectionVariesExactlyWhen`).
* **A second start-up** takes dependencies down below HEALTHY dependents
  (`Startup.SecondStartLowers`), and it is harmless exactly when no service has a Required
  dependency (`Startup.SecondStartHarmsExactlyWhen`).
* **`deep_merge` is not associative.** `ConfigMerge.AssociativeExactlyWhen` and
  `ConfigMerge.PreMergedExactlyWhen` say exactly when bracketing does not matter.
* **Section chunks with an overlap of 0** carry the whole previous chunk, so each chunk repeats
  the document so far (`Sections.ZeroOverlapAccumulates`); `Sections.CarryBoundedExactlyWhen` says
  when a chunk carries at most the overlap.
* **A section chunk's pages** are those of its own lines; by `Sections.PagesCompleteExactlyWhen`
  that covers the carried lines too exactly when the first of them is on the heading's page.
  `Sections.TwoHeadings` is a document on which this and the bound on carried lines fail.
* **Token chunks number pages among the kept ones**: the page mapping the original builds is not
  read, so the numbers are the document's exactly when no page is skipped
  (`Tokens.NumbersRightExactlyWhen`).
* **Bulk loading forgets entities but neither devices nor the protocol index**, so on a used
  manager it can fail, and can leave an index that is not the scan;
  `EntityManager.EntityManager.BulkLoadEntities` says exactly when.
* **The safety engine never reaches UNSAFE** and its transition table plays no part
  (`SafetyEngine.StateIsLastEvents`). Leveling passes when no brake was ever reported, and the
  engine may start when no gear was (`SafetyEngine.OperationRules`).
* **The check for modified files is never quiet**: it wipes the timestamps it has just recorded
  (`SpecCache.RepeatedCheckIsNotQuiet`).

## Model

| member | source | states |
|---|---|---|
| Resolver.ServiceDependencyResolver.AddService | backend/core/service_dependency_resolver.py:73-88 | The node is replaced and keeps its place in the order of first registration, the Required edges are added to whatever edges the name had, no other service's edges change, the reverse graph stays the exact transpose, and every current Required dependency stays an edge. |
| Resolver.CoversAfterRegistration | backend/core/service_dependency_resolver.py:73-88 | Registering a name keeps every registered dependency an edge if and only if no other service has lost its edge to that name. |
| Resolver.ServiceDependencyResolver.ValidateService | backend/core/service_dependency_resolver.py:118-142 | One service's validation: the rejection or the substituted edges are those of `CheckFrom`; other services' edges and the transpose survive; no edge to a registered service is lost and no edge to an unregistered one is added. |
| Resolver.ServiceDependencyResolver.ValidateDependencies | backend/core/service_dependency_resolver.py:114-142 | All services are accepted with exactly the substituted edges, or some service's rejection is reported, whatever the order in which services are visited; recorded cycles remain real cycles. |
| Resolver.CheckMeaning | backend/core/service_dependency_resolver.py:119-142 | Validation accepts a service if and only if each unregistered Required dependency has a registered fallback, is still an edge and is named once; it then replaces exactly those edges by their fallbacks. |
| Resolver.RejectionMeaning | backend/core/service_dependency_resolver.py:119-142 | A rejected service is rejected at its first unregistered Required dependency that has no registered fallback, and then all its missing names are reported, or whose edge is gone or was named before, and then that edge is. |
| Resolver.RejectedMeaning | backend/core/service_dependency_resolver.py:114-142 | What a resolution reports on rejecting is said of one registered service in that way. |
| Resolver.MissingNamesMeaning | backend/core/service_dependency_resolver.py:132-142 | The names reported as missing are exactly the unregistered Required ones, in the order of the dependency list. |
| Resolver.SecondValidationFails | backend/core/service_dependency_resolver.py:120-129 | Validating an accepted service again succeeds if and only if nothing had to be substituted. |
| Resolver.SecondCheck | backend/core/service_dependency_resolver.py:128-129 | The second validation either changes nothing or stops at an edge that is gone; it never reports a missing dependency. |
| Histories.ResolveTwice | backend/core/service_dependency_resolver.py:90-112 | After a successful resolution a second one succeeds if and only if every Required dependency is registered, and else stops at a removed edge; when it succeeds it stages every service alike, stale edges or not, provided every registered dependency was an edge. |
| Histories.ResolveAgain | backend/core/service_dependency_resolver.py:90-112 | In general a resolution after a successful one, if it succeeds, repeats the stages if and only if the nodes it starts from are steady: each stage is already the one after the dependencies' as the pass will see them, vertices registered later at their level. |
| Resolver.PassAgrees | backend/core/service_dependency_resolver.py:216-228 | Two passes of the in-place reassignment in the same order, from nodes that agree on the stages of all that is Required, end in the same stages. |
| Histories.SecondPass | backend/core/service_dependency_resolver.py:182-231 | A second resolution with nothing to substitute works on the same graph and repeats the stages of the first. |
| Histories.LateRegistration | backend/core/service_dependency_resolver.py:73-142 | When a service's missing dependency is registered after a resolution has substituted its fallback, the next resolution puts both in stage 0 and the one after that puts the service in stage 1. |
| Histories.StaleEdges | backend/core/service_dependency_resolver.py:81-88 | When a dependency of a dependency was dropped by registering again, a service lands in stage 2 with a longest current chain of 1, and a service is impacted by one of its own stage. |
| Resolver.ServiceDependencyResolver.Dfs | backend/core/service_dependency_resolver.py:149-171 | A found cycle is recorded as one closed walk of real edges; otherwise everything visited is finished: closed under edges and on no cycle. |
| Resolver.ServiceDependencyResolver.DetectCircularDependencies | backend/core/service_dependency_resolver.py:144-180 | Sound and complete: it raises if and only if the graph has a cycle, and then exactly one path is recorded, which is one. |
| Sorter.Batches | backend/core/service_dependency_resolver.py:185-197 | The batches of graphlib's sorter use up the graph if and only if it is acyclic, and batch `k` then holds exactly the vertices of level `k`. |
| Sorter.PeelingLevels | backend/core/service_dependency_resolver.py:189-197 | Any peeling that uses up the graph hands each vertex out in the batch one above its highest successor. |
| Graphs.LevelIsLongestChain | backend/core/service_dependency_resolver.py:182-197 | Levels are unique: a vertex's level is the length of the longest chain of edges from it. |
| Graphs.NoSinkMeansCycle | backend/core/service_dependency_resolver.py:185-187 | A nonempty set in which everything waits for something in it contains a cycle. |
| Graphs.FinishedAllAcyclic | backend/core/service_dependency_resolver.py:168-180 | If the search finished with every vertex that has edges, the graph is acyclic. |
| Resolver.ServiceDependencyResolver.CalculateStages | backend/core/service_dependency_resolver.py:182-201 | A cycle is reported if and only if there is one; otherwise every registered vertex of the graph gets its level, isolated services keep what they had, and the interim stage lists hold exactly the vertices of each level. |
| Resolver.ServiceDependencyResolver.ReassignStages | backend/core/service_dependency_resolver.py:213-231 | The loop that overwrites the stages it reads computes one pass over the nodes, in registration order, and collects each service under its new stage. |
| Resolver.PassRestages | backend/core/service_dependency_resolver.py:213-231 | After a pass in any order over levelled nodes, with edges for all registered dependencies, each service's stage is exactly the length of its longest mixed chain: one that starts with a current dependency, goes on along current dependencies as long as each was registered before its dependent, and after the first that was not along any edges. |
| Chains.StageIsLongestMixed | backend/core/service_dependency_resolver.py:216-228 | Any numbers that lie one above the highest dependency, counted by its new number if it came earlier and by its level if it comes later, are the lengths of the longest mixed chains. |
| Resolver.PassLists | backend/core/service_dependency_resolver.py:213-231 | A pass changes nothing but stages and lists every service once, under its stage. |
| Resolver.CollectedInOrder | backend/core/service_dependency_resolver.py:213-231 | Each stage lists its services in registration order. |
| Resolver.PassBare | backend/core/service_dependency_resolver.py:216-228 | After a pass every service without registered Required dependencies is in stage 0. |
| Resolver.MixedStagesAscend | backend/core/service_dependency_resolver.py:213-231 | Longest-mixed-chain stages put every registered Required dependency in a strictly earlier stage. |
| Resolver.ServiceDependencyResolver.CalculateDepths | backend/core/service_dependency_resolver.py:233-259 | Every service that leads down along edges to a registered service without any gets the length of its shortest way there as depth; the others keep their depth. Nothing else changes. |
| Resolver.RootsMeaning | backend/core/service_dependency_resolver.py:236-242 | The search starts from exactly the names that are registered or keys of the graph and have no edges. |
| Resolver.DistanceIsDown | backend/core/service_dependency_resolver.py:236-259 | A distance from those names in the reverse graph is the length of the shortest way down in the graph. |
| Resolver.DepthIsOneMore | backend/core/service_dependency_resolver.py:244-259 | A measured service has depth 0 if and only if it has no edges, and is otherwise one deeper than the least deep measured service it has an edge to. |
| BreadthFirst.Depths | backend/core/service_dependency_resolver.py:244-259 | The queue with repetitions visits exactly the vertices that a root leads to and assigns each its distance from the nearest root. |
| Resolver.MeasuredExactlyWhen | backend/core/service_dependency_resolver.py:233-259 | On an acyclic graph the search visits every service if and only if each service with edges has one to a registered service. |
| Resolver.AcceptedKeepsRegistered | backend/core/service_dependency_resolver.py:119-142 | Without stale edges an accepted validation, fallbacks included, leaves only edges to registered services, so every service is visited. |
| Resolver.DepthWithinStage | backend/core/service_dependency_resolver.py:203-259 | When the edges are exactly the registered dependencies, every service's depth is the length of its shortest chain of edges down to a service without any, and at most its stage. |
| Resolver.ServiceDependencyResolver.OptimizeStages | backend/core/service_dependency_resolver.py:203-231 | Depths become the lengths of the shortest ways down, which leaves the stages alone, and the stages those of one pass over the measured nodes. |
| Resolver.ServiceDependencyResolver.StageServices | backend/core/service_dependency_resolver.py:104-110 | On an acyclic graph stages are well formed: every service listed once, in registration order within its stage, longest-mixed-chain lengths with dependencies strictly earlier; depths are the lengths of the shortest ways down, a service without any keeps its depth, and every service is measured if and only if each service with edges has one to a registered service; a cycle is reported exactly when there is one. |
| Resolver.ServiceDependencyResolver.ResolveDependencies | backend/core/service_dependency_resolver.py:90-112 | Succeeds if and only if validation accepts every service and the resulting graph is acyclic; each error says which; the "unexpected cycle" branch is unreachable; on success stages and depths are well formed. |
| Resolver.ServiceDependencyResolver.GetStartupOrder | backend/core/service_dependency_resolver.py:306-316 | The order is a permutation of the services, by stage and inside a stage by name. |
| Resolver.OrderDetermined | backend/core/service_dependency_resolver.py:306-316 | For given stages there is only one such order. |
| Names.SortedAscending | backend/core/service_dependency_resolver.py:306-316 | Sorting names keeps them all and puts them in strict lexicographic order. |
| Names.BeforeMeaning | backend/core/service_dependency_resolver.py:306-316 | The order is the lexicographic one: up to some position the names agree, and there the first one ends or has the smaller character. |
| Resolver.DependenciesFirst | backend/core/service_dependency_resolver.py:306-316 | In that order every registered Required dependency precedes its dependent. |
| Resolver.ServiceDependencyResolver.GetImpactedServices | backend/core/service_dependency_resolver.py:345-364 | Terminates on every graph, cyclic ones included, with exactly the services that have a nonempty path of Required edges to the failed one. |
| Resolver.ImpactedLaterExactlyWhen | backend/core/service_dependency_resolver.py:345-364 | Everything impacted by a registered service sits in a strictly later stage if and only if, wherever an edge that is no current dependency leads to a registered service, some mixed chain from its source is longer than every one from its target. |
| Resolver.ImpactedLaterWhenExact | backend/core/service_dependency_resolver.py:345-364 | It does when the edges are exactly the registered dependencies. |
| Resolver.StageBetween | backend/core/service_dependency_resolver.py:182-231 | So no chain of current Required dependencies is longer than a service's stage, and some chain of edges is exactly as long. |
| Resolver.CurrentChainsExactlyWhen | backend/core/service_dependency_resolver.py:213-231 | Stages are the lengths of the longest current chains if and only if no current dependency registered after its dependent leads to a chain of edges with which the dependent's longest current chain cannot keep up. |
| Chains.MatchedExactlyWhen | backend/core/service_dependency_resolver.py:213-231 | That condition on single late dependencies holds if and only if every mixed chain is matched by a current chain at least as long. |
| Resolver.StageIsLongestChain | backend/core/service_dependency_resolver.py:182-231 | Without other edges than the registered dependencies, a service's stage is the length of its longest chain of edges, and no other number is. |
| Resolver.StagesDetermined | backend/core/service_dependency_resolver.py:213-231 | Stages depend on nothing but the current dependencies, the edges and the order of registration: two resolutions list the same services under the same numbers. |
| Histories.FallbackExample | tests/test_service_dependency_resolver.py:122-137 | Registering a service that needs an unregistered one with a fallback, and the fallback, and resolving: the edge is swapped, the resolution succeeds, and both land in stage 0. |
| Startup.StepKeepsInvariant | backend/core/service_registry.py:388-565 | Every segment of every starter, and every return of `gather`, keeps each service's status, stored instance and phase in agreement with its fixed outcome. |
| Startup.EveryRun | backend/core/service_registry.py:341-425 | That invariant holds at every point of every schedule of a first start-up. |
| Startup.CheckIsStatic | backend/core/service_registry.py:441-448 | At any moment of any schedule the dynamic dependency check finds exactly the first unregistered Required dependency. |
| Startup.CheckNeverTrips | backend/core/service_registry.py:441-448 | When all Required dependencies are registered, no starter ever fails, and none is blamed, for want of a dependency. |
| Startup.HealthyMeansReady | backend/core/service_registry.py:222-227 | At every point of every first start-up, successful or failing, a service whose status is HEALTHY is stored, and each of its Required dependencies is stored and HEALTHY too. |
| Startup.SecondStartHarmsExactlyWhen | backend/core/service_registry.py:427-438 | After a first start-up that is up, some schedule of a second one reaches a point where a HEALTHY service lacks an available Required dependency if and only if any service has a Required dependency. |
| Startup.SecondStartLowers | backend/core/service_registry.py:438 | Beginning the second start of any first-stage dependency does it: the dependency is back at STARTING below a dependent that is still HEALTHY. |
| Startup.FailureContained | backend/core/service_registry.py:404-425 | Nothing in a stage after that of a service bound to fail is ever started, stored or blamed. |
| Startup.RunEndsAsPlanned | backend/core/service_registry.py:388-425 | A finished run is the one the plan predicts: the first stage with a failure stops it, and statuses, stored services and errors are those of each service's outcome. |
| Startup.RecordsAtEnd | backend/core/service_registry.py:388-565 | Service by service: up to the last stage, one with an unregistered Required dependency is FAILED for the first of them and not stored; any other is HEALTHY and stored, or FAILED with its own error, and stored if it was its own start-up that raised; beyond that stage there are no records. |
| Startup.SchedulesAgree | backend/core/service_registry.py:388-402 | Any two schedules of one plan end with the same verdict, stage, statuses, services and errors. |
| Startup.UpExactlyWhen | backend/core/service_registry.py:341-386 | A finished run is up if and only if every service has its Required dependencies registered and comes up by itself. |
| Startup.FirstUnregisteredMeaning | backend/core/service_registry.py:441-448 | The first unregistered Required dependency is the first one in the list's order; there is none if and only if all of them are registered. |
| Startup.InjectionIsPlanned | backend/core/service_registry.py:451-465 | In every schedule each initialiser gets, under each keyword that no dependency of its own stage has, the instance of the last dependency with this keyword in an earlier stage, and nothing if there is none. |
| Startup.RequiredIsInjected | backend/core/service_registry.py:451-465 | A Required dependency whose keyword no other service's dependency has is registered, comes up, and is injected under that keyword as its own instance. |
| Startup.InjectedExactlyWhen | backend/core/service_registry.py:438-466 | For a dependency whose keyword no other service's has, the values that some schedule injects under that keyword are exactly these, provided the service misses nothing Required and no earlier stage fails: its instance, if it is in an earlier stage or is another service of the same stage that comes up; nothing, if it is not in an earlier stage. |
| Startup.InjectionVariesExactlyWhen | backend/core/service_registry.py:457-465 | Two schedules can inject differently if and only if the dependency is another service of the same stage that comes up. |
| Startup.StageReached | backend/core/service_registry.py:360-425 | Every stage is reached by some schedule if no earlier one fails. |
| Startup.KeywordMeaning | backend/core/service_registry.py:455 | The keyword of a dependency is the one it names, if that is not empty, and else its own name with exactly the hyphens turned into underscores. |
| Startup.KwargsMeaning | backend/core/service_registry.py:451-465 | The argument under a keyword is the instance of the last dependency with that keyword that is stored and HEALTHY; there is none if no such dependency is. |
| Startup.BeginMeaning | backend/core/service_registry.py:438-466 | The first segment, from the records alone: FAILED for the first Required dependency that is not stored and HEALTHY, or else STARTING with exactly those arguments. |
| Registry.EnhancedServiceRegistry.RegisterService | backend/core/service_registry.py:288-322 | Definitions and resolver stay in step; edges only grow. |
| Registry.EnhancedServiceRegistry.BeginStarter | backend/core/service_registry.py:438-466 | The first segment changes the records as the state machine's first step does: the service is FAILED for its first Required dependency that is not stored and HEALTHY, or is STARTING and its initialiser is called with, under each keyword, the instance of the last stored and HEALTHY dependency that has it. |
| Registry.EnhancedServiceRegistry.InitialiserReturned | backend/core/service_registry.py:494-500 | The second segment stores the instance that the initialiser returned, or marks the service FAILED with what it raised; this is the state machine's second step. |
| Registry.EnhancedServiceRegistry.StartupReturned | backend/core/service_registry.py:511-551 | The last segment marks the service HEALTHY, or FAILED with what its start-up raised; this is the state machine's last step. |
| Registry.EnhancedServiceRegistry.RunStarters | backend/core/service_registry.py:394-402 | Starters interleaved segment by segment in any order follow a schedule of the state machine until all of them have ended. |
| Registry.EnhancedServiceRegistry.RecordFailures | backend/core/service_registry.py:404-411 | Matching results to names by position records exactly the failures of the stage, each under its own name and in the order of the names. |
| Registry.EnhancedServiceRegistry.ExecuteStage | backend/core/service_registry.py:388-425 | A stage takes the state machine from its entry to its `gather`; it names exactly the failed starters, in the order of the stage's list, each with exactly the services that have a chain of edges to it, or goes on. |
| Registry.EnhancedServiceRegistry.RunStages | backend/core/service_registry.py:360-362 | The stages in sorted order are a complete run of the plan, stopping at the first failing stage. |
| Registry.EnhancedServiceRegistry.PlanStages | backend/core/service_registry.py:351-362 | A successful resolution yields a plan that stages every service and puts every registered Required dependency strictly earlier. |
| Registry.PlanIsWell | backend/core/service_registry.py:361-362 | Stage numbers without their gaps keep every dependency strictly before its dependent. |
| Registry.EnhancedServiceRegistry.StartupAll | backend/core/service_registry.py:341-386 | On a registry never started, whose graph has every edge between registered services: start-up succeeds if and only if all Required dependencies are registered, the graph is acyclic and every service comes up; either way it ends as planned. On any registry: without a resolution the records are untouched and the reason is a true one; with one, what happens is a run of the plan. |
| Registry.StartupVerdict | backend/core/service_registry.py:341-386 | The verdict of a finished run and the condition on registrations are the same. |
| Registry.RegisterAndStart | backend/core/service_registry.py:288-425 | From any sequence of registrations, in every interleaving: started if and only if it can start, and then every service is HEALTHY and holds its own instance; a failed stage names exactly its services bound to fail, and exactly the services up to that stage have been touched; with no Required dependency missing, the resolution succeeds exactly when no edge ever required closes a cycle, the impacted services are those with a chain of edges to a failed one, and a service has a status or an instance if and only if no mixed chain from it is longer than all those from a failed one; with no stale edge besides, no impacted service has any. |
| Registry.ChainsOrderLevels | backend/core/service_registry.py:361-362 | The order of start-up levels is the order of the lengths of the longest mixed chains. |
| Registry.DistinctNothingStale | backend/core/service_registry.py:288-322 | Distinct registrations leave no stale edge. |
| Registry.TouchedExactlyWhen | backend/core/service_registry.py:404-425 | After a failed start-up a service has a status or an instance if and only if it is not in a later stage than the failure. |
| Registry.FallbackImpacted | backend/core/service_registry.py:413-425 | With a dependency missing, none of this need hold: when a fallback's initialisation fails, the service that fell back on it is reported as impacted, and it has itself been started, and failed, in the same stage. |
| Registry.StaleImpacted | backend/core/service_registry.py:413-425 | With a stale edge it need not either: when a service was registered again without a dependency that then fails, it is reported as impacted and has been started. |
| EntityManager.EntityManager.RegisterEntity | backend/core/entity_manager.py:43-111 | The four records and the answer after a registration, entry by entry: a new device gets an entity with the caller's protocol and the id filled in where missing, its entries in device map and index, and one in the light list if it is a light; a known one gets the protocol added to its entity, unless it is there already, and to the index, and nothing else; an entry for a lost entity fails. |
| EntityManager.IndexKeptExactlyWhen | backend/core/entity_manager.py:70-103 | The protocol index keeps agreeing with the scan if and only if the device is known or the new configuration brings no protocol besides its primary one and those its id already had. |
| EntityManager.DevicesKeptExactlyWhen | backend/core/entity_manager.py:69-96 | The device map stays a bijection if and only if the device is known or the id is new. |
| EntityManager.LightsKeptExactlyWhen | backend/core/entity_manager.py:94-106 | The light list keeps naming exactly the lights, each once, if and only if no light's entity is replaced by that of a new device. |
| EntityManager.FirstRegistrantWins | backend/core/entity_manager.py:70-92 | Registering a known device answers with its first entity and changes neither the entities' set, their primary protocols, the device map nor the lights. |
| EntityManager.OrderlyHistory | backend/core/entity_manager.py:43-111 | From an empty manager, while no id stands for two devices and no configuration presets secondaries, index and scan agree, the device map is a bijection and the light list names each light once and nothing else, after any history. |
| EntityManager.FirstRegistrantStays | backend/core/entity_manager.py:69-96 | After any history from an empty manager, each registered device belongs to the entity registered first for it, and no other device is known. |
| EntityManager.ProtocolsAreCallers | backend/core/entity_manager.py:78-92 | If configurations name their caller's protocol or none, a device is reachable through exactly the protocols that registered it. |
| EntityManager.OrderIndependent | backend/core/entity_manager.py:78-92 | Two orders of the same registrations leave every device with the same protocols. |
| EntityManager.EntityManager.FilterEntities | backend/core/entity_manager.py:143-179 | The scan returns, unchanged, exactly the entities that have the device type, the area and, as primary or secondary one, the protocol asked for; one that names no protocol counts as RV-C. |
| EntityManager.EntityManager.GetEntitiesByProtocol | backend/core/entity_manager.py:181-191 | Exactly the entities reachable through the protocol, unchanged, which are those that the index lists while it is right. |
| EntityManager.EntityManager.BulkLoadEntities | backend/core/entity_manager.py:235-249 | Loading is a history of registrations on emptied entities but old devices and an old protocol index; it comes through if and only if each configuration of a device known before follows the one that brings that device's entity back, and otherwise stops at the first that does not, naming the lost entity; when it comes through, index and scan agree if and only if the old index fits; each entity is as configured. |
| EntityManager.LoadedAsConfigured | backend/core/entity_manager.py:243-247 | However far a load comes, each entity it has made is as its configuration says, with RV-C as protocol if that names none, and at most RV-C as a further way to reach it. |
| EntityManager.LoadedIndexExactlyWhen | backend/core/entity_manager.py:243-247 | The old index fits if and only if every old entry is for a protocol that the load enters or presets for that entity, and every preset protocol is entered or is an old entry. |
| EntityManager.LoadsInEveryOrderExactlyWhen | backend/core/entity_manager.py:243-247 | Loading comes through in every order if and only if no configuration's device was known before. |
| EntityManager.LoadsInSomeOrderExactlyWhen | backend/core/entity_manager.py:243-247 | It comes through in some order if and only if the known devices' entities are all configured, each for a new device of its own. |
| ConfigMerge.DeepMerge | backend/core/config_loader.py:58-83 | The key-by-key loop computes the recursive merge. |
| ConfigMerge.PathLaw | backend/core/config_loader.py:72-83 | What a merged configuration holds at any path: a dictionary with the keys of both where both have one; else the source's own value where it has one; nothing below a non-dictionary of the source; else the destination's value. |
| ConfigMerge.MergeIdempotent | backend/core/config_loader.py:72-83 | Merging a layer into itself changes nothing. |
| ConfigMerge.MergeAbsorbs | backend/core/config_loader.py:72-83 | Applying either layer a second time changes nothing. |
| ConfigMerge.CoversMeaning | backend/core/config_loader.py:72-83 | A lower layer adds nothing if and only if the upper one already says something wherever it does. |
| ConfigMerge.AssociativeExactlyWhen | backend/core/config_loader.py:75-81 | The two bracketings of three layers agree if and only if the middle one replaces a dictionary of the lowest only where the top restates all of it. |
| ConfigMerge.NotAssociative | backend/core/config_loader.py:75-81 | A non-dictionary between two dictionaries breaks associativity. |
| ConfigMerge.ConfigurationLoader.ApplyUpperLayers | backend/core/config_loader.py:146-158 | The loader nests the merges: settings lowest, then overrides, then the database on top. |
| ConfigMerge.PreMergedExactlyWhen | backend/core/config_loader.py:146-158 | Layers 4 to 7 may be merged once and applied as one layer if and only if, at every place, a layer that breaks up a dictionary below is covered by what lies above it. |
| Windows.Slide | dev_tools/enhanced_document_processor.py:218-237 | There is exactly one chunk for each start within the lines; the chunk there has as many lines as the window, or as are left, each the line at its position, and exactly the pages of those lines; a zero step is refused and a negative one yields nothing. |
| Windows.StartMeaning | dev_tools/enhanced_document_processor.py:221-223 | Chunk `k` starts at `k` times the step. |
| Windows.SlidesRebuild | dev_tools/enhanced_document_processor.py:221-225 | The first `step` lines of each window, put together, are the input. |
| Windows.ShareWindowExactlyWhen | dev_tools/enhanced_document_processor.py:221-225 | Consecutive lines share a window if and only if they start early enough within their step, so any `overlap + 1` of them do; and in every window that reaches over them they stand in their order. |
| Sections.ChunkBySections | dev_tools/enhanced_document_processor.py:65-121 | The loop computes the section bodies, each behind the tail carried from the chunk before, with its own heading and its own lines' pages. |
| Sections.CarriedAt | dev_tools/enhanced_document_processor.py:81-97 | Each chunk is what the chunks before it carry over, then its own body. |
| Sections.ChunkInDocument | dev_tools/enhanced_document_processor.py:77-119 | In the document: chunk `k` goes from the lines carried over before its heading to the line before the next heading, bears the section and title of its heading, and lists exactly the pages of its own lines. |
| Sections.BodyInDocument | dev_tools/enhanced_document_processor.py:77-108 | Body `k` lies right behind the bodies before it, begins at a heading and goes on to the next one, or to the end for the last. |
| Sections.FromFirstHeadingMeaning | dev_tools/enhanced_document_processor.py:77-108 | Nothing before the first heading is kept, and everything from there on. |
| Sections.CarryIsTail | dev_tools/enhanced_document_processor.py:92-97 | The lines carried into a chunk are those right before its body: all of them if the overlap is 0, and else as many as the overlap, or as there are. |
| Sections.CarryBoundedExactlyWhen | dev_tools/enhanced_document_processor.py:92-97 | At most the overlap is carried into a chunk if and only if the overlap is positive or the chunk is the first one. |
| Sections.PagesCompleteExactlyWhen | dev_tools/enhanced_document_processor.py:81-108 | A chunk's page list covers all its lines if and only if the first line carried into it is on the page of its heading. |
| Sections.TwoHeadings | dev_tools/enhanced_document_processor.py:81-108 | Two headings on two pages make both fail: with an overlap of 0 the second chunk carries a line, and with an overlap of 1 it does not list that line's page. |
| Sections.SectionsRebuild | dev_tools/enhanced_document_processor.py:77-121 | Stripping each chunk's carried lines rebuilds every line from the first heading on, for every overlap. |
| Sections.BodiesAreSections | dev_tools/enhanced_document_processor.py:77-108 | Each body is a heading followed by lines that are not. |
| Sections.ZeroOverlapAccumulates | dev_tools/enhanced_document_processor.py:93-96 | With overlap 0 every chunk is the whole document from the first heading up to its own end. |
| Tokens.ChunkByFixedTokenSize | dev_tools/enhanced_document_processor.py:266-316 | One chunk for each start within the tokens of the kept pages: its text joins as many tokens from there as the size, or as are left, and is the slice of their full text at its computed offset, and its pages are the listed ones; an empty separator and a zero step are refused. |
| Tokens.CollectText | dev_tools/enhanced_document_processor.py:266-283 | The text, page breaks and page numbers collected are those of the pages not skipped. |
| Tokens.KeptMeaning | dev_tools/enhanced_document_processor.py:275-283 | As many pages are left out as are to be skipped, from the front, and the others are kept in order. |
| Tokens.TextOfPage | dev_tools/enhanced_document_processor.py:266-283 | The text between two breaks is that of the page there, and the last break is where the text ends. |
| Tokens.NumbersRightExactlyWhen | dev_tools/enhanced_document_processor.py:279-307 | The page numbers that chunks use are those of the document if and only if no page is skipped. |
| Tokens.JoinSplit | dev_tools/enhanced_document_processor.py:286-293 | Joining undoes splitting. |
| Tokens.SplitIsComplete | dev_tools/enhanced_document_processor.py:286 | Splitting leaves no separator inside any token. |
| Tokens.SplitIsLeftmost | dev_tools/enhanced_document_processor.py:286 | The first token ends at the leftmost separator, and the others are what splitting the text right behind it gives. |
| Tokens.RunIsSlice | dev_tools/enhanced_document_processor.py:290-297 | A run of tokens, joined, sits in the full text exactly at the sum of the widths before it. |
| Tokens.WidthMeaning | dev_tools/enhanced_document_processor.py:296 | The offset is where the tokens before, joined, and one more separator end. |
| Tokens.ListedExactlyWhen | dev_tools/enhanced_document_processor.py:301-307 | For a nonempty chunk a page is listed if and only if it shares a character with it, or begins at its very end, or is empty and falls within it; for an empty one, if and only if it holds the character there, or is empty and lies there. |
| Tokens.PageListMeaning | dev_tools/enhanced_document_processor.py:299-307 | The page list has exactly the listed pages, each once and in ascending order. |
| Tokens.PagesOfChunk | dev_tools/enhanced_document_processor.py:299-307 | Every page that shares a character with a nonempty chunk is in its page list; any other page in it is empty or begins at the chunk's end. |
| SafetyEngine.SafetyStateEngine.ProcessEvent | backend/core/safety_state_engine.py:87-109 | State and data stay what the whole event history makes them, and no emergency stop is ever sent; what that is, the next rows say of the events. |
| SafetyEngine.SafetyStateEngine.UpdateStateData | backend/core/safety_state_engine.py:175-194 | If the data says what the last event of each kind said, it still does with the new event included: a given value is taken over, a missing one replaced by its default, a null takes the earlier one back, and only the entry of that event's kind changes. |
| SafetyEngine.SafetyStateEngine.IsOperationSafe | backend/core/safety_state_engine.py:111-156 | The verdict and its reason, each exactly in terms of the last events, for every operation. |
| SafetyEngine.DataIsLastEvents | backend/core/safety_state_engine.py:175-194 | After any history the data holds what the last event of each kind said, value by value, and nothing of which no event spoke. |
| SafetyEngine.StateIsLastEvents | backend/core/safety_state_engine.py:196-235 | After any history the state is DRIVING exactly when the last speed event gave a speed above 0.5, PARKED_RUNNING or PARKED_SAFE exactly when it did not, the last brake event is SET and the last engine event is or is not STARTED, all provided the last event was evaluated within 30 s, and UNKNOWN otherwise; it is never UNSAFE. |
| SafetyEngine.SlideoutRule | backend/core/safety_state_engine.py:111-156 | A slide-out may extend if and only if the last brake event is SET, the last speed event gave no speed above 0.5, and the last event is at most 30 s old and was evaluated in time; said of positions in the history. |
| SafetyEngine.NothingExtendsWhileMoving | backend/core/safety_state_engine.py:122-135 | If the speed event at some position is the last one and gave a speed above 0.5, none of the four body operations is let through once the last event has been evaluated, however late that was. |
| SafetyEngine.OperationRules | backend/core/safety_state_engine.py:122-156 | The other operations, each exactly: leveling needs a vehicle that does not count as moving and a brake not last reported released, and passes if none was reported; the engine may start with a gear last given as park, given as null or never reported; retracting needs only a vehicle that does not count as moving; anything else passes on fresh data. |
| SafetyEngine.VerdictExplained | backend/core/safety_state_engine.py:111-156 | After every history and for every operation each reason is given exactly when it applies, the earlier check going first: data too old, vehicle moving, wrong state, brake not set, gear not in park; the reason for an unsafe vehicle is never given. |
| SpecCache.ConfigurationService.GetFullSpec | backend/core/configuration_service.py:143-161 | While a cached specification has not expired, exactly that is answered and nothing changes; without one, or once it has expired, exactly what the file holds is answered, and cached from now on if it is not empty; the answer was read less than one lifetime ago. |
| SpecCache.ConfigurationService.GetDgnSpec | backend/core/configuration_service.py:70-95 | A remembered DGN that has not expired is answered as remembered; else the entry of the unexpired cached specification, or without one that of the file, or nothing if that has none, and a nonempty entry is remembered from now on; whatever it answers stood in the file less than two lifetimes ago. |
| SpecCache.OldestAnswer | backend/core/configuration_service.py:70-95 | The bound is sharp: three lookups whose answers all come from the file as it first was, the last of them as close to two lifetimes old as one likes, in spite of a changed file. |
| SpecCache.ConfigurationService.ReloadConfiguration | backend/core/configuration_service.py:163-177 | Both caches and all timestamps are emptied. |
| SpecCache.ConfigurationService.CheckForUpdates | backend/core/configuration_service.py:179-216 | It reports a change if and only if the interval has passed and some watched file exists with a positive modification time; the caches are emptied exactly then. |
| SpecCache.RepeatedCheckIsNotQuiet | backend/core/configuration_service.py:206-216 | Two checks in a row of untouched files answer alike: the second reports a modification again. |
| RefactorOrder.CycleFinder.Dfs | scripts/refactor_dependencies.py:133-149 | The shared path and stack are restored, every recorded cycle is real and none is dropped, and without the edges that close the recorded cycles everything left again is on no cycle. |
| RefactorOrder.FindCircularDependencies | scripts/refactor_dependencies.py:130-158 | It returns only closed walks of real edges, and enough of them: without the edges that close them the graph is acyclic. So it returns nothing if and only if the graph is acyclic. |
| RefactorOrder.TopologicalSort | scripts/refactor_dependencies.py:161-200 | Terminates with a partition of the services into groups sorted by name: each group holds exactly the services that wait for nothing ungrouped or, if there is none, the one that is forced; a service is forced only when the rest contains a cycle, and then one with the fewest waiting dependencies; never forces if and only if there is no cycle; without cycles the groups are the longest-chain levels. |
| RefactorOrder.NextGroup | scripts/refactor_dependencies.py:172-197 | The next group is every remaining service that waits for nothing remaining, sorted, and nothing is forced; or, if there is none, a single one that waits for the fewest, and just that is recorded as forced. |
| RefactorOrder.CountMeaning | scripts/refactor_dependencies.py:184-194 | The count by which a service is forced is the number of entries of its dependency list that are still ungrouped. |
| RefactorOrder.NobodyReady | scripts/refactor_dependencies.py:184-194 | When no service is ready, the remaining ones contain a cycle. |
| RefactorOrder.GroupsAreLevels | scripts/refactor_dependencies.py:170-183 | Unforced groups are the longest-chain levels. |
| RefactorOrder.Analyse | scripts/refactor_dependencies.py:225-241 | The grouping forces nothing exactly when the cycle search finds nothing. |

## Left out

- Starting: time stamps, logging, metrics, background tasks and signature filtering: every collected argument counts as passed.
- An initialiser or a service's own start-up is one abstract outcome, fixed per service; each is called at most once in a start-up.
- Exceptions raised after a service was marked HEALTHY (timing monitor, lifecycle listeners) are taken not to occur.
- Emergency cleanup after a failed start-up: it cancels background tasks and changes none of the modelled records.
- The base registry's `startup` and `shutdown`, `stop_service`, `restart_service`, health checks, batch registration and reports.
- Python's recursion limit in the depth-first searches and in `deep_merge`.
- `DependencyNode.dependents`, which is never filled, and the runtime-dependency validation, which only logs.
- Registry.EnhancedServiceRegistry.StartupAll: the verdict is stated for first start-ups with all edges between registered services; of a second start-up, or one after an earlier resolution replaced edges, it says only that it is a run of its plan.
- Depths are written to the nodes after the search instead of during it.
- Entity state, state histories and listeners of the entity manager; configurations are values, so a caller's dictionary that is shared or changed later is not modelled.
- Configuration layers 1 to 3, file formats, permissions, schema versions and the database; dictionaries are values, so sharing of nested dictionaries between layers is not modelled.
- PDF extraction, the section pattern, paragraph chunks, embedding and the final stripping of whitespace; lines, pages and "is a heading" are inputs.
- SpecCache.ConfigurationService.ReloadConfiguration: the device-mapping and protocol caches, which it clears as well, are not modelled.
- The safety engine's observers beyond the count of emergency stops, its transition table and its secondary rules, which return nothing.
- SpecCache.ConfigurationService.GetDgnSpec: each call happens at one instant and alone; threads, eviction by size, the mapping and protocol caches and the hexadecimal or decimal spelling of a DGN are not modelled.
- The grouping script's reading of source files and its printed report.
