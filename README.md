# Sample composition back end, in Dafny

This project models the core of the Python back end of a chemical-table
application: laboratory *samples* ("trials") made by mixing other samples,
the *experiment* that registers them, and the front end's registry of
experiments together with the converters between nested dicts and 2-D
tables.

- **trial.py**, module `Sample`. A sample is a `class Trial` whose fields
  the methods update in place:
  - `composite` holds the sources it was made from, with amounts;
  - `master` holds the samples that consume it, with amounts;
  - it also has its concentrations, `existingAmount` (where `-1` means
    unlimited), and the stock and solvent flags.

  Adding or removing an edge updates the subject's `composite` and the
  source's `master` as a mirrored pair, and debits or credits the source.
  Each edge operation is proved against a value-level specification
  (`AddSpec`, `RemoveSpec`). Lemmas about those specifications state
  mirroring, debiting and the add/remove round trip.
- **Experiment.py**, modules `Experiments`, `Concentrations`, `Graph` and
  `Design`. An experiment is a `class Experiment`. Its registry
  `sample_dict` is modelled as the map `sampleDict` (name to `Entry(id,
  trial)`) plus `sampleOrder`, the keys in Python insertion order.
  `idTrialName` maps ids to names.
  - Registration, removal, renaming, the substance table and the two
    batch builders (`stock_from_2d_array`, `new_exp_from_2d_array`) are
    methods. Each one is proved against value-level functions such as
    `HolderMap`, `RenameIn`, `Clear`, `Place` and `Stocked...`.
  - `update_all_concentrations` is Kahn's topological sort (`Graph.Kahn`,
    proved complete exactly when the graph is acyclic). It is followed by a
    loop that gives every regular sample the volume-weighted average of
    its sources (`Concentrations.Blend`).
  - The mixture design is a pure recursive search (`Design.Allocate`). It
    is proved to return only full assignments within the volume window,
    and never to raise over the substance table the experiment builds.
- **interface.py**, modules `Interface` and `Tables`.
  - `class ChemInterface` holds the two experiment indexes. Lemmas state
    when they stay paired.
  - `dict_to_table` and `table_to_dict` are specified by functions. A
    round-trip lemma connects them.

Python exceptions are modelled as `Outcome`/`Result` values carrying the
exception class (`Outcomes.Fault`). Where the source leaves state
half-changed before raising, the model does too.

## Model

| member | source | states |
|---|---|---|
| Sample.Trial.constructor | trial.py:9-35 | Every field holds the value passed for it; absent maps start empty. |
| Sample.Trial.AddToComposite | trial.py:78-124 | The edge after the call is `AddSpec` of the edge before. An unregistered source raises KeyError and leaves the composite alone. Nothing else of the subject or source changes. |
| Sample.Trial.RemoveFromComposite | trial.py:126-145 | A source absent from the composite raises ValueError and changes nothing. Otherwise the edge after the call is `RemoveSpec` of the edge before. An unregistered source raises KeyError after the composite was already trimmed. |
| Sample.Trial.ChangeName | trial.py:147-163 | The sample takes the new name. With distinct neighbours, the rename succeeds exactly when every neighbour holds the mirrored entry under the old name. On success, each source's master and each consumer's composite has the entry moved to the new name. Every other registered sample is untouched. Only the sample's name and the neighbours' master and composite maps may change. |
| Sample.Trial.UpdateSubstanceConc | trial.py:165-186 | A total that is not positive raises and keeps the old concentrations; otherwise the call passes. The map is cleared before the sources are read. When the sample is not among its own sources, the concentrations become the registered sources' amounts divided by the total: the volume-weighted average. With itself as its only source, the result is empty. Only the concentrations may change. |
| Sample.ClearedAmounts | trial.py:177-186 | The accumulation loop after the clear yields the registered sources' amounts when the sample is not its own source, and nothing when it is its only source. |
| Sample.RenameInMasters | trial.py:156-159 | Over distinct sources, this passes exactly when every source holds the old key. On success each source's master has that key moved. Samples that are not sources are untouched. |
| Sample.RenameInComposites | trial.py:160-163 | The same for the consumers' composites. |
| Sample.Renamed | trial.py:158-159 | The old key is gone, the new key holds the old value, and every other key is unchanged. |
| Sample.AddOutcome | trial.py:86-123 | On a mirrored edge, an add succeeds exactly when it is forced, the source is unlimited, or the source holds strictly more than the amount. A refused add raises ValueError and changes nothing. |
| Sample.AddKeepsMirror | trial.py:86-121 | A successful add raises both sides of the edge by the amount, creating them at the amount when absent. The edge stays mirrored, nothing else in either map changes, and a finite source is debited by exactly the amount. |
| Sample.RemoveKeepsMirror | trial.py:133-143 | A successful removal keeps the edge mirrored and leaves every other entry of both maps alone. |
| Sample.RemoveAll | trial.py:134-143 | Removing with -1 deletes both mirrored entries and credits a finite source with the whole edge. |
| Sample.AddThenRemove | trial.py:86-143 | Adding a positive amount and then removing the same amount restores composite, master and remaining amount. This needs a positive existing edge, and a finite source that does not land on -1 in between. |
| Sample.UnlimitedStays | trial.py:87-143 | A source marked -1 is never debited by an add nor credited by a removal. |
| Sample.DebitToUnlimited | trial.py:94-102 | A forced add can debit a finite source to exactly -1, which then reads as unlimited. Taking the amount back credits nothing. |
| Sample.RemoveOverCredits | trial.py:136-143 | Removing more than the edge holds deletes the edge but credits the source with the amount asked for. |
| Sample.RenameToSelf | trial.py:158-159 | Renaming a key to itself deletes it. |
| Sample.SourceAmounts | trial.py:179-186 | The accumulation loop yields, per substance, the sum over registered sources of concentration times volume used. Unregistered sources are skipped. |
| Sample.AddSource | trial.py:182-186 | The inner loop adds one source's concentrations times its volume to the running amounts, substance by substance. |
| Sample.AmountsStep | trial.py:179-186 | One more composite entry adds exactly its source's weighted concentrations to the amounts. An unregistered one adds nothing. |
| Sums.SumOf | trial.py:173 | The loop over a dict's values yields their mathematical sum. |
| Concentrations.BlendOf | Experiment.py:339-357 | The computation yields the sources' amounts divided by the total volume. No sources give no concentrations; amounts over a zero total raise ZeroDivisionError. |
| Concentrations.Blend | Experiment.py:339-357 | Only a zero total raises, with ZeroDivisionError. The result has one entry per substance that some registered source carries. |
| Concentrations.BlendLocal | Experiment.py:345-352 | A sample's average depends only on the concentrations of its own sources. |
| Concentrations.BlendSingle | Experiment.py:339-357 | A sample made of one registered source, in any non-zero volume, gets exactly that source's concentrations. |
| Concentrations.CollectRegular | Experiment.py:287-294 | The first loop yields the regular samples (neither stock nor solvent) in registry order. |
| Concentrations.RegularsMeaning | Experiment.py:289-292 | A name is scheduled exactly when it is registered and regular, and no name is scheduled twice. |
| Concentrations.PredsOf | Experiment.py:301-310 | The dependency graph has an edge from sample j to sample i exactly when j is in the composite of i. |
| Concentrations.LinkSources | Experiment.py:302-310 | One round of the graph loop appends i to the adjacency list of each of its regular sources, and counts them as the in-degree of i. |
| Concentrations.BuildGraph | Experiment.py:299-310 | The adjacency lists and in-degrees describe exactly the edges of the dependency graph. |
| Concentrations.FindWaiting | Experiment.py:323-326 | This raises ValueError exactly when some unsorted sample keeps a positive in-degree. |
| Concentrations.SortSamples | Experiment.py:299-326 | The order is topological and repeats no sample. This raises ValueError exactly when the regular samples depend on each other in a cycle; otherwise every sample is sorted. |
| Concentrations.CycleReported | Experiment.py:323-326 | After Kahn's algorithm, a waiting sample is reported exactly when the graph is cyclic. |
| Concentrations.Schedule | Experiment.py:287-326 | All of `update_all_concentrations` before its last loop: the regular samples in order and their dependency sort, with the cycle check. |
| Concentrations.NotSourceOfEarlier | Experiment.py:313-321 | In the topological order, no sample is a source of itself or of any sample placed before it. |
| Concentrations.MixStep | Experiment.py:329-330 | Giving the next sample of the order its average keeps every average computed before it valid. |
| Concentrations.MixDone | Experiment.py:329-330 | A complete run leaves every regular sample holding the average of its sources. |
| Concentrations.RecomputedCycle | Experiment.py:323-326 | A cycle raises ValueError before any concentration changes. |
| Concentrations.RecomputedMixed | Experiment.py:328-330 | The last loop's result meets the overall description: each sample is unchanged or averaged; a pass settles all of them; ZeroDivisionError leaves a sample whose average cannot be taken. |
| Graph.Kahn | Experiment.py:313-321 | The order is topological and repeats nothing. Every in-degree counts the unsorted predecessors. Every node left out still waits. All nodes are sorted exactly when the graph is acyclic. |
| Graph.Release | Experiment.py:318-321 | Each consumer of the node just sorted loses one in-degree. Those reaching zero join the queue in adjacency order. |
| Graph.Sources | Experiment.py:313 | The initial queue holds exactly the nodes with in-degree zero, each once. |
| Graph.KahnStep | Experiment.py:315-321 | One dequeue keeps the loop invariant and grows the sorted set by a new node. |
| Graph.KahnEnd | Experiment.py:323-326 | When the queue is empty, unsorted nodes have positive in-degree, and the order is complete exactly when the graph is acyclic. |
| Graph.OrderedIsAcyclic | Experiment.py:313-326 | A complete topological order rules out any cycle. |
| Graph.UnreachedIsKnot | Experiment.py:323-326 | The nodes never reached each have an unreached predecessor, so they close a cycle. |
| Graph.CycleLeftOut | Experiment.py:323-326 | If some node stays unsorted, the graph is cyclic. |
| Graph.ReachedMembers | Experiment.py:318-321 | A consumer joins the queue exactly when the release brings its in-degree to zero. |
| Design.Movable | Experiment.py:497-501 | Finds the first later substance with more than one candidate, or reports that none has. |
| Design.MoveToFront | Experiment.py:502-504 | The retry order is a permutation with the moved substance first. |
| Design.Allocate | Experiment.py:432-517 | The recursive search raises only KeyError or ZeroDivisionError. A plan it finds keeps every sample already in use. |
| Design.TryFrom | Experiment.py:455-494 | The candidate loop has the same two exceptions and also keeps the samples in use. |
| Design.AllocateSound | Experiment.py:432-517 | Every plan the search returns is a full assignment: one allowed pick per substance. Each pick is a candidate of its substance, at the rounded required volume, inside the window, and added to the starting usage. |
| Design.TrySound | Experiment.py:455-494 | The same for the candidate loop from any position on. |
| Design.ApplyAdds | Experiment.py:473-474 | Usage accumulates per sample: each sample's usage after a plan is its usage before plus the volumes of its picks. Unpicked samples are untouched. |
| Design.AllocateSafe | Experiment.py:432-517 | Over a table where every candidate is registered and holds its substance at a positive concentration, the search never raises: no missing key and no division by zero. |
| Design.RetrySafe | Experiment.py:497-516 | The reordered retry is also safe. |
| Design.TrySafe | Experiment.py:455-494 | The candidate loop is also safe. |
| Design.SortByCountSorts | Experiment.py:399-401 | `SortByCount` puts the substances fewest candidates first, as a permutation of the input. |
| Design.SortByCountStable | Experiment.py:399-401 | `SortByCount` is stable: substances with the same number of candidates keep their order from the target. |
| Design.NonSolvent | Experiment.py:394 | Exactly the target substances other than "solvent". |
| Design.Search | Experiment.py:391-422 | A plan it returns is never empty and exists only for a target with a non-solvent substance. It raises only ValueError, KeyError or ZeroDivisionError. |
| Design.SearchSound | Experiment.py:391-422 | Over a sound table, the allocation step fails only with ValueError, and what it returns is a full plan for the non-solvent substances. |
| Design.FirstBlank | Experiment.py:532-537 | Finds the first registered sample whose concentrations are all zero, or reports that none exists. |
| Design.SolventName | Experiment.py:532-537 | The solvent is a blank registered sample of the order, or "Solvent". The virtual one is used only when no sample of the order is blank. |
| Design.Solvated | Experiment.py:526-541 | Adding the solvent succeeds exactly when the volumes do not exceed the total; otherwise it raises ValueError. The solvent's volume is never negative. |
| Design.SolvatedTotal | Experiment.py:526-541 | After the solvent is added, the volumes sum to the total, minus any volume the solvent already had. Every other volume is kept. |
| Design.PlanAvoidsBlank | Experiment.py:457-460 | A plan never picks a sample whose concentrations are all zero. |
| Design.DesignFillsTotal | Experiment.py:391-425 | When a blank sample exists, a successful design's volumes sum to exactly the total volume. |
| Experiments.RemoveFirst | Experiment.py:101-102 | `list.remove`: one occurrence fewer when present, the list itself otherwise. |
| Experiments.Holders | Experiment.py:61-68 | The names listed for a substance are exactly the registered names holding it above zero, with no repeats. |
| Experiments.HolderMapMeaning | Experiment.py:59-70 | A name is listed under a substance exactly when it is registered and holds that substance above zero. Lists are non-empty and without repeats. |
| Experiments.HolderMapSnoc | Experiment.py:61-68 | One more registered sample appends its name to the lists of its substances. |
| Experiments.AddHolder | Experiment.py:63-68 | The inner loop appends the name to the list of each substance it holds. |
| Experiments.SubstanceTable | Experiment.py:59-70 | The loops build exactly the substance-to-holders table. |
| Experiments.PruneLists | Experiment.py:100-102 | The removed name is taken out of every list. |
| Experiments.DropEmptied | Experiment.py:103-105 | Substances whose list became empty are deleted. One that is not recorded raises KeyError after the deletions made before it. |
| Experiments.NothingEmptied | Experiment.py:98-105 | As called, with no name or with a name no longer registered, the clean-up deletes nothing. |
| Experiments.EmptiedSoleHolders | Experiment.py:98-105 | With a registered name, exactly the substances that sample alone holds are emptied. |
| Experiments.CleanTables | Experiment.py:98-105 | The clean-up on values reaches the `CleanedUp` state. |
| Experiments.MovedMeaning | Experiment.py:123-125 | Moving an entry puts it under the new key and keeps every other key. |
| Experiments.MovedBack | Experiment.py:123-125 | Moving to a fresh key and back restores the registry. |
| Experiments.RenameSource | Experiment.py:114-121 | The name to move comes from the object, else the name, else the id. A miss, or no argument at all, raises KeyError. |
| Experiments.RenameIn | Experiment.py:109-125 | The rename passes exactly when the source name is registered; a failure keeps registry and order. Only the id path rebinds the id, even when the lookup then fails. |
| Experiments.RenameKeepsLists | Experiment.py:123-125 | The key order still lists the registry's keys. |
| Experiments.RenameMoves | Experiment.py:123-125 | The entry moves to the new name and every other entry stays; the new name comes last in the key order when it was not already another key; where the new name was already another key its position is not stated. |
| Experiments.RenameLeavesStaleIds | Experiment.py:114-125 | After a rename by object or by name, an id bound to the old name points at no registered sample. |
| Experiments.HolderMapSound | Experiment.py:59-70 | The table `gen_substance_trial_dict` builds meets what the search needs: every candidate is registered with a positive concentration. |
| Experiments.RowIds | Experiment.py:195-203 | The given ids are used when present, of the right length and (for the sheet builder) not all blank. Otherwise the drawn serials are used. |
| Experiments.StockKeys | Experiment.py:142-167 | After k rows the registry holds the old names and the first k row names. |
| Experiments.StockKept | Experiment.py:164-165 | A name already registered keeps its id. |
| Experiments.StockNew | Experiment.py:166-167 | A new row name gets its row's id. |
| Experiments.StockOrder | Experiment.py:164-167 | The key order gains the new row names, in row order. |
| Experiments.StockIdKeys | Experiment.py:166-167 | The id map gains exactly the ids of the new row names. |
| Experiments.StockIdKept | Experiment.py:166-167 | With fresh ids, the old id bindings are kept. |
| Experiments.StockIdNew | Experiment.py:166-167 | A new row name's id is bound to it. |
| Experiments.DoomedMeaning | Experiment.py:207-213 | Phase 0 deletes exactly the samples that are not stocks or that the sheet does not name, each once. |
| Experiments.Condemned | Experiment.py:207-213 | The first loop of phase 0 collects exactly those names. |
| Experiments.Unbind | Experiment.py:215-218 | One deletion always removes the entry, and passes exactly when its id is bound. |
| Experiments.Clear | Experiment.py:215-218 | On a pass every doomed name is gone. Keys are only ever removed. The only error is KeyError. |
| Experiments.Rebuilt | Experiment.py:205-244 | Phases 0 and 1 on values (`Clear`, then `Place` when that passed) end in a pass, KeyError or RuntimeError. |
| Experiments.ClearMeaning | Experiment.py:215-218 | Clearing distinct names passes exactly when each has a bound id and no two share one. It then deletes their entries, keys and ids and nothing else. |
| Experiments.PlaceFresh | Experiment.py:223-242 | With distinct names and unbound ids, phase 1 registers every row under its id and binds the ids. New names are appended to the key order and everything else is kept. |
| Experiments.PlaceLeavesStaleId | Experiment.py:228-231 | A row whose bound id belongs to a sample under another name renames that sample but leaves the id pointing at the old name, now unregistered. |
| Experiments.NumbersMeaning | Experiment.py:260-269 | A row describes the composite holding exactly its numeric components at their amounts. Non-numeric cells are skipped. |
| Experiments.Experiment.constructor | Experiment.py:9-30 | A new experiment has empty registries and the table id given. |
| Experiments.Experiment.GetTrial | Experiment.py:32-47 | Lookup is by name, else by id; a miss raises KeyError. With neither argument the result is None. |
| Experiments.Experiment.GetTrialById | Experiment.py:39-45 | In coherent registries, lookup by id finds the sample registered under the id's name, and that object carries the id. |
| Experiments.Experiment.GenSubstanceTrialDict | Experiment.py:59-70 | The returned and stored table is the substance-to-holders table of the registry. Nothing else changes. |
| Experiments.Experiment.RemoveTrial | Experiment.py:87-107 | The id, then the name, are unregistered; a missing one raises KeyError at that point. Unless substances are kept, the substance table is rebuilt and emptied substances are deleted. |
| Experiments.Experiment.CleanSubstances | Experiment.py:98-105 | The clean-up leaves the `CleanedUp` state and the registry unchanged. |
| Experiments.Experiment.GenerateTrial | Experiment.py:73-85 | With a fresh id, the sample is registered under its name and id, and its substances are recorded. With an id already bound, the older sample is removed and KeyError is raised. |
| Experiments.Experiment.DropPrevious | Experiment.py:77-81 | The re-registration branch removes the older sample and then fails on the id that is already gone. |
| Experiments.Experiment.ChangeTrialName | Experiment.py:109-127 | The outcome and new registries are exactly `RenameIn` of the old ones. The sample object keeps its own name. |
| Experiments.Experiment.CalculateTrialConcentration | Experiment.py:332-357 | Stocks and solvents are left alone. A regular sample gets the volume-weighted average of its registered sources, or keeps its concentrations when the average raises. |
| Experiments.Experiment.CalculateEntry | Experiment.py:332-357 | Seen on the registry's concentrations, only the entry of the sample changes, to its average. |
| Experiments.Experiment.UpdateAllConcentrations | Experiment.py:284-330 | The run meets `Recomputed`: a cycle raises ValueError and changes nothing. Otherwise each regular sample gets its average after its sources, until a zero total raises. |
| Experiments.Experiment.MixAll | Experiment.py:329-330 | The last loop settles the samples of the order one by one. It passes exactly when all are done, and otherwise stops at one whose average cannot be taken. |
| Experiments.Experiment.HandleSolvent | Experiment.py:520-541 | The volume missing from the total goes to the first all-zero sample, or to "Solvent". A negative remainder raises ValueError. |
| Experiments.Experiment.CreateFinalTrial | Experiment.py:543-557 | A new regular sample with the volumes as composite, the target as concentrations and their sum as total is registered. With the empty id free, it is appended under its name and bound to "", its substances join the substance set, and the holder table is kept. With "" bound to a sample carrying it, KeyError. The sources' masters are not touched. |
| Experiments.Experiment.DesignConcentrationAdvanced | Experiment.py:369-430 | A design that succeeds returns "MIX_ADV_" plus the hash text, with the plan found plus the solvent. The search failing, or the plan exceeding the total, raises ValueError. When a plan is found, fits the total and the empty id is free, the design succeeds. The table built by `gen_substance_trial_dict` is stored as the holder table (`HolderMap` of the old registry). On the ValueError paths the registries and the substance set are unchanged. On success with the empty id free, the mix is registered with the target as its concentrations: appended to the key order, bound to "", its substances added to the substance set, and every other entry kept. |
| Experiments.Experiment.StockRow | Experiment.py:146-167 | A row's stock replaces the object of a registered name, keeping its id and leaving the substance tables alone, or is registered under a new name with the row's id, adding the row's substances to the substance set; the holder table is unchanged. |
| Experiments.Experiment.StockOne | Experiment.py:142-167 | One turn of the stock loop (`Stocking` one row further): the samples made for earlier rows stay as made, the new one is the row's stock, and with all-new ids the turn passes and extends the `Stocked...` bookkeeping and the substance set (`Substanced`) by one row. |
| Experiments.Experiment.StockFrom2dArray | Experiment.py:130-172 | With fresh ids, every row is stocked: the registry's ids, key order and id map become the `Stocked...` values of the old ones. Each row holds the sample described, and other entries are kept. The substance set gains exactly the substances of the rows with new names (`NewSubstances`), and the holder table is unchanged. A failure raises RuntimeError. |
| Experiments.NewSubstancesMeaning | Experiment.py:164-167 | A substance is added by the stock loop exactly when some row whose name was not registered carries it. |
| Experiments.Experiment.StockNames | Experiment.py:208-210 | Exactly the registered names whose sample is a stock. |
| Experiments.Experiment.DropEntry | Experiment.py:215-218 | Deletes the entry, then its id; either lookup missing raises KeyError. |
| Experiments.Experiment.ReleaseEntry | Experiment.py:215-218 | On the registry seen as values, one deletion is `Unbind`. |
| Experiments.Experiment.ClearNames | Experiment.py:215-218 | The deletion loop has the effect of `Clear`. |
| Experiments.Experiment.ClearSheet | Experiment.py:205-218 | Phase 0 is `Clear` applied to the names `Doomed` picks. It only removes samples, so no sample gains a composite. |
| Experiments.Experiment.PlaceEntry | Experiment.py:223-242 | One row of phase 1 has the effect of `PlaceRow`. A sample it registers is new with an empty composite, so the samples with a composite stay within a given set (`BusyWithin`). |
| Experiments.Experiment.RenameObject | Experiment.py:114-125 | `change_trial_name` given an object moves the entry under the object's name to the new name, and leaves the id map as it was. |
| Experiments.Experiment.RenameBound | Experiment.py:228-231 | The rename branch of a row has the effect of `PlaceRow`. |
| Experiments.Experiment.RegisterFresh | Experiment.py:76-85 | Registering a sample with an unbound id binds its name and id and records its substances. |
| Experiments.Experiment.CreateRow | Experiment.py:233-242 | The registration branch of a row has the effect of `PlaceRow`. |
| Experiments.Experiment.PlaceSheet | Experiment.py:220-244 | Phase 1 has the effect of `Place`, and its first failure is raised again as RuntimeError. It adds only new samples with empty composites (`BusyWithin` is kept). |
| Experiments.Experiment.Subject | Experiment.py:252-255 | The sample phase 2 finds by id, exactly when `get_trial` finds a registered one. |
| Experiments.Experiment.TearDown | Experiment.py:257-258 | Only an empty composite gets through. Removing a mirrored component while iterating the composite raises RuntimeError. |
| Experiments.Experiment.AddParts | Experiment.py:260-282 | This passes exactly when every numeric component is registered, and the composite is then the row's numeric components. An unknown component raises ValueError. |
| Experiments.Experiment.LinkRow | Experiment.py:252-282 | A row whose id finds nothing raises ValueError, or AttributeError for an empty id. It passes exactly when the sample has an empty composite and known components. Only that sample's composite changes. |
| Experiments.Experiment.LinkOne | Experiment.py:252-282 | One row of phase 2 keeps the loop state `Linking`: on a pass, the rows so far found their samples with known components, the last row naming a sample decided its composite, and on a `LinkReady` sheet the row passes and later rows still find empty composites. |
| Experiments.Experiment.LinkSheet | Experiment.py:246-282 | It passes whenever the sheet is `LinkReady`: every row finds its own sample, none of them already holding a composite, with known components. On a pass every row found its sample with known components, and the last row naming a sample decides its composite. |
| Experiments.Experiment.Rebuild | Experiment.py:192-244 | Phases 0 and 1 leave exactly the outcome and registry `Rebuilt` describes: a phase 0 failure raises KeyError and a phase 1 failure RuntimeError. No sample gains a composite. |
| Experiments.Experiment.NewExpFrom2dArray | Experiment.py:175-282 | An empty sheet changes nothing. Otherwise the registry is the one `Rebuilt` describes and its failure is the call's, then phase 2 runs. When phases 0 and 1 pass and the sheet is then `LinkReady`, with no row's sample among those that already held a composite, the whole call passes. A pass links every row's sample to the row's numeric components (`Linked`). |
| Interface.AddKeepsPaired | interface.py:53-54 | Adding keeps the two indexes paired exactly when neither the name nor the id was bound to something else. |
| Interface.RemoveKeepsPaired | interface.py:61-70 | Deleting a name together with its id keeps the indexes paired and leaves neither key behind. |
| Interface.MoveKeepsPaired | interface.py:396-403 | Moving an entry to a new name leaves that name as the only one carrying the id. The indexes stay paired exactly when the name was free or unchanged. |
| Interface.ChemInterface.constructor | interface.py:9-16 | A new interface has empty indexes, which are paired. |
| Interface.ChemInterface.AddExperiment | interface.py:46-54 | Both indexes are overwritten with the new binding. |
| Interface.ChemInterface.RemoveExperiment | interface.py:56-70 | By id or else by name, both index entries are deleted; an unknown key is a no-op. Paired indexes stay paired and never raise. |
| Interface.ChemInterface.UpdateExperimentInfo | interface.py:391-403 | An unknown id registers a fresh empty experiment. A known one moves its entry to the new name, which is then the only name carrying the id. |
| Tables.SortedSet | interface.py:143 | `sorted` of a set of strings: each member once, in Python's string order. |
| Tables.CollectHeaders | interface.py:138-140 | The header loop collects the union of the inner keys. |
| Tables.FillRow | interface.py:150-155 | A row holds the name, then the value under each column, or "" where there is none. |
| Tables.FillGrid | interface.py:146-157 | The table is the header row followed by one built row per name. |
| Tables.DictToTable | interface.py:73-159 | The method builds exactly the table `Layout` describes. |
| Tables.EmptyLayout | interface.py:104-108 | The table is empty exactly when the dict is empty. |
| Tables.GridShape | interface.py:146-157 | The table has a header of "" and the columns, and one row per name with the name first and "" for missing cells. |
| Tables.SymmetricShape | interface.py:113-134 | The symmetric layout of n keys is an (n+1) by (n+1) grid with the keys across the top and down the side. |
| Tables.StandardShape | interface.py:136-159 | The standard layout has the sorted inner keys across the top and the sorted outer keys down the side, with "" for missing cells. |
| Tables.ReadRowOf | interface.py:194-206 | The column loop reads exactly the row's dict. |
| Tables.TableToDict | interface.py:162-210 | The method computes `TableDict`: an empty table raises IndexError, and a header that is not a list gives an empty dict. |
| Tables.ReadCellsKeys | interface.py:198-206 | The keys read from a row are the headers of its non-blank columns, up to the shorter of header and row. |
| Tables.ReadCellsLast | interface.py:198-206 | Under each header the row keeps the value of its last non-blank column. |
| Tables.GatherKeys | interface.py:190-208 | Rows that are empty or not lists are skipped. The keys are the first cells of the other rows, each once. |
| Tables.GatherLast | interface.py:190-208 | A later row of the same name replaces an earlier one. |
| Tables.GatherOrder | interface.py:190-208 | With distinct names, keys come out in row order. |
| Tables.ReadBack | interface.py:198-206 | Reading back a built row of numbers gives that row's dict. |
| Tables.GatherBack | interface.py:185-208 | Reading back the rows of a grid of numbers gives the dict, in the grid's row order. |
| Tables.RoundTrip | interface.py:73-210 | `table_to_dict(dict_to_table(d))` gives back d, for a non-empty dict of numbers. The symmetric layout needs its inner keys among the outer ones and keeps the key order; the standard layout sorts the keys. |
| Tables.EmptyNoRoundTrip | interface.py:104-185 | The empty dict does not come back: its table is empty, and reading that table raises IndexError. |

## Code versus design

The system's design describes several behaviours differently from the
code. The model follows the code in each case:

- **Adding an edge.** The design refuses an add that *exceeds* the
  source's remaining amount. The code also refuses an add equal to it, as
  the amount must be strictly greater (`Sample.AddOutcome`).
- **Removing an edge.** The design restores the edge's amount. The code
  credits the amount asked for, even when that exceeds the edge
  (`Sample.RemoveOverCredits`).
- **Renaming.** The design applies all neighbour rewrites or none. The code
  rewrites them one by one and stops at the first missing entry, keeping
  the rewrites already made (`Sample.RenameInMasters`).
- **Registering.** The design binds a sample's id when creating it. The
  code raises KeyError when the id was already bound: `remove_trial`
  deletes the id and `generate_trial` deletes it again
  (`Experiments.Experiment.GenerateTrial`).
- **Removing a sample.** The design cascades the clean-up of substances no
  longer referenced. The code prunes the optional name argument, which is
  `None` on every call, so nothing is deleted (`Experiments.NothingEmptied`).
- **The designed mix.** The design registers a derived sample. The code
  sets its composite without mirroring the sources' masters, and registers
  it under an empty id, which fails once that id is bound
  (`Experiments.Experiment.CreateFinalTrial`).
- **Retrying the design search.** The design retries with a substance that
  still has untried candidates. The code moves the first later substance
  with more than one candidate in total to the front, and returns whatever
  that retry gives (`Design.Allocate`).
- **Batch rebuild.**
  - The design deletes non-stock samples absent from the sheet. The code
    deletes every sample that is not both a stock and named in the sheet.
  - The code's rename by object leaves the row's id bound to the old name,
    so phase 2 cannot find that row (`Experiments.PlaceLeavesStaleId`).
  - Removing components while iterating a composite raises RuntimeError
    unless the composite is empty (`Experiments.Experiment.TearDown`).
  - So the rebuild is not idempotent.

## Left out

- Printing: the source's `print` calls are left out.
- File persistence: `save_to_txt` and `load_from_txt` are left out, and
  substance.py is not part of this model.
- Random serial numbers (`generate_serial_number`) are drawn by the
  caller and passed in: `generated`, `tableId` and `serial`.
- `hash(tuple(sorted(target)))` is passed in as `hashText`.
- `round(x, 2)` is the function `round2` of `Design.Setting`.
- Python's `float(cell)` parser is the partial function `parse`.
- Floating point: amounts and concentrations are `real`, so rounding
  error is not modelled.
  - `update_substance_conc` divides each term by the total inside its
    loop. The model divides the summed amounts once, which is equal over
    reals.
- The Flask application in interface.py is left out: its routes,
  `get_processor` and the `_process_*` dispatchers, `json_config_composer`,
  the `update_*`/`Get_*_table`/`create_exp` handlers and
  `Chem_op_header_handler`. `get_experiment` is left out too; no modelled
  operation calls it.
- `trial.compose`, `trial.create_stock` and the stubs `reaction_clear` and
  `trial_design_recur` are left out. They are not called by the modelled
  operations.
- The `info`, `extra_info` (apart from `"substance_trial_dict"`) and `date`
  fields are left out, as no modelled operation reads them.
- Python's shared mutable default arguments are not modelled: each object
  gets its own maps.
- Python's `isinstance` checks on argument types:
  - a non-dict argument to `dict_to_table` is not modelled (its type is
    always a dict);
  - a non-numeric sheet cell is `Part.amount == None`;
  - a non-list table row is `Line.Other`.
- Iteration order over a composite or master dict: the model leaves the
  order open (it picks any remaining key). So partial effects before a
  failure in `change_name`, `update_substance_conc` and phase 2 are not
  tied to Python's insertion order.
- Samples are compared by object in `update_all_concentrations`. The model
  keys the graph by registry name, under the precondition that no object is
  registered under two names (`Sample.Distinct`).
- Sample.Trial.ChangeName: outcome and effect are stated only when the
  neighbours are distinct registered objects other than the sample itself
  (`Separated`). With aliased neighbours only the new name is stated.
- Sample.RenameInMasters: the effect is stated only for sources that are
  distinct objects.
- Sample.RenameInComposites: the effect is stated only for consumers that
  are distinct objects.
- Sample.AddOutcome: stated for a mirrored edge. An edge whose master side
  is missing raises KeyError after the composite was raised (see `AddSpec`).
- Sample.AddThenRemove: needs a positive amount, a positive existing edge
  and no landing on -1; without these the round trip does not hold.
- Experiments.Experiment.UpdateAllConcentrations: requires that no object
  is registered under two names.
- Experiments.Experiment.MixAll: requires that no object is registered
  under two names.
- Experiments.Experiment.CalculateEntry: requires that no object is
  registered under two names.
- Experiments.Experiment.GenerateTrial: with a bound id, the outcome is
  stated when the id's sample carries that name and id (`BoundTo`).
  Otherwise only the new entry and the untouched other entries are stated.
- Experiments.Experiment.StockFrom2dArray: the registries and the
  substance tables are stated for fresh, distinct ids. Otherwise only the
  outcome kinds are stated, with the registries kept consistent.
- Experiments.Experiment.DesignConcentrationAdvanced: the registered mix and
  the stored holder table are stated only when the empty id is not yet
  bound. Otherwise registration raises KeyError, after the older sample's
  removal has rebuilt the holder table.
- Sample.Trial.UpdateSubstanceConc: with the sample among several of its
  own sources, the result depends on Python's iteration order over the
  composite and is not stated.
- Sample.ClearedAmounts: the same case is not stated.
- Experiments.Experiment.NewExpFrom2dArray: composites are stated for the
  last row naming each sample. A pass is promised only for sheets that are
  `LinkReady` after phase 1; other sheets that happen to pass are not
  characterised. Sources' `master` maps and remaining
  amounts after phase 2 are not stated.
- Experiments.Experiment.TearDown: with a component whose mirror is
  missing, the outcome is stated only as RuntimeError or KeyError.
- Design.Allocate: that the retry counter never passes `maxRetries` is
  carried by the termination measure (retries left, then substances
  left), not stated as a lemma.
