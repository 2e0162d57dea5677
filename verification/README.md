# ATLAS outreach analysis framework: a Dafny model of the analysis core

The framework runs physics analyses over ATLAS open-data tuples. A
**Job** drives one sample. It creates the configured **Analysis** over the
sample's tree and fixes how many events to read. It loads the rows one by
one and hands each to the analysis. At the end the analysis writes its
histograms and prints its cut-flow table.

Each analysis is a subclass of the `Analysis` base class and brings three
things:
- an `initialize` that books histograms from the standard catalog (and, for
  ZZ and HWW, some of its own);
- an `analyze` that selects events through a chain of cuts and counts each
  cut it gets past;
- the fills of the events it accepts.

The analyses are Z, W, WZ, ZZ, HWW and ZPrime.

The parts the analyses share are modelled as follows:
- **Event store** (`TupleReader`): a table of rows with a cursor. Lepton and
  jet views are slot indices into the loaded row.
- **Standard selections** (`AnalysisHelpers`): the selections and the
  select-then-sort utility.
- **Catalog** (`StandardHistograms`): the fixed table of 42 standard
  histograms.
- **Registry** (`HistManager`): a name-to-histogram map where the first
  registration wins.
- **Event counter** (`EventCounter`): raw and weighted counters per cut label.
- **Sample filter** (`RunScript`): `buildProcessingDict`, which picks the
  samples named on the command line.

The model is organised by the program's own structure:
- `tuple_reader.dfy`, `analysis_helpers.dfy`, `standard_histograms.dfy`,
  `hist_manager.dfy`, `event_counter.dfy`, `analysis.dfy` and `job.dfy`
  follow the files of the same names.
- One file per analysis follows that analysis.
- `run_script.dfy` models `buildProcessingDict`.

Three modules are shared by several files:
- `cut_flow.dfy` holds the weights, counter updates and fills that the
  analyses and the job have in common.
- `candidates.dfy` holds the `itertools.permutations` candidate search of WZ
  and ZZ.
- `wrappers.dfy` holds `Option`.

The Python objects whose fields change are classes: `HistManager`,
`EventCounter`, `Analysis` and `Job`. Their methods are proved against the
specification functions beside them (`Register`, `Occurrences`/`WeightSum`,
`EventUpdates`, `RunLog`). Pure code is functions and lemmas.

The subclasses of `Analysis` form a closed set. The class therefore holds a
`Policy` naming its subclass and dispatches `initialize` and `analyze` on it.

Python semantics that the model writes out:
- `int()` truncates toward zero.
- Python 2 `str.lower` changes ASCII capitals only.
- `xrange` of a negative number is empty.
- `TChain.GetEntry` past the last entry leaves the buffers as they were.
- `strip()` removes space, `\t`, `\n`, `\v`, `\f` and `\r`.
- `split(',')` keeps empty pieces.
- `flag & 512` is read in two's complement.

## Model

| member | source | states |
|---|---|---|
| TupleReader.SlotCapacity | Analysis/TupleReader.py:47-48 | a slot buffer holds min(\|pre-scan maximum\|, 20) entries: never more than 20 and never more than the maximum |
| TupleReader.LeptonViews | Analysis/TupleReader.py:64 | one lepton view per slot |
| TupleReader.JetViews | Analysis/TupleReader.py:80 | one jet view per slot |
| TupleReader.InitializeTuple | Analysis/TupleReader.py:15-86 | the store holds the tree, no row loaded, and slot views 0..cap-1 with capacities clamped from the pre-scan maxima |
| TupleReader.GetLeptons | Analysis/TupleReader.py:107-108 | the leptons of the loaded row are the first min(lep_n, capacity) slot views, each readable |
| TupleReader.GetJets | Analysis/TupleReader.py:110-111 | the jets of the loaded row are the first min(alljet_n, capacity) slot views, each readable |
| TupleReader.Lepton.Pt | Analysis/TupleReader.py:212-213 | lepton pt is the stored MeV value converted to GeV |
| TupleReader.Lepton.E | Analysis/TupleReader.py:221-222 | lepton energy is the stored MeV value converted to GeV |
| TupleReader.Lepton.IsoPtConeRel30 | Analysis/TupleReader.py:239-240 | relative pt isolation is the cone value divided by the unconverted stored pt; a zero pt is excluded because Python raises there |
| TupleReader.Lepton.IsoEtConeRel20 | Analysis/TupleReader.py:242-243 | relative et isolation is the cone value divided by the unconverted stored pt; a zero pt is excluded because Python raises there |
| TupleReader.Jet.Pt | Analysis/TupleReader.py:280-281 | jet pt in GeV |
| TupleReader.Jet.E | Analysis/TupleReader.py:289-290 | jet energy in GeV |
| TupleReader.EtMiss.Et | Analysis/TupleReader.py:132-133 | missing transverse momentum in GeV |
| TupleReader.TightIffBitNine | Analysis/TupleReader.py:224-225 | a lepton is tight exactly when bit 9 of its flag word is set, whatever the other bits |
| TupleReader.LeptonViewReadsOnlyItsSlot | Analysis/TupleReader.py:212-255 | every lepton accessor depends only on that view's own slot of the loaded row |
| TupleReader.JetViewReadsOnlyItsSlot | Analysis/TupleReader.py:280-299 | every jet accessor depends only on that view's own slot |
| TupleReader.WeightsIgnoreBTagAndJVF | Analysis/TupleReader.py:160-164 | the b-tag and JVF scale factors enter neither the event weight nor the scale factor |
| AnalysisHelpers.GoodLeptonCuts | Analysis/AnalysisHelpers.py:12-29 | a good lepton is exactly an electron or muon that is tight, has pt > 25 and both relative isolations < 0.15; electrons and muons face identical cuts |
| AnalysisHelpers.GoodJetCuts | Analysis/AnalysisHelpers.py:31-35 | a jet is good iff pt >= 25, eta <= 2.5, and pt >= 50 or eta >= 2.4 or JVF >= 0.5 (a soft central jet with JVF < 0.5 is rejected); pt >= 50 with eta <= 2.5 always passes |
| AnalysisHelpers.Filter | Analysis/AnalysisHelpers.py:39 | the comprehension keeps only accepted elements of the container |
| AnalysisHelpers.FilterCounts | Analysis/AnalysisHelpers.py:39 | each accepted element keeps its multiplicity and each rejected one vanishes |
| AnalysisHelpers.FilterAllKept | Analysis/AnalysisHelpers.py:39 | filtering with a predicate all elements meet changes nothing |
| AnalysisHelpers.Insert | Analysis/AnalysisHelpers.py:40 | one insertion step of the sort adds exactly the new element |
| AnalysisHelpers.InsertPermutes | Analysis/AnalysisHelpers.py:40 | insertion adds the element to the multiset and nothing else |
| AnalysisHelpers.InsertSorted | Analysis/AnalysisHelpers.py:40 | insertion keeps a descending sequence descending |
| AnalysisHelpers.InsertKeyClass | Analysis/AnalysisHelpers.py:40 | an inserted element goes in front of all elements with an equal key |
| AnalysisHelpers.SortDown | Analysis/AnalysisHelpers.py:40 | `sorted(..., reverse=True)` keeps the length and draws only input elements |
| AnalysisHelpers.SortDownCorrect | Analysis/AnalysisHelpers.py:40 | the sort returns a permutation of its input in non-increasing key order |
| AnalysisHelpers.SortDownStable | Analysis/AnalysisHelpers.py:40 | elements with equal keys keep their input order |
| AnalysisHelpers.SortDownSorted | Analysis/AnalysisHelpers.py:40 | sorting an already sorted sequence is the identity |
| AnalysisHelpers.SelectAndSortContainer | Analysis/AnalysisHelpers.py:38-40 | the result contains exactly the accepted elements, in non-increasing key order |
| AnalysisHelpers.SelectAndSortPermutes | Analysis/AnalysisHelpers.py:38-40 | the result is a permutation of the accepted elements, each with its multiplicity in the container |
| AnalysisHelpers.SelectAndSortStable | Analysis/AnalysisHelpers.py:38-40 | accepted elements with equal keys keep their container order |
| AnalysisHelpers.SelectAndSortIdempotent | Analysis/AnalysisHelpers.py:38-40 | applying the utility to its own result returns that result unchanged |
| AnalysisHelpers.SelectedDistinct | Analysis/AnalysisHelpers.py:38-40 | a container without repeats gives a selection without repeats |
| AnalysisHelpers.DistinctCount | Analysis/AnalysisHelpers.py:39 | an element of a sequence without repeats occurs at most once |
| AnalysisHelpers.RepeatCount | Analysis/AnalysisHelpers.py:39 | an element at two positions occurs at least twice |
| AnalysisHelpers.LeptonsDistinct | Analysis/TupleReader.py:107-108 | the leptons of a row are distinct views |
| AnalysisHelpers.GoodLeptons | Analysis/AnalysisHelpers.py:12-15 | the good leptons are exactly the row's leptons passing `isGoodLepton`, distinct, with pt non-increasing |
| AnalysisHelpers.GoodJets | Analysis/AnalysisHelpers.py:31-40 | the good jets are exactly the row's jets passing `isGoodJet`, with pt non-increasing |
| AnalysisHelpers.StandardEventCuts | Analysis/AnalysisHelpers.py:43-48 | an event passes exactly when the loaded row is triggered by an electron or a muon, is in the good-run list and has a good vertex |
| AnalysisHelpers.StandardEventCutsIgnoreObjects | Analysis/AnalysisHelpers.py:43-48 | the event cuts read no lepton or jet: replacing the row's objects leaves the verdict unchanged |
| AnalysisHelpers.AbsReal | Analysis/HWWAnalysis.py:81 | `abs` on a float is non-negative and equals x or -x |
| StandardHistograms.Find | Analysis/StandardHistograms.py:7-56 | the name test chain finds the first row carrying the name, or none when no row does |
| StandardHistograms.FindDistinct | Analysis/StandardHistograms.py:7-56 | in a list without repeats a name is found at its own position |
| StandardHistograms.GetStandardHistogram | Analysis/StandardHistograms.py:7-56 | None exactly for names outside the catalog; otherwise a histogram of that name with at least one bin and lo < hi |
| StandardHistograms.CatalogBinningsValid | Analysis/StandardHistograms.py:8-54 | the catalog has 42 rows, each with a positive bin count and a non-empty range |
| StandardHistograms.CatalogNamesDistinct | Analysis/StandardHistograms.py:8-54 | no two catalog rows share a name, so no row is shadowed |
| StandardHistograms.CatalogSizes | Analysis/StandardHistograms.py:8-54 | the name and binning columns both have 42 rows |
| StandardHistograms.EveryRowReachable | Analysis/StandardHistograms.py:8-54 | looking up the name of any row returns exactly that row's histogram |
| StandardHistograms.OutsideCatalog | Analysis/StandardHistograms.py:56 | a name outside the catalog gives None and names no row |
| StandardHistograms.CountingHistogramsHaveUnitBins | Analysis/StandardHistograms.py:9-47 | each integer-count histogram (pvxp_n, n_jets, lep_n and the three type rows) starts at -0.5 with unit-width bins |
| StandardHistograms.LeptonRowNames | Analysis/StandardHistograms.py:20-29 | row 10+k is `lep_` plus suffix k |
| StandardHistograms.LeadingLeptonRowNames | Analysis/StandardHistograms.py:31-40 | row 20+k is `leadlep_` plus suffix k |
| StandardHistograms.TrailingLeptonRowNames | Analysis/StandardHistograms.py:42-51 | row 30+k is `traillep_` plus suffix k |
| StandardHistograms.LeadAndTrailBinnedLikeLepton | Analysis/StandardHistograms.py:20-51 | leading- and trailing-lepton histograms are binned like the lepton histogram with the same suffix |
| StandardHistograms.LeptonGroupBinnings | Analysis/StandardHistograms.py:20-51 | the three lepton groups have the same binnings row for row |
| StandardHistograms.CatalogEntry | Analysis/StandardHistograms.py:8-54 | every row describes a histogram with bins and a non-empty range |
| StandardHistograms.Range | Analysis/ZAnalysis.py:20-43 | a run of consecutive catalog rows |
| StandardHistograms.NamesOfRows | Analysis/ZAnalysis.py:20-43 | one name per booked row |
| StandardHistograms.NamesOfRowsAt | Analysis/ZAnalysis.py:20-43 | the i-th name is the i-th row's catalog name |
| StandardHistograms.NamesOfSubRows | Analysis/ZAnalysis.py:76-120 | rows drawn from a booked list have names drawn from its names |
| HistManager.Register | Analysis/HistManager.py:25-30 | `addHistogram` adds a new name with its histogram and never replaces an existing entry |
| HistManager.RegisterStandard | Analysis/HistManager.py:32-37 | `addStandardHistogram` leaves the registry alone for a non-catalog name and otherwise registers the catalog entry |
| HistManager.HistManager.constructor | Analysis/HistManager.py:9-14 | a new registry is empty |
| HistManager.HistManager.AddHistogram | Analysis/HistManager.py:25-30 | registers unless the name is taken, and returns its argument either way |
| HistManager.HistManager.AddStandardHistogram | Analysis/HistManager.py:32-37 | returns None exactly for a non-catalog name, and registers the catalog entry otherwise |
| HistManager.HistManager.AddStandardHistograms | Analysis/ZAnalysis.py:17-51 | the `addStandardHistogram` calls of an `initialize`, in order |
| HistManager.HistManager.WriteHistograms | Analysis/HistManager.py:39-40 | every registered histogram is written exactly once, under its own name |
| HistManager.WriteEach | Analysis/HistManager.py:39-40 | iterating the registry's values visits each entry exactly once |
| HistManager.Names | Analysis/HistManager.py:25-30 | every entry's name is among the names |
| HistManager.NotInNames | Analysis/HistManager.py:25-30 | a name used by no entry is not among the names |
| HistManager.NamesMember | Analysis/HistManager.py:25-30 | every name belongs to some entry |
| HistManager.RegisterAllFresh | Analysis/HistManager.py:25-30 | registering distinct new names adds exactly those names with their histograms and keeps every existing entry |
| HistManager.RegisterAllKeys | Analysis/HistManager.py:25-30 | registering only ever adds the entries' names to the keys |
| HistManager.RegisterAllStandardEntries | Analysis/HistManager.py:32-37 | registering catalog names is registering their catalog entries |
| HistManager.Zip | Analysis/HistManager.py:32-37 | pairs each name with its histogram |
| HistManager.RegisterCatalogRows | Analysis/HistManager.py:32-37 | booking distinct catalog rows adds exactly their names, each with its row's histogram, and keeps the rest |
| HistManager.RegisterCustomThenCatalog | Analysis/HistManager.py:25-37 | own bookings followed by catalog bookings give exactly both sets of names: own histograms as given, catalog names with their rows |
| HistManager.CustomThenCatalogKeys | Analysis/HistManager.py:25-37 | the keys after own and catalog bookings are exactly the two name sets |
| HistManager.CustomEntriesKept | Analysis/HistManager.py:25-37 | later catalog bookings keep the own histograms |
| HistManager.CatalogEntriesAdded | Analysis/HistManager.py:25-37 | each catalog name ends up with its row's histogram |
| HistManager.CustomNamesAbsent | Analysis/HistManager.py:25-37 | after the own bookings none of the catalog names is registered yet |
| HistManager.RowEntries | Analysis/HistManager.py:32-37 | the catalog histograms of the booked rows, as the lookups return them |
| HistManager.RowNamesDistinct | Analysis/StandardHistograms.py:8-54 | distinct rows have distinct names |
| HistManager.NamesOfZip | Analysis/HistManager.py:32-37 | the names of zipped entries are the zipped names |
| EventCounter.EventCounter.constructor | Analysis/EventCounter.py:9-13 | both counters start empty |
| EventCounter.EventCounter.Update | Analysis/EventCounter.py:25-27 | `update` adds one to the raw count and the weight to the weighted count of that cut only |
| EventCounter.EventCounter.Count | Analysis/EventCounter.py:12 | the raw count of a cut is the number of updates at it (zero when never counted) |
| EventCounter.EventCounter.WeightedCount | Analysis/EventCounter.py:13 | the weighted count is the sum of the weights of the updates at that cut |
| EventCounter.EventCounter.PrintResults | Analysis/EventCounter.py:15-19 | the table shows every counted cut once, with its raw and weighted counts, largest raw count first |
| EventCounter.MostCommon | Analysis/EventCounter.py:17 | `most_common()` lists every label once in non-increasing count order |
| EventCounter.TableStep | Analysis/EventCounter.py:17 | emitting a most common remaining label keeps the table ordered and complete so far |
| EventCounter.MostCommonExists | Analysis/EventCounter.py:17 | a non-empty set of counted cuts has one with the largest count |
| EventCounter.OccurrencesAppend | Analysis/EventCounter.py:25-26 | raw counts add up over consecutive update sequences |
| EventCounter.WeightSumAppend | Analysis/EventCounter.py:27 | weighted counts add up over consecutive update sequences |
| EventCounter.WeightSumUncounted | Analysis/EventCounter.py:27 | a cut never counted has zero weight |
| EventCounter.OccurrencesPositive | Analysis/EventCounter.py:25-26 | a cut has a positive count exactly when some update carried it |
| EventCounter.Cuts | Analysis/EventCounter.py:17-18 | the labels of the printed rows, in order |
| CutFlow.CountWeight | Analysis/Analysis.py:41-43 | the event weight is 1 for data; for simulation it is the product of the Monte Carlo weight and the pile-up, z-vertex, electron, muon and trigger scale factors of the loaded row |
| CutFlow.Tally | Analysis/ZAnalysis.py:57-66 | counting an event at each of a list of cuts gives one update per cut, with the event's weight |
| CutFlow.TallyNext | Analysis/ZAnalysis.py:57-66 | proof step for `TallyCount`: counting one more cut appends one update |
| CutFlow.TallyNone | Analysis/WZAnalysis.py:64 | proof step for `TallyCount`: an event stopped before the first counted cut adds nothing |
| CutFlow.CountNext | Analysis/Analysis.py:69-70 | a `countEvent` at the next cut extends the event's updates by that cut |
| CutFlow.TallyCount | Analysis/ZAnalysis.py:57-66 | an event that got past k distinct cuts is counted once at each and at no later one |
| CutFlow.AppendEvent | Analysis/Analysis.py:41-46 | "all", the analysis' counts, then "final" for an accepted event, form one event's updates |
| CutFlow.OccurrencesSingle | Analysis/EventCounter.py:25-26 | proof step for `EventOccurrences`: one update counts at its own cut only |
| CutFlow.EventOccurrences | Analysis/Analysis.py:41-46 | one event's count at a label splits into "all", the analysis' cuts and "final" |
| CutFlow.EventCounts | Analysis/Analysis.py:41-46 | one event counts "all" once, "final" once exactly if accepted, and each cut it got past once |
| CutFlow.EventWeights | Analysis/Analysis.py:43-46 | one event adds its weight to "all", and to "final" only when accepted |
| CutFlow.RunCounts | Analysis/Job.py:63-68 | over a run, "all" counts the events, "final" the accepted ones, and each cut the events that reached it |
| CutFlow.RunWeights | Analysis/Job.py:63-68 | over a run, weighted "all" is the total weight and weighted "final" the weight of accepted events |
| CutFlow.ReachingMonotone | Analysis/Job.py:63-68 | no more events reach a later cut than an earlier one |
| CutFlow.ReachingAll | Analysis/Job.py:63-68 | a cut every event gets past is reached by all of them |
| CutFlow.ReachingBounded | Analysis/Job.py:63-68 | no cut is reached by more events than there are |
| CutFlow.PassingReachesLast | Analysis/Analysis.py:44-46 | accepted events are among those reaching the last cut |
| CutFlow.CountsMonotone | Analysis/Analysis.py:44-46 | the cut flow never grows: "all" bounds every cut, later cuts never exceed earlier ones, "final" is bounded by the last cut |
| CutFlow.PassingBounded | Analysis/Analysis.py:45-46 | no more events pass than there are events |
| CutFlow.PassingAll | Analysis/Analysis.py:45-49 | when every event is accepted, all of them count as passing |
| CutFlow.FirstCutCountsAll | Analysis/ZAnalysis.py:57 | a first cut that every event reaches counts as many events as "all" |
| CutFlow.FillAll | Analysis/ZAnalysis.py:76-120 | an accepted event fills each named histogram once, with its weight |
| CutFlow.Prefixed | Analysis/ZAnalysis.py:97-117 | histogram names built from a group prefix and the shared suffixes |
| CutFlow.PerObject | Analysis/ZAnalysis.py:116-120 | per-object comprehensions fill each histogram once per object, in histogram order |
| Candidates.Permutations | Analysis/WZAnalysis.py:50 | `itertools.permutations(pool, k)` has \|pool\|!/(\|pool\| - k)! entries (none when k > \|pool\|) |
| Candidates.PermutationsFrom | Analysis/ZZAnalysis.py:103 | the permutations whose first element sits at position i or later: (\|pool\| - i) blocks of (\|pool\| - 1)!/(\|pool\| - k)! |
| Candidates.Without | Analysis/WZAnalysis.py:50 | the pool with one position removed, in order |
| Candidates.Prepend | Analysis/WZAnalysis.py:50 | a fixed first element in front of each shorter permutation |
| Candidates.PermutationsShape | Analysis/WZAnalysis.py:50 | each k-permutation has k elements from the pool, distinct when the pool has no repeats |
| Candidates.PermutationsFromShape | Analysis/ZZAnalysis.py:103 | the permutations starting at a given position have the same shape |
| Candidates.PrependShape | Analysis/ZZAnalysis.py:103 | a pool element in front of permutations of the rest gives permutations of the pool |
| Candidates.ConsShape | Analysis/ZZAnalysis.py:103 | the same for a single permutation |
| Candidates.WithoutDistinct | Analysis/ZZAnalysis.py:103 | removing an element keeps a pool free of repeats |
| Candidates.PermutationsComplete | Analysis/WZAnalysis.py:50 | every sequence of k distinct elements of a pool without repeats is one of its k-permutations |
| Candidates.TailDrawnFromRest | Analysis/ZZAnalysis.py:103 | once the head of a sequence is taken from position i, its rest is drawn without repeats from the pool without position i |
| Candidates.PermutationsFromHas | Analysis/ZZAnalysis.py:103 | the permutations headed by position j are among those headed by position i or later, for i <= j |
| Candidates.PermutationsExactly | Analysis/WZAnalysis.py:50 | for a pool without repeats, the k-permutations are exactly the sequences of k distinct pool elements |
| Candidates.Positions | Analysis/WZAnalysis.py:50 | the positions 0 .. n - 1 of a pool, in order |
| Candidates.Pick | Analysis/WZAnalysis.py:50 | the pool elements at given positions, in the order of the positions |
| Candidates.PickAll | Analysis/WZAnalysis.py:50 | each position sequence of a list read off the pool |
| Candidates.PermutationsInItertoolsOrder | Analysis/WZAnalysis.py:50 | `itertools.permutations(pool, k)` in full: the position sequences of length k without repeats, each exactly once, in strictly increasing lexicographic order, read off the pool |
| Candidates.PickPermutations | Analysis/ZZAnalysis.py:103 | reading elements at positions commutes with enumerating permutations |
| Candidates.PickPermutationsFrom | Analysis/ZZAnalysis.py:103 | the same for the permutations headed by position i or later |
| Candidates.PermutationsWithin | Analysis/ZZAnalysis.py:103 | the positions in a permutation of positions of a pool are positions of that pool |
| Candidates.PickPrepend | Analysis/ZZAnalysis.py:103 | reading off after prepending a position is prepending that position's element |
| Candidates.PickAllAppend | Analysis/ZZAnalysis.py:103 | reading off distributes over the concatenation of lists |
| Candidates.PositionsLexSorted | Analysis/WZAnalysis.py:50 | for strictly increasing positions the permutations come in strictly increasing lexicographic order |
| Candidates.PositionsFromLexSorted | Analysis/ZZAnalysis.py:103 | the permutations headed at position i or later are sorted and all start above every earlier position |
| Candidates.WithoutIncreasing | Analysis/ZZAnalysis.py:103 | removing one position keeps a pool strictly increasing |
| Candidates.PrependLexSorted | Analysis/ZZAnalysis.py:103 | putting the same position in front of each of a sorted list keeps it sorted |
| Candidates.LexSortedAppend | Analysis/ZZAnalysis.py:103 | two sorted lists, each element of the first before each of the second, concatenate to a sorted list |
| Candidates.BestUpTo | Analysis/WZAnalysis.py:49-56 | the best candidate kept after n iterations is one of those n |
| Candidates.BestUpToCorrect | Analysis/ZZAnalysis.py:102-110 | None exactly when no candidate is valid; otherwise a valid candidate with minimal distance, strictly closer than every valid one before it |
| Candidates.FindBest | Analysis/WZAnalysis.py:49-56 | the search loop returns the earliest valid candidate with minimal distance, or None when no candidate is valid |
| Candidates.ValidPair | Analysis/WZAnalysis.py:44-47 | a valid pair never has two charges of the same strict sign (a zero charge passes) |
| Candidates.ValidPairSymmetric | Analysis/ZZAnalysis.py:97-100 | the pair test does not depend on the order of the two leptons; a lepton paired with itself passes only when neutral |
| Candidates.ZWindow | Analysis/WZAnalysis.py:37-38 | the distance of a pair's mass from the Z mass is non-negative and equals the absolute difference |
| ZAnalysis.HistogramRowsLayout | Analysis/ZAnalysis.py:15-51 | `initialize` books catalog rows 0-9, 20-39 and 41, each once |
| ZAnalysis.Initialize | Analysis/ZAnalysis.py:15-51 | `initialize` is one `addStandardHistogram` per booked name, in order |
| ZAnalysis.InitializeRegistry | Analysis/ZAnalysis.py:15-51 | from an empty registry it registers exactly its names, each with its catalog histogram, with no duplicates |
| ZAnalysis.LabelsArePolicyCuts | Analysis/ZAnalysis.py:57-66 | the cut labels are distinct and none of them is "all" or "final" |
| ZAnalysis.CutCounts | Analysis/ZAnalysis.py:55-66 | "no cut" is counted always, "EventCuts" exactly when the event cuts pass, "2 high pt Leptons" exactly when there are also two good leptons |
| ZAnalysis.Analyze | Analysis/ZAnalysis.py:53-122 | `analyze` counts the labels it gets past, returns True exactly for a Z candidate event, and fills only then |
| ZAnalysis.Conclude | Analysis/ZAnalysis.py:68-122 | the Z-candidate tests and the fills decide acceptance |
| ZAnalysis.PassingEvent | Analysis/ZAnalysis.py:60-74 | an accepted event got past every cut with two good leptons, pt-ordered, opposite charges and the same flavour |
| ZAnalysis.FillsRegistered | Analysis/ZAnalysis.py:76-120 | every filled histogram was registered by `initialize` |
| ZAnalysis.FillRowsValid | Analysis/ZAnalysis.py:76-120 | the filled histograms are catalog rows |
| ZAnalysis.FillRowsInCatalog | Analysis/ZAnalysis.py:76-120 | the filled rows are among the booked rows |
| WAnalysis.HistogramRowsLayout | Analysis/WAnalysis.py:15-38 | `initialize` books catalog rows 0-19 and 40, each once |
| WAnalysis.Initialize | Analysis/WAnalysis.py:15-38 | `initialize` is one `addStandardHistogram` per booked name, in order |
| WAnalysis.InitializeRegistry | Analysis/WAnalysis.py:15-38 | from an empty registry it registers exactly its names with their catalog histograms, with no duplicates |
| WAnalysis.LabelsArePolicyCuts | Analysis/WAnalysis.py:44-53 | the cut labels are distinct and none of them is "all" or "final" |
| WAnalysis.CutCounts | Analysis/WAnalysis.py:44-53 | "no cut" always, "EventCuts" exactly when the event cuts pass, "1 high pt Leptons" exactly when there is also one good lepton |
| WAnalysis.Analyze | Analysis/WAnalysis.py:40-92 | `analyze` counts the labels it gets past, accepts exactly the W candidate events, and fills only then |
| WAnalysis.Conclude | Analysis/WAnalysis.py:55-92 | the W-candidate cuts and the fills decide acceptance |
| WAnalysis.PassingEvent | Analysis/WAnalysis.py:47-60 | an accepted event has exactly one good lepton, a W transverse mass above 30 GeV and missing momentum above 30 GeV |
| WAnalysis.FillsRegistered | Analysis/WAnalysis.py:62-90 | every filled histogram was registered |
| WAnalysis.FillRowsValid | Analysis/WAnalysis.py:62-90 | the filled histograms are catalog rows |
| WAnalysis.FillRowsInCatalog | Analysis/WAnalysis.py:62-90 | the filled rows are among the booked rows |
| WZAnalysis.HistogramRowsLayout | Analysis/WZAnalysis.py:16-34 | `initialize` books catalog rows 0-2, 9-19, 40 and 41, each once |
| WZAnalysis.Initialize | Analysis/WZAnalysis.py:16-34 | one `addStandardHistogram` per booked name |
| WZAnalysis.InitializeRegistry | Analysis/WZAnalysis.py:16-34 | from an empty registry it registers exactly its names with their catalog histograms, with no duplicates |
| WZAnalysis.ZPairWindow | Analysis/WZAnalysis.py:40-41 | the test value of a candidate is the Z window of its first two leptons, non-negative |
| WZAnalysis.Triplets | Analysis/WZAnalysis.py:50 | the candidates are exactly the sequences of 3 distinct good leptons, each once: n(n-1)(n-2) of them for n good leptons |
| WZAnalysis.TripletsOrder | Analysis/WZAnalysis.py:50 | the triplets come in `itertools` order: all position triples without repeats over the good leptons, in strictly increasing lexicographic order |
| WZAnalysis.BestCandidate | Analysis/WZAnalysis.py:43-56 | the result names one of the triplets |
| WZAnalysis.WZCandidate | Analysis/WZAnalysis.py:43-56 | the search returns the triplet `BestCandidate` names, or None |
| WZAnalysis.CandidateFound | Analysis/WZAnalysis.py:44-56 | a candidate is found exactly when some triplet has a valid Z pair, and the one found has one; with `Triplets` the triplets range over all ordered triplets of distinct good leptons |
| WZAnalysis.CandidateIsClosest | Analysis/WZAnalysis.py:44-56 | the candidate's Z pair is closest to the Z mass, and it is the first such triplet in `itertools` order |
| WZAnalysis.LabelsArePolicyCuts | Analysis/WZAnalysis.py:63-70 | the cut labels are distinct and none of them is "all" or "final" |
| WZAnalysis.CutCounts | Analysis/WZAnalysis.py:63-70 | "EventCuts" exactly when the event cuts pass, "3 high pt Leptons" exactly when there are also three good leptons; an event failing the event cuts is counted at no label |
| WZAnalysis.Analyze | Analysis/WZAnalysis.py:58-109 | `analyze` counts the labels it gets past, accepts exactly the WZ events, and fills only then |
| WZAnalysis.Conclude | Analysis/WZAnalysis.py:73-107 | the candidate search, the candidate cuts and the fills decide acceptance |
| WZAnalysis.PassingEvent | Analysis/WZAnalysis.py:64-83 | an accepted event has three good leptons; its candidate has a valid Z pair within 10 GeV and a W lepton with transverse mass above 30 GeV |
| WZAnalysis.FillsRegistered | Analysis/WZAnalysis.py:85-107 | every filled histogram was registered |
| WZAnalysis.FillRowsValid | Analysis/WZAnalysis.py:85-107 | the filled histograms are catalog rows |
| WZAnalysis.FillRowsInCatalog | Analysis/WZAnalysis.py:85-107 | the filled rows are among the booked rows |
| ZZAnalysis.CustomNamesBooked | Analysis/ZZAnalysis.py:17-18 | the own histograms are booked as invMass1 and invMass2 |
| ZZAnalysis.CustomNamesOutsideCatalog | Analysis/ZZAnalysis.py:17-18 | the own names differ from each other and from every catalog name |
| ZZAnalysis.HistogramRowsLayout | Analysis/ZZAnalysis.py:20-34 | the standard bookings are catalog rows 0-2 and 9-19, each once |
| ZZAnalysis.Initialize | Analysis/ZZAnalysis.py:16-34 | the two own bookings, then one `addStandardHistogram` per standard name |
| ZZAnalysis.InitializeRegistry | Analysis/ZZAnalysis.py:16-34 | from an empty registry: exactly the own and standard names, own histograms as booked, standard ones from the catalog |
| ZZAnalysis.IsGoodLepton | Analysis/ZZAnalysis.py:113-117 | this module's lepton selection accepts every lepton the standard selection accepts |
| ZZAnalysis.LooserThanStandard | Analysis/ZZAnalysis.py:113-117 | a lepton passes the standard selection exactly when it passes this one and is a tight electron or muon with pt above 25 |
| ZZAnalysis.GoodLeptons | Analysis/ZZAnalysis.py:49 | exactly the leptons passing this module's own `isGoodLepton`, distinct, pt non-increasing |
| ZZAnalysis.DoubleZWindow | Analysis/ZZAnalysis.py:93-94 | the summed Z windows of the two pairs are non-negative |
| ZZAnalysis.Quadruplets | Analysis/ZZAnalysis.py:103 | the candidates are exactly the sequences of 4 distinct good leptons, each once: n(n-1)(n-2)(n-3) of them for n good leptons |
| ZZAnalysis.QuadrupletsOrder | Analysis/ZZAnalysis.py:103 | the quadruplets come in `itertools` order: all position quadruples without repeats over the good leptons, in strictly increasing lexicographic order |
| ZZAnalysis.BestCandidate | Analysis/ZZAnalysis.py:96-110 | the result names one of the quadruplets |
| ZZAnalysis.ZZCandidate | Analysis/ZZAnalysis.py:96-110 | the search returns the quadruplet `BestCandidate` names, or None |
| ZZAnalysis.CandidateFound | Analysis/ZZAnalysis.py:97-110 | found exactly when some quadruplet has two valid pairs, and the one found has them; with `Quadruplets` the quadruplets range over all ordered quadruplets of distinct good leptons |
| ZZAnalysis.CandidateIsClosest | Analysis/ZZAnalysis.py:97-110 | the candidate has the smallest double Z window, and it is the first such quadruplet |
| ZZAnalysis.Select | Analysis/ZZAnalysis.py:49-58 | the uncounted guards (four good leptons, leading pt > 25, a candidate, double window <= 30) decide acceptance |
| ZZAnalysis.LabelsArePolicyCuts | Analysis/ZZAnalysis.py:41-59 | the cut labels are distinct and none of them is "all" or "final" |
| ZZAnalysis.CutCounts | Analysis/ZZAnalysis.py:41-59 | "no cut" always, "EventCuts" exactly when the event cuts pass, "all passed" exactly for accepted events |
| ZZAnalysis.Analyze | Analysis/ZZAnalysis.py:37-85 | `analyze` counts the labels it gets past, accepts exactly the ZZ events, and fills only then |
| ZZAnalysis.PassingEvent | Analysis/ZZAnalysis.py:44-58 | an accepted event has >= 4 good leptons with the leading one above 25 GeV; its candidate is four distinct good leptons in two valid pairs with double window <= 30 |
| ZZAnalysis.FillsRegistered | Analysis/ZZAnalysis.py:61-84 | every filled histogram is an own or a booked standard histogram |
| ZZAnalysis.FillsInitialRegistry | Analysis/ZZAnalysis.py:61-84 | every filled histogram is in the registry `initialize` builds |
| ZZAnalysis.FillRowsValid | Analysis/ZZAnalysis.py:61-84 | the filled standard histograms are catalog rows |
| ZZAnalysis.FillRowsInCatalog | Analysis/ZZAnalysis.py:61-84 | the filled standard rows are among the booked rows |
| HWWAnalysis.CustomNamesBooked | Analysis/HWWAnalysis.py:18-20 | the own histograms are booked as vismass, ptll and deltaphill |
| HWWAnalysis.CustomNamesOutsideCatalog | Analysis/HWWAnalysis.py:18-20 | the own names differ from each other and from every catalog name |
| HWWAnalysis.HistogramRowsLayout | Analysis/HWWAnalysis.py:22-48 | the standard bookings are catalog rows 0-2, 9 and 20-39, each once |
| HWWAnalysis.Initialize | Analysis/HWWAnalysis.py:17-48 | the three own bookings, then one `addStandardHistogram` per standard name |
| HWWAnalysis.InitializeRegistry | Analysis/HWWAnalysis.py:17-48 | from an empty registry: exactly the own and standard names with the right histograms, with no duplicates |
| HWWAnalysis.LabelsArePolicyCuts | Analysis/HWWAnalysis.py:55-71 | the cut labels are distinct and none of them is "all" or "final" |
| HWWAnalysis.CutCounts | Analysis/HWWAnalysis.py:55-71 | "no cut" always, "EventCuts" on the event cuts, "2 high pt Leptons" with also two good leptons, "Jets" with also no good jet |
| HWWAnalysis.Analyze | Analysis/HWWAnalysis.py:51-128 | `analyze` counts the labels it gets past, accepts exactly the H to WW events, and fills only then |
| HWWAnalysis.Conclude | Analysis/HWWAnalysis.py:73-128 | the dilepton cuts and the fills decide acceptance |
| HWWAnalysis.PassingEvent | Analysis/HWWAnalysis.py:58-92 | an accepted event has no good jet and two pt-ordered, opposite-charge leptons with 10 < mll < 55 and MET > 20; for the same flavour also mll > 12, \|mll - mZ\| > 15 and MET > 40; the dilepton pt is above 30, its angle to MET above pi/2 and the lepton opening angle below 1.8 |
| HWWAnalysis.FillsRegistered | Analysis/HWWAnalysis.py:94-127 | every filled histogram is an own or a booked standard histogram |
| HWWAnalysis.FillsInitialRegistry | Analysis/HWWAnalysis.py:94-127 | every filled histogram is in the registry `initialize` builds |
| ZPrimeAnalysis.HistogramRowsLayout | Analysis/ZPrimeAnalysis.py:14-37 | `initialize` books catalog rows 0-8, 10-19 and 40, each once |
| ZPrimeAnalysis.Initialize | Analysis/ZPrimeAnalysis.py:14-37 | one `addStandardHistogram` per booked name |
| ZPrimeAnalysis.InitializeRegistry | Analysis/ZPrimeAnalysis.py:14-37 | from an empty registry it registers exactly its names with their catalog histograms, with no duplicates |
| ZPrimeAnalysis.BTagged | Analysis/ZPrimeAnalysis.py:64 | the b-tag count is at most the number of jets |
| ZPrimeAnalysis.BTaggedPositive | Analysis/ZPrimeAnalysis.py:64 | at least one b-tag exactly when some jet has MV1 >= 0.7892 |
| ZPrimeAnalysis.LabelsArePolicyCuts | Analysis/ZPrimeAnalysis.py:43-71 | the cut labels are distinct and none of them is "all" or "final" |
| ZPrimeAnalysis.PassesIffLastCut | Analysis/ZPrimeAnalysis.py:43-71 | `analyze` accepts exactly the events counted at "masses", its last label; "no cut" is counted always |
| ZPrimeAnalysis.Analyze | Analysis/ZPrimeAnalysis.py:39-102 | `analyze` counts the labels it gets past, accepts exactly the Z' to ttbar events, and fills only then |
| ZPrimeAnalysis.CountObjects | Analysis/ZPrimeAnalysis.py:55-101 | the MET, jet, b-tag and mass cuts, each counted when passed, and the fills |
| ZPrimeAnalysis.PassingEvent | Analysis/ZPrimeAnalysis.py:46-71 | an accepted event has one good lepton, >= 4 good jets with a b-tag, mTW > 30 and mTW + MET > 60 |
| ZPrimeAnalysis.FillsRegistered | Analysis/ZPrimeAnalysis.py:73-101 | every filled histogram was registered |
| ZPrimeAnalysis.FillRowsValid | Analysis/ZPrimeAnalysis.py:73-101 | the filled histograms are catalog rows |
| ZPrimeAnalysis.FillRowsInCatalog | Analysis/ZPrimeAnalysis.py:73-101 | the filled rows are among the booked rows |
| Analysis.Labels | Analysis/Analysis.py:44-46 | each analysis' cut labels are distinct and clash with neither "all" nor "final" |
| Analysis.Stage | Analysis/Analysis.py:45 | an event is counted at no more labels than the analysis has |
| Analysis.Evaluate | Analysis/Analysis.py:41-49 | an analysis' verdict: accepted exactly when `analyze` returns True, and then counted at every label |
| Analysis.Semantics | Analysis/Analysis.py:45 | the verdict on every store, as one function |
| Analysis.PassingReachesEveryCut | Analysis/Analysis.py:45-46 | an accepted event was counted at every one of its analysis' labels |
| Analysis.NoCutFirst | Analysis/ZAnalysis.py:57 | every analysis but WZ counts "no cut" first, for every event |
| Analysis.FillsRegistered | Analysis/Analysis.py:35-36 | every histogram an analysis fills was registered by its `initialize` |
| Analysis.CountAndAnalyze | Analysis/Analysis.py:41-46 | `doAnalysis` counts "all", the analysis' labels, then "final" exactly for accepted events |
| Analysis.Analyze | Analysis/Analysis.py:48-49 | dispatches to the subclass' `analyze`; the base class accepts every event and counts nothing |
| Analysis.Writes | Analysis/Analysis.py:52 | one output line per written histogram |
| Analysis.Prints | Analysis/Analysis.py:53 | one output line per printed row |
| Analysis.Analysis.constructor | Analysis/Analysis.py:15-25 | a new analysis: not data, empty store, counter and registry both named `auxName.ClassName` |
| Analysis.Analysis.SetIsData | Analysis/Analysis.py:28-29 | sets the data flag and nothing else |
| Analysis.Analysis.DoInitialization | Analysis/Analysis.py:35-39 | runs the policy's `initialize` on the registry |
| Analysis.Analysis.DoAnalysis | Analysis/Analysis.py:41-46 | "all" with the event weight (1 for data), the analysis' labels, then "final" exactly when accepted; accepted events log their fills |
| Analysis.Analysis.DoFinalization | Analysis/Analysis.py:51-57 | writes every registered histogram once, then prints the count table ordered by raw count |
| Analysis.Analysis.AddHistogram | Analysis/Analysis.py:60-61 | forwards to the registry |
| Analysis.Analysis.AddStandardHistogram | Analysis/Analysis.py:63-64 | forwards to the registry |
| Analysis.Analysis.CountEvent | Analysis/Analysis.py:69-70 | forwards one update to the counter |
| Job.LowerChar | Analysis/Job.py:45 | lowercasing changes ASCII capitals only, by +32 |
| Job.Lower | Analysis/Job.py:45 | `lower()` maps each character separately |
| Job.LowerIdempotent | Analysis/Job.py:45 | lowercasing twice is lowercasing once |
| Job.LowerSlice | Analysis/Job.py:45 | lowercasing commutes with slicing |
| Job.IsDataWindow | Analysis/Job.py:45 | a sample is data exactly when four consecutive characters of its name spell "data" in any mix of cases |
| Job.Truncate | Analysis/Job.py:89 | `int()` truncates toward zero |
| Job.CappedMaxEvents | Analysis/Job.py:80-90 | no event count (the job aborts) exactly when the input has no entries |
| Job.FractionBounded | Analysis/Job.py:89 | a fraction in [0, 1] of an amount lies between 0 and the amount |
| Job.TruncateBounded | Analysis/Job.py:89 | a truncated non-negative amount stays within its integer bounds |
| Job.ScaleBounded | Analysis/Job.py:89 | scaling a count by a fraction in [0, 1] gives a count between 0 and the original |
| Job.MaxEventsInRange | Analysis/Job.py:80-90 | the number of events lies between 0 and both the entry count and the configured maximum |
| Job.MaxEventsWholeSample | Analysis/Job.py:86-89 | with fraction 1 the number of events is the configured maximum capped at the entry count |
| Job.GetEntry | Analysis/Job.py:67 | loading entry n loads row n; past the end the buffers keep what they held |
| Job.EventStore | Analysis/Job.py:65-67 | in iteration i row i is loaded, or the last row once i is past the end |
| Job.InitialStore | Analysis/Job.py:44 | `initializeTuple` over the input: no row loaded, slots sized from the clamped maxima |
| Job.Depths | Analysis/Job.py:65-68 | the cut depth of each event |
| Job.Weights | Analysis/Analysis.py:43 | the counting weight of each event of the run |
| Job.Outcomes | Analysis/Job.py:65-68 | whether each event of the run was accepted |
| Job.RunLogUpdates | Analysis/Job.py:63-68 | the run's counter updates are the cut flow of its events' depths, weights and outcomes |
| Job.RunEventTotals | Analysis/Job.py:63-68 | "all" counts every event and "final" the accepted ones, with their weight sums |
| Job.VerdictsStep | Analysis/Job.py:65-68 | the verdict on the next row extends the run's verdicts |
| Job.VerdictShape | Analysis/Job.py:65-68 | every analysis' verdicts stop within its labels, and accepted events pass all of them |
| Job.RunCutTotals | Analysis/Job.py:63-68 | each label counts the events that reached it, counts never grow along the flow, and "final" never exceeds the last label |
| Job.RunTotals | Analysis/Job.py:63-68 | the same per analysis: the base class counts every event as "final"; every analysis but WZ counts "no cut" for every event |
| Job.RunStep | Analysis/Job.py:65-68 | one more event appends exactly its own updates and fills |
| Job.NextRow | Analysis/Job.py:65-67 | requesting rows in order loads the event stores one after the other |
| Job.BookedRegistry | Analysis/Job.py:61 | the analysis' registry is the one its `initialize` books |
| Job.Job.constructor | Analysis/Job.py:15-25 | a job has the configured maximum and an output location of directory plus process name |
| Job.Job.CreateAnalysis | Analysis/Job.py:40-46 | a fresh analysis of the configured class, its store over the input, and data exactly when the name says so |
| Job.Job.DetermineMaxEvents | Analysis/Job.py:80-90 | aborts exactly for an input without entries; otherwise caps the maximum at the entry count and scales it by the fraction |
| Job.Job.Initialize | Analysis/Job.py:54-61 | logs the phase, creates the analysis, fixes the event count (or aborts), then books the histograms |
| Job.Job.ProcessEntry | Analysis/Job.py:65-68 | one iteration loads the next row and applies that event's updates and fills |
| Job.Job.Execute | Analysis/Job.py:63-68 | the loop runs max(MaxEvents, 0) times, feeding the rows in order; the counter and fills receive exactly those events' updates |
| Job.Job.Finalize | Analysis/Job.py:70-76 | finalises the analysis, so that every registered histogram is written, then logs success |
| Job.Job.Run | Analysis/Job.py:49-52 | a job ends in `initialize` exactly when the input is empty; otherwise its histograms are booked, the first events are analysed in row order, and every histogram is written |
| RunScript.IndexOf | RunScript.py:15 | the position of the first separator |
| RunScript.Split | RunScript.py:15 | `split(',')` gives at least one piece, and no piece contains a separator |
| RunScript.JoinSplit | RunScript.py:15 | joining the pieces gives the string back |
| RunScript.SplitJoin | RunScript.py:15 | splitting a join of separator-free pieces gives the pieces back |
| RunScript.LeadingSpace | RunScript.py:15 | the whitespace a name starts with |
| RunScript.TrailingSpace | RunScript.py:15 | where the whitespace a name ends with begins |
| RunScript.Strip | RunScript.py:15 | `strip()` removes only whitespace, from both ends, and leaves none at either end |
| RunScript.StripIdempotent | RunScript.py:15 | stripping twice is stripping once |
| RunScript.Unknown | RunScript.py:19-20 | the names reported as not recognised are exactly the requested names that are not processes |
| RunScript.BuildProcessingDict | RunScript.py:11-21 | with no samples, all processes; otherwise exactly the requested names that are processes, with their configured values, and the rest reported |
| RunScript.PrefixStep | RunScript.py:16 | the loop reads the names in order |

## Left out

- Histogram fill values: a fill records only which histogram is filled and with what weight. The filled value (a kinematic quantity) is not modelled.
- Four-vector kinematics: invariant masses, dilepton pt, azimuthal angles and `WTransverseMass` come from ROOT's `TLorentzVector`. They are parameters (`FourVectors`), so every property holds for any choice of them. `tlv()` and its cache are not part of this model.
- `Constants.Z_Mass` is a parameter (`zMass`); the Constants module is not part of this model.
- Floating point: floats are reals, so rounding is not modelled. `int()` truncation is modelled. `math.pi/2.0` is the real constant `HWWAnalysis.HalfPi`.
- Truth information (`truepdgid`, `isTrueJet`) and `getHistogram` are not part of this model. `getHistogram` raises on its first line.
- ROOT and file I/O are not part of this model: opening and closing the output TFile, `setupTree` and `glob`, and how histograms are written to disk. The chain is a table of rows.
- Dynamic loading (`importlib`) and `checkAnalysis` are not part of this model. The analysis class is the `Policy` value in the configuration.
- Job statistics, timers, log timestamps and the text of log and print lines are not part of this model. The job log is a list of `Message` values, and the printed table is a list of rows.
- `sys.exit(1)` on empty input is modelled as `Run` returning `ok == false` after logging the abort.
- The run script's `main`, `SortJobsBySize` and the process `Pool` are not part of this model. Nor are the plotting subsystem and the configuration files.
- Python 2 `str.lower` is ASCII-only on byte strings; Unicode case mapping is not modelled.
- AnalysisHelpers.GoodJetCuts: `isGoodJet` is modelled as written. `abs` wraps the boolean result of each eta comparison, so the eta tests are one-sided. A reading with |eta| would reject forward jets at negative eta; the code is followed.
- TupleReader.Lepton.IsoPtConeRel30 and TupleReader.Lepton.IsoEtConeRel20: a zero stored pt is excluded by a precondition. In the source that division raises `ZeroDivisionError`, which ends the job; the exception is not modelled. The selections only evaluate these after a pt test, so they never meet it.
- TupleReader.GetLeptons and TupleReader.GetJets: `lep_n` and `alljet_n` are the lengths of the per-object record lists, so they are never negative. A negative count in a malformed tuple, for which `[:n]` would drop entries from the end of the view list, cannot be represented.
- WZAnalysis counts no "no cut" label. An event failing the event cuts is counted only at "all"; this is modelled as written.
- WAnalysis and HWWAnalysis register `lep_n`. Neither W nor HWW fills it, and the model follows the code.
- RunScript.BuildProcessingDict: with an empty samples string the source returns the configuration's own dictionary object, so later changes to one show in the other. This aliasing is not modelled; the result is a map value. The "not recognized" print is the `skipped` output.
- EventCounter.MostCommon: the order of rows with equal counts is left open, as it is for `Counter.most_common`.
- Job.Job.Finalize: it states that every registered histogram is written and what was appended to the output. It does not restate the row-ordering guarantees of `DoFinalization`.
- Job.Job.Run: the counts of a run are stated through the verdicts the analysis gives each event (`Verdicts`, `After`). The totals are in `Job.RunTotals` and `Job.VerdictShape`.
