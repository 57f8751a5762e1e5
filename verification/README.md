# Concept network and cross-reference timeline: a Dafny model

Three plotting scripts from a book-analysis repository compute some data before they draw anything. This project models that data logic and proves properties of it. The drawing itself is not modelled.

- **The concept table.** A Python dict maps a concept name to its mention count, and it remembers insertion order.
  - The enhanced script renames 15 single-word concepts to multi-word keys through an if/elif chain, then merges in 10 more concepts with `update`.
  - The final script writes the same 25 counts as one dict display.
  - Model: `ConceptTable.Table` (the key order plus the map), `Assign` (`d[k] = v`) and `Update` (`d.update(...)`).
- **The link table.** A nested `defaultdict` maps source to target to strength. It is filled from a fixed list of 66 `(from, to, strength)` tuples, keeping only tuples whose two endpoints are concepts; a later tuple for the same pair wins.
  - The enhanced script then ties every concept that no tuple names to a "hub" concept, chosen by a first-match substring rule.
  - Model: `ConceptLinks` and `EnhancedConceptNetwork`.
- **The ring layout.**
  - Concepts are sorted stably by count, highest first.
  - Rank 0 goes to the centre, ranks 1-6 to a ring of radius 3.5, ranks 7-14 to a ring of radius 6.5 (shifted by half a slot), and the rest to a ring of radius 9.5.
  - A position is kept in polar form, with the angle as a fraction of a full turn, so no cosine or sine is needed.
  - Model: `RingLayout`.
- **The drawing sizes.** Bubble radius, arrow width, arrow opacity and font size are affine maps of `count / max` or `strength / max`, in exact `real` arithmetic. Model: `Scaling`.
- **The timeline.**
  - CSV rows (each a map from column name to cell text) are filtered into page references.
  - The references are split into forward and backward ones, and the plotted page range is computed.
  - Each reference becomes a parabolic arc whose height is capped.
  - Model: `FinalTimelineVisualization`.

The three scripts are modelled in `enhanced_concept_network.dfy`, `final_concept_network.dfy` and `final_timeline_visualization.dfy`. The parts the two concept scripts share are in these modules:

- `concept_table.dfy`;
- `concept_links.dfy`, which holds the tuple list; the list is identical in both scripts;
- `ring_layout.dfy`, which holds the layer loop; the loop is identical in both scripts apart from variable names;
- `scaling.dfy`;
- `common.dfy`.

The loops of the source are methods with loop invariants. Each method is proved against a specification function (`RecordLinks`, `Endpoints`, `Update`, `Kept`, `Placement`), and the lemmas state what those functions promise.

## Model

| member | source | states |
|---|---|---|
| Common.SeqMax | final_concept_network.py:153 | Python `max` of a non-empty list: an element of the list that no element exceeds |
| Common.SeqMin | final_timeline_visualization.py:66 | Python `min` of a non-empty list: an element of the list that no element undercuts |
| ConceptTable.Assign | enhanced_concept_network.py:61-91 | `d[name] = count` sets the count; a new name is appended to the key order, an existing one keeps its place; validity (distinct keys, keys equal to the map's keys) is preserved |
| ConceptTable.Update | enhanced_concept_network.py:100 | `d.update(entries)` keeps a table valid |
| ConceptTable.UpdateKeySet | enhanced_concept_network.py:100 | after `update`, a name is a key exactly when it was a key before or some entry names it |
| ConceptTable.UpdateLastWins | enhanced_concept_network.py:100 | the last entry naming a key decides its count, whatever came before |
| ConceptTable.UpdateUntouched | enhanced_concept_network.py:100 | a key that no entry names keeps its count |
| ConceptTable.FreshNames | enhanced_concept_network.py:100 | the names an `update` appends are never keys already |
| ConceptTable.FreshNamesSpec | enhanced_concept_network.py:100 | the appended names are exactly the named entries that were not keys, each once, in order of first mention |
| ConceptTable.UpdateKeys | enhanced_concept_network.py:100 | the key order after `update` is the old order unchanged, followed by the appended names |
| ConceptTable.FromEntries | final_concept_network.py:18-27 | a dict display yields a valid table |
| ConceptTable.UpdateFreshKeys | enhanced_concept_network.py:100 | updating with new, distinct names appends exactly those names, in order, to the key order |
| ConceptTable.UpdateFreshCounts | enhanced_concept_network.py:100 | updating with new, distinct names keeps every old count and stores each new name with its own count |
| ConceptTable.DisplayThenUpdate | enhanced_concept_network.py:60-100 | a display followed by an `update`, all names distinct: valid, keys are the two name lists in order, one count per name, each name with its own count |
| ConceptTable.DisplayContents | final_concept_network.py:18-27 | a display with distinct names: keys in display order, one count per entry, each name with its own count |
| ConceptTable.DisplayKeyOrigin | final_concept_network.py:18-27 | every key of a display holds the count of the entry that names it |
| ConceptTable.TableSize | final_concept_network.py:18-27 | a valid table has exactly one count per listed key |
| ConceptLinks.Put | enhanced_concept_network.py:212 | `concept_links[f][t] = s` on a nested defaultdict sets that pair to `s`, leaves every other pair alone, and never creates an empty inner dict |
| ConceptLinks.RecordLinks | enhanced_concept_network.py:210-212 | the filtered links have no empty inner dict, and every stored link joins two known concepts |
| ConceptLinks.Endpoints | enhanced_concept_network.py:208-214 | `connected_concepts` holds only known concepts |
| ConceptLinks.StrengthStep | enhanced_concept_network.py:210-212 | one more tuple decides its own pair if it is accepted; every other pair keeps its earlier strength |
| ConceptLinks.RecordedNone | enhanced_concept_network.py:210-212 | no link is stored for a pair exactly when no accepted tuple names that pair |
| ConceptLinks.RecordedLast | enhanced_concept_network.py:210-212 | a stored link has the strength of the last accepted tuple naming its pair, and such a tuple exists |
| ConceptLinks.RecordedStrength | final_concept_network.py:88-94 | both directions of "stored iff some accepted tuple names the pair", with last-tuple-wins strength |
| ConceptLinks.RecordStep | enhanced_concept_network.py:210-214 | one loop iteration: an accepted tuple is stored and both its endpoints join the connected set; any other tuple changes nothing |
| ConceptLinks.EndpointsSpec | enhanced_concept_network.py:208-214 | a concept is connected exactly when some accepted tuple names it as source or target |
| ConceptLinks.ConnectedIffEndpoint | enhanced_concept_network.py:207-217 | the connected concepts are exactly the endpoints of the stored links |
| ConceptLinks.RecordedStrengthFromList | final_concept_network.py:90-92 | every stored (from, to, strength) is one of the listed tuples, so no link is invented |
| ConceptLinks.SameStrengthsSameLinks | enhanced_concept_network.py:105 | two nested link maps without empty inner dicts that agree on every pair are equal |
| ConceptLinks.ConnectionsPositive | final_concept_network.py:32-86 | every tuple of the list has a positive strength |
| ConceptLinks.PositiveConcat | final_concept_network.py:32-86 | joining two lists of positive tuples gives a list of positive tuples |
| ConceptLinks.HeadGroupsPositive | final_concept_network.py:33-52 | the first four groups of the list have positive strengths |
| ConceptLinks.RecordedPositive | final_concept_network.py:88-94 | when every tuple is positive, every stored strength is positive |
| RingLayout.Insert | enhanced_concept_network.py:243 | the insertion step of the sort adds exactly one occurrence of the inserted name |
| RingLayout.InsertKeepsSorted | enhanced_concept_network.py:243 | inserting into a list sorted by descending count keeps it sorted |
| RingLayout.SortByCountDesc | enhanced_concept_network.py:243 | `sorted(..., key=count, reverse=True)` is a permutation of its input, ordered by descending count, without repeats when the input has none |
| RingLayout.InsertKeepsEqualCountOrder | final_concept_network.py:98 | inserting a name puts it first among the names with the same count and keeps their order |
| RingLayout.SortIsStable | final_concept_network.py:98 | among concepts with equal counts, the sorted order is the original key order |
| RingLayout.SortedRanksCoverNames | enhanced_concept_network.py:243 | a reordering has exactly the original names at its ranks |
| RingLayout.SliceStart | enhanced_concept_network.py:247-252 | each slice starts within the list, with Python's clamping of slice bounds |
| RingLayout.SliceStop | enhanced_concept_network.py:247-252 | each slice stops between its start and the end of the list |
| RingLayout.RingSize | final_concept_network.py:102-107 | ring sizes are min(1,N), min(6,max(0,N-1)), min(8,max(0,N-7)) and max(0,N-15) |
| RingLayout.PlacementByTier | enhanced_concept_network.py:261-288 | rank 0 is at the origin; ranks 1-6 at radius 3.5, turn (k-1)/size; ranks 7-14 at radius 6.5, turn (2(k-7)+1)/(2 size); ranks 15+ at radius 9.5, turn (k-15)/size |
| RingLayout.RankInSlice | enhanced_concept_network.py:247-252 | a rank lies in the slice of exactly one ring, the one its tier names, and that slice starts at the tier's first rank |
| RingLayout.RingSizesAddUp | enhanced_concept_network.py:247-252 | the four slices are consecutive and cover all N ranks |
| RingLayout.RingOfRank | enhanced_concept_network.py:247-252 | the ring of a rank starts at or before the rank and has room for it; only rank 0 is at the centre, and exactly the ranks from 15 on are on the outer ring |
| RingLayout.SlotPosition | enhanced_concept_network.py:264-288 | a slot lies at its ring's radius, and its angle is within one full turn: its fraction lies in [0, 1) |
| RingLayout.Placement | enhanced_concept_network.py:255-288 | a rank is placed at the radius of its ring, at an angle within one full turn |
| RingLayout.SlotSpacingUniform | enhanced_concept_network.py:264-288 | neighbouring slots on a ring are 1/size of a turn apart |
| RingLayout.SlotsDistinct | enhanced_concept_network.py:264-288 | different slots on one ring have different angles |
| RingLayout.PlacementInjective | enhanced_concept_network.py:255-288 | no two ranks share a position |
| RingLayout.Placed | enhanced_concept_network.py:255 | the number of ranks placed before a layer is at most N |
| RingLayout.HalfSlotOffset | enhanced_concept_network.py:275-277 | the middle ring's offset pi/n plus 2 pi i/n is the fraction (2i+1)/(2n) of a turn |
| RingLayout.PlaceNext | enhanced_concept_network.py:255-288 | placing the next rank at its placement extends the placed prefix by one |
| RingLayout.PlaceCentre | enhanced_concept_network.py:261-262 | the first concept goes to the origin |
| RingLayout.PlacedInjective | enhanced_concept_network.py:255-290 | once every rank is placed, no two concepts share a position |
| RingLayout.SlotPlacement | enhanced_concept_network.py:264-288 | slot i, computed as the layer loop computes it, is the placement of rank SliceStart + i |
| RingLayout.PlaceRing | enhanced_concept_network.py:264-288 | the per-ring loop places exactly the ring's slice, each member at the placement of its rank |
| RingLayout.PlaceSlot | enhanced_concept_network.py:276-280 | one iteration of a ring loop extends the placed prefix by one rank |
| RingLayout.PlanSlice | enhanced_concept_network.py:247-255 | each ring's slice starts where the previous rings stop |
| RingLayout.PlaceLayer | enhanced_concept_network.py:255-288 | one pass of the layer loop (skip an empty ring, centre, or spread) places exactly that ring's slice |
| RingLayout.PlacedAll | enhanced_concept_network.py:255-290 | a full placement is keyed by exactly the concepts, each at its rank's placement, all positions distinct |
| RingLayout.PlaceRings | final_concept_network.py:109-134 | the layer loop gives every concept exactly one position, the one its rank dictates, with no two coinciding |
| Scaling.BubbleRadius | final_concept_network.py:205 | radius lies in (0.3, 1.1] for 0 < count <= max, and reaches 1.1 exactly at the maximum |
| Scaling.ArrowWidth | final_concept_network.py:165 | width lies in (1, 4] for 0 < strength <= max, and reaches 4 exactly at the maximum |
| Scaling.ArrowAlpha | final_concept_network.py:166 | opacity lies in (0.4, 0.9] for 0 < strength <= max, and reaches 0.9 exactly at the maximum |
| Scaling.FontSize | final_concept_network.py:215 | font size lies in [8, 12]; it is at most 10 for counts up to the maximum, and exactly 8 when the count is at most a third of the maximum |
| Scaling.CountScalingMonotone | enhanced_concept_network.py:375-391 | a larger count never gives a smaller bubble or font |
| Scaling.StrengthScalingMonotone | enhanced_concept_network.py:327-328 | a stronger link never gets a thinner or fainter arrow |
| Scaling.Values | enhanced_concept_network.py:313 | `concepts.values()` lists each key's count, in key order |
| Scaling.MaxCount | enhanced_concept_network.py:313 | `max(concepts.values())` is a count in the table that no count exceeds; it is absent exactly for the empty table, where Python raises |
| Scaling.ArrowStylesInRange | enhanced_concept_network.py:314-328 | with positive strengths and their maximum, the maximum is positive, every drawn arrow has width in (1, 4] and opacity in (0.4, 0.9], and the strongest link gets width 4 and opacity 0.9 |
| Scaling.IsMaxStrength | enhanced_concept_network.py:314 | a maximum strength exists only for a non-empty link table |
| Scaling.MaxStrengthUnique | enhanced_concept_network.py:314 | the maximum strength is unique |
| EnhancedConceptNetwork.RenameLands | enhanced_concept_network.py:62-91 | the chain either keeps a name or sends one of the words it lists to one of the renamed keys |
| EnhancedConceptNetwork.RenameKeepsUnlisted | enhanced_concept_network.py:90-91 | a name the chain does not list is stored under itself |
| EnhancedConceptNetwork.RenameEntries | enhanced_concept_network.py:61-91 | each entry is stored under its renamed key with its count unchanged |
| EnhancedConceptNetwork.RenamedKeysDistinct | enhanced_concept_network.py:62-91 | the 15 renamed keys are distinct |
| EnhancedConceptNetwork.AdditionalKeysDistinct | enhanced_concept_network.py:94-98 | the 10 additional names are distinct |
| EnhancedConceptNetwork.KeysDisjoint | enhanced_concept_network.py:94-100 | no additional name clashes with a renamed key, so `update` overrides nothing |
| EnhancedConceptNetwork.EnhancedKeysDistinct | enhanced_concept_network.py:60-100 | the 25 keys are distinct |
| EnhancedConceptNetwork.RenameGroup1 | enhanced_concept_network.py:62-67 | probability, modeling and data go to probability_theory, statistical_modeling and data_analysis |
| EnhancedConceptNetwork.RenameGroup2 | enhanced_concept_network.py:68-73 | estimation, multivariate and parametric go to parameter_estimation, multivariate_analysis and parametric_methods |
| EnhancedConceptNetwork.RenameGroup3 | enhanced_concept_network.py:74-79 | entropy, scaling and time_series go to information_theory, scaling_laws and time_series_analysis |
| EnhancedConceptNetwork.RenameGroup4 | enhanced_concept_network.py:80-85 | network, validation and causation go to network_analysis, model_validation and causal_inference |
| EnhancedConceptNetwork.RenameGroup5 | enhanced_concept_network.py:86-91 | dependence goes to correlation_analysis, univariate stays univariate, nonparametric goes to nonparametric_methods |
| EnhancedConceptNetwork.AdditionalNames | enhanced_concept_network.py:94-98 | the names of the additional concepts, in order |
| EnhancedConceptNetwork.EnhancedKeysFromEntries | enhanced_concept_network.py:60-100 | the renamed singles supply the first 15 keys and the additional concepts the last 10 |
| EnhancedConceptNetwork.RenameThenUpdate | enhanced_concept_network.py:60-100 | after renaming and updating, each single-word concept's count sits under its renamed key |
| EnhancedConceptNetwork.EnhancedTableContents | enhanced_concept_network.py:20-101 | the table is valid with the 25 keys in insertion order; each renamed single and each additional concept has its own count |
| EnhancedConceptNetwork.EnhancedTable | enhanced_concept_network.py:20-101 | the returned table is valid, and its keys are the 25 names in insertion order |
| EnhancedConceptNetwork.EnhancedNamesDistinct | enhanced_concept_network.py:60-100 | the names the two stages store are distinct |
| EnhancedConceptNetwork.RenamedCounts | enhanced_concept_network.py:61-91 | a table holding every renamed entry holds each original count under the renamed key |
| EnhancedConceptNetwork.RenamePrefixStep | enhanced_concept_network.py:61-91 | one more iteration of the rename loop is one more assignment |
| EnhancedConceptNetwork.ExtractEnhancedConcepts | enhanced_concept_network.py:20-101 | the rename loop followed by `update` builds the enhanced table, which is valid with the 25 keys in order |
| EnhancedConceptNetwork.Contains | enhanced_concept_network.py:222-227 | `sub in s` needs `sub` no longer than `s`, and the empty string is in every string |
| EnhancedConceptNetwork.NotContains | enhanced_concept_network.py:222-227 | `sub in s` is false when the first character of `sub` never occurs in `s` |
| EnhancedConceptNetwork.NotContainsPair | enhanced_concept_network.py:222-227 | `sub in s` is false when the first two characters of `sub` never occur side by side in `s` |
| EnhancedConceptNetwork.Hub | enhanced_concept_network.py:220-229 | the first-match substring rule always picks one of the four hubs |
| EnhancedConceptNetwork.ProbabilityHubFixed | enhanced_concept_network.py:222-223 | probability_theory is its own hub |
| EnhancedConceptNetwork.ModelingHubFixed | enhanced_concept_network.py:224-225 | statistical_modeling is its own hub |
| EnhancedConceptNetwork.DataHubFixed | enhanced_concept_network.py:226-227 | data_analysis is its own hub |
| EnhancedConceptNetwork.LearningHubFixed | enhanced_concept_network.py:228-229 | machine_learning is its own hub |
| EnhancedConceptNetwork.HubIdempotent | enhanced_concept_network.py:220-233 | the hub of a hub is itself, so the isolated concepts can be patched in any order |
| EnhancedConceptNetwork.Isolated | enhanced_concept_network.py:217 | the isolated concepts are concepts |
| EnhancedConceptNetwork.PatchStrength | enhanced_concept_network.py:231-233 | a pair with no isolated end keeps its recorded strength; a changed pair has strength 3 into an isolated concept or 5 out of one; the link from an isolated concept's hub, when the hub is a concept, to that concept is 3 |
| EnhancedConceptNetwork.PatchOne | enhanced_concept_network.py:231-233 | patching one more isolated concept sets isolated-to-hub 5 and hub-to-isolated 3 (only when the hub is a concept) and changes no other pair |
| EnhancedConceptNetwork.PatchOtherPair | enhanced_concept_network.py:231-233 | a pair other than the two new links keeps its expected strength |
| EnhancedConceptNetwork.PatchKeepsRecorded | enhanced_concept_network.py:216-233 | patching leaves every link recorded from the tuple list unchanged |
| EnhancedConceptNetwork.PatchConnects | enhanced_concept_network.py:216-233 | after patching, a concept is an endpoint of some link exactly when a tuple names it or its hub is a concept |
| EnhancedConceptNetwork.PatchedSummary | enhanced_concept_network.py:216-233 | after patching, every link joins two concepts, the recorded links are kept, and the "all vertices connected" iff holds |
| EnhancedConceptNetwork.PatchedPositive | enhanced_concept_network.py:216-233 | patching adds only strengths 5 and 3, so positive tuples still give positive links |
| EnhancedConceptNetwork.EnhancedArrowsInRange | enhanced_concept_network.py:314-328 | for the patched links of the tuple list, every drawn arrow has width in (1, 4] and opacity in (0.4, 0.9], the strongest at 4 and 0.9 |
| EnhancedConceptNetwork.CreateEnhancedConceptLinks | enhanced_concept_network.py:103-235 | the two loops yield the recorded links patched pointwise; every link joins two concepts; recorded links are kept; a concept is connected iff a tuple names it or its hub is a concept |
| EnhancedConceptNetwork.CalculateLayoutPositions | enhanced_concept_network.py:237-290 | positions are keyed by exactly the concepts, each at the placement of its rank in the stable descending sort, and no two coincide |
| FinalConceptNetwork.FinalNames | final_concept_network.py:18-27 | the display's names in order |
| FinalConceptNetwork.FinalHeadDistinct | final_concept_network.py:19-22 | the first 12 names are distinct |
| FinalConceptNetwork.FinalTailDistinct | final_concept_network.py:23-26 | the last 13 names are distinct |
| FinalConceptNetwork.FinalHalvesDisjoint | final_concept_network.py:18-27 | the two halves share no name |
| FinalConceptNetwork.FinalKeysDistinct | final_concept_network.py:18-27 | the 25 names of the display are distinct |
| FinalConceptNetwork.CountsBounded | final_concept_network.py:18-27 | probability_theory comes first with 379, and every other count is positive and below 379 |
| FinalConceptNetwork.LoadEnhancedConcepts | final_concept_network.py:16-28 | the loaded table is valid |
| FinalConceptNetwork.LoadedTableContents | final_concept_network.py:16-28 | the table has the 25 keys in display order, each with its own count |
| FinalConceptNetwork.LoadedCountsBounded | final_concept_network.py:18-27 | every loaded count is in (0, 379], and only probability_theory reaches 379 |
| FinalConceptNetwork.LoadedMaxCount | final_concept_network.py:153 | `max(concepts.values())` is 379 |
| FinalConceptNetwork.LoadedBubblesInRange | final_concept_network.py:203-215 | with the loaded counts, every bubble radius is in (0.3, 1.1] and every font size in [8, 10]; only probability_theory gets radius 1.1 |
| FinalConceptNetwork.CreateConceptConnections | final_concept_network.py:88-94 | the loop yields the filtered links of the tuple list, and every stored link joins two concepts |
| FinalConceptNetwork.FinalArrowsInRange | final_concept_network.py:154-166 | for the links of the tuple list, the maximum strength is positive and every drawn arrow has width in (1, 4] and opacity in (0.4, 0.9] |
| FinalConceptNetwork.CalculateCleanLayout | final_concept_network.py:96-134 | positions are keyed by exactly the concepts, each at the placement of its rank in the stable descending sort, and no two coincide |
| FinalTimelineVisualization.StripLeft | final_timeline_visualization.py:24 | drops a prefix made only of whitespace, leaving a result that does not start with whitespace |
| FinalTimelineVisualization.StripRight | final_timeline_visualization.py:24 | drops a suffix made only of whitespace, leaving a result that does not end with whitespace |
| FinalTimelineVisualization.Strip | final_timeline_visualization.py:24 | `strip()` neither starts nor ends with whitespace |
| FinalTimelineVisualization.StripSpec | final_timeline_visualization.py:24 | `strip()` is the slice of the cell left after a whitespace prefix and a whitespace suffix are cut off, and a cell that neither starts nor ends with whitespace is its own strip |
| FinalTimelineVisualization.StripSlice | final_timeline_visualization.py:24 | cutting a whitespace prefix and then a whitespace suffix leaves a slice with only whitespace around it |
| FinalTimelineVisualization.StripIdempotent | final_timeline_visualization.py:24 | stripping twice is stripping once |
| FinalTimelineVisualization.ParseInt | final_timeline_visualization.py:23 | `int(cell)` of a blank cell fails, and a cell of plain decimal digits parses to their value |
| FinalTimelineVisualization.ParseStripped | final_timeline_visualization.py:26 | a number parses only when it ends in a digit and starts with a digit or a sign; a negative value needs a minus; plain digits parse to their value |
| FinalTimelineVisualization.ParseIgnoresSpaces | final_timeline_visualization.py:24-26 | `int(s.strip())` equals `int(s)`, so the extra strip on the To Page cell changes no parse |
| FinalTimelineVisualization.ParseRejectsBlank | final_timeline_visualization.py:25 | a blank cell never parses |
| FinalTimelineVisualization.FormatNat | final_timeline_visualization.py:23 | the decimal digits of a natural number form a non-empty digit string |
| FinalTimelineVisualization.DigitsOfFormat | final_timeline_visualization.py:23 | the value of the digits of n is n |
| FinalTimelineVisualization.FormatIsStripped | final_timeline_visualization.py:23 | a formatted integer has no surrounding whitespace |
| FinalTimelineVisualization.ParseFormatRoundTrip | final_timeline_visualization.py:23 | `int(str(n)) == n`: parsing is a left inverse of formatting |
| FinalTimelineVisualization.RowReference | final_timeline_visualization.py:22-33 | a row yields a reference only when its pages lie more than three apart |
| FinalTimelineVisualization.RowKeptOnlyIf | final_timeline_visualization.py:23-31 | a kept row has its four columns and two parsing pages, and the reference carries those pages and the two section cells unchanged |
| FinalTimelineVisualization.RowKeptIf | final_timeline_visualization.py:23-31 | a row with four columns, two parsing pages and a span of more than three is kept |
| FinalTimelineVisualization.RowReferenceSpec | final_timeline_visualization.py:22-33 | both directions: a row is kept exactly when its columns are present, both pages parse and they lie more than three apart |
| FinalTimelineVisualization.Kept | final_timeline_visualization.py:21-33 | at most one reference per row |
| FinalTimelineVisualization.KeptAppend | final_timeline_visualization.py:21-31 | the references keep row order: filtering a concatenation concatenates the results |
| FinalTimelineVisualization.KeptMembers | final_timeline_visualization.py:21-33 | a reference is kept exactly when some row yields it |
| FinalTimelineVisualization.KeptSignificant | final_timeline_visualization.py:27 | every kept reference spans more than three pages |
| FinalTimelineVisualization.KeptStep | final_timeline_visualization.py:21-33 | one more row appends what that row yields, or nothing when it is skipped |
| FinalTimelineVisualization.LoadCrossReferences | final_timeline_visualization.py:16-34 | the row loop, with skipped rows, returns exactly the references kept from the rows, in order |
| FinalTimelineVisualization.Forward | final_timeline_visualization.py:59 | every forward reference points to a later page |
| FinalTimelineVisualization.Backward | final_timeline_visualization.py:60 | every backward reference points to an earlier page |
| FinalTimelineVisualization.SplitMembers | final_timeline_visualization.py:59-60 | a reference is forward (backward) exactly when it is listed and points to a later (earlier) page |
| FinalTimelineVisualization.SplitAppend | final_timeline_visualization.py:59-60 | both lists keep the order of the references |
| FinalTimelineVisualization.ForwardAppend | final_timeline_visualization.py:59 | the forward list of a concatenation is the concatenation of the forward lists |
| FinalTimelineVisualization.BackwardAppend | final_timeline_visualization.py:60 | the backward list of a concatenation is the concatenation of the backward lists |
| FinalTimelineVisualization.SplitPartition | final_timeline_visualization.py:59-60 | with no self-references, forward and backward together hold every reference exactly once |
| FinalTimelineVisualization.LoadedSplitPartition | final_timeline_visualization.py:59-60 | the loaded references are partitioned: the multisets add up and the lengths sum to the total |
| FinalTimelineVisualization.ChapterPages | final_timeline_visualization.py:38-48 | `chapters.keys()` lists each chapter's page, in order |
| FinalTimelineVisualization.MainChaptersOrdered | final_timeline_visualization.py:38-48 | 19 chapters with strictly increasing pages from 26 to 414 |
| FinalTimelineVisualization.IncreasingPages | final_timeline_visualization.py:66-67 | strictly increasing pages are distinct, with min the first and max the last |
| FinalTimelineVisualization.MainChapterPages | final_timeline_visualization.py:38-48 | the chapter pages are distinct, with minimum 26 and maximum 414 |
| FinalTimelineVisualization.FromPages | final_timeline_visualization.py:66 | the from pages of the references, in order |
| FinalTimelineVisualization.ToPages | final_timeline_visualization.py:67 | the to pages of the references, in order |
| FinalTimelineVisualization.PageRange | final_timeline_visualization.py:66-67 | as written: defined exactly when there are chapters and references; the lower bound is at most every chapter page and every from page, and is one of them; the upper bound is at least every chapter page and every to page, and is one of them |
| FinalTimelineVisualization.PageRangeMissesTarget | final_timeline_visualization.py:66-70 | one chapter at 26 and one reference from 40 to 5 give range (26, 26), and page 5 lies outside the plotted interval |
| FinalTimelineVisualization.FullPageRange | final_timeline_visualization.py:66-67 | the corrected range contains every chapter page and both ends of every reference |
| FinalTimelineVisualization.FullRangeContainsPageRange | final_timeline_visualization.py:66-67 | the corrected range contains the range as written; the lower ends agree when no target lies below the range as written, and the upper ends agree when no source lies above it |
| FinalTimelineVisualization.FullRangeAttained | final_timeline_visualization.py:66-67 | both ends of the corrected range are a chapter page or an end of some reference |
| FinalTimelineVisualization.AttainedInParts | final_timeline_visualization.py:66-67 | a page of the combined list is a chapter page or an end of some reference |
| FinalTimelineVisualization.CurveHeight | final_timeline_visualization.py:90-91 | `min(0.25 + d/500, 0.8)` lies in [0.25, 0.8], and equals 0.8 exactly when d >= 275 |
| FinalTimelineVisualization.CurveHeightMonotone | final_timeline_visualization.py:106-107 | a longer reference never gets a lower arc |
| FinalTimelineVisualization.ArcOffset | final_timeline_visualization.py:94 | `h*4t(1-t)` is 0 at t = 0 and t = 1, h at t = 1/2, and within [0, h] in between |
| FinalTimelineVisualization.ProfileBounds | final_timeline_visualization.py:94 | for t in [0, 1], `4t(1-t)` scaled by a non-negative h stays within [0, h] |
| FinalTimelineVisualization.ArcParam | final_timeline_visualization.py:95 | between the two pages the arc parameter runs over [0, 1]: 0 at the source page, 1 at the target page |
| FinalTimelineVisualization.ForwardY | final_timeline_visualization.py:94-95 | between its pages a forward arc lies in [0, h], and it touches the timeline at the two pages |
| FinalTimelineVisualization.BackwardY | final_timeline_visualization.py:110-111 | a backward arc is the forward arc mirrored: it lies in [-h, 0] between its pages and touches the timeline at both |

## Left out

- Drawing: figures, patches, text, axis set-up and file output are matplotlib calls with no stateable result; so are the colour tables, the text-colour choice and the underscore-to-newline display names.
- The cosines and sines of the layout are not modelled. A position keeps its radius and its angle as a fraction of a turn.
- The square-root direction normalisation and the arrow end offsets (enhanced_concept_network.py:331-346, final_concept_network.py:169-179) are not modelled, nor is the `np.linspace` sampling of the arcs. The arcs are stated for every abscissa between the two pages instead.
- All arithmetic is exact `real`; IEEE rounding of the Python floats is abstracted away.
- Reading the CSV file is not modelled. The rows are a parameter: a sequence of maps from column name to cell text.
- Python's `int()` also accepts underscores between digits, non-ASCII digits and non-ASCII whitespace, and `strip()` also removes non-ASCII whitespace. The model accepts ASCII whitespace, an optional sign and ASCII digits only.
- A short CSV row makes `csv.DictReader` put `None` in a cell. `int(None)` or `None.strip()` then raises an exception that the `except (ValueError, KeyError)` clause does not catch, and the script stops. Cells are always strings here, so that crash is not modelled.
- Dead code is not modelled: the unused `concept_content` dict (enhanced_concept_network.py:22), the unused pattern dictionary (25-50), the `major_hubs` list (218), `n` (239), and the unused `pdfplumber` and `re` imports (enhanced_concept_network.py:17-18, final_timeline_visualization.py:13-14).
- Console printing is not modelled.
- The walk over the isolated set follows hash order. The model picks the members in an arbitrary order, and the result is proved independent of it.
- Scaling.BubbleRadius: requires a non-zero maximum count. The source would raise ZeroDivisionError there; that case is a precondition rather than an error result.
- Scaling.FontSize: requires a non-zero maximum count, for the same reason.
- Scaling.ArrowWidth: requires a non-zero maximum strength. A zero maximum is not guarded in the source, and the division would raise.
- Scaling.ArrowAlpha: requires a non-zero maximum strength, for the same reason.
- Scaling.IsMaxStrength: `max_link_strength` is characterised by a predicate, not computed. It skips empty inner dicts; the model has none, because `Put` never creates one.
- The two copies of the tuple list and of the layer loop are modelled once each: `ConceptLinks.Connections` and `RingLayout.PlaceRings`.
- The concrete strengths the filtered tuple list yields for the 25 concepts are not enumerated. The properties are proved for any concept set.
- `ConceptLinks.Connections` is written as the concatenation of the ten commented groups of the source list, in order; the tuples and their order are those of the source.

## Findings

| source | as written | input that shows it | evidently intended | confidence | as-written member | corrected member |
|---|---|---|---|---|---|---|
| final_timeline_visualization.py:66-67 | `min_page` looks only at chapter pages and from pages; `max_page` looks only at chapter pages and to pages | one chapter at page 26, one reference from page 40 to page 5: the range is (26, 26), and page 5 falls outside the plotted interval [6, 46], so the backward arc is clipped | the plotted range covers both ends of every reference | medium, not executed | FinalTimelineVisualization.PageRangeMissesTarget | FinalTimelineVisualization.FullPageRange |
