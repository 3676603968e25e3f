# MaSIF docking pipeline: candidate shortlisting

This project models, in Dafny, the bookkeeping in the MaSIF-search docking script
`masif_docking_specific_pipeline_nn.py` that decides which database surface
points are handed to the alignment stage and which alignments are written out.
It has four parts:

- **Candidate filter** (`match_descriptors`). For each side label (`p1`, `p2`) of a receptor `PDB_A_B`:
  - derive the chain identifier;
  - load the entry's per-point interface scores and descriptor distances, skipping the entry when the parsing or a load raises, and counting it otherwise;
  - select the points whose interface score is strictly above the interface cutoff and whose descriptor distance is strictly below the distance cutoff, as `np.intersect1d` of two `np.where` results;
  - append one index-aligned block of names, indices and distances per entry that matched.
- **Aggregator**:
  - concatenate the blocks;
  - group the matches into `matched_dict`, a dictionary from `(receptor_name, pid)` to its matched point indices, by insert-or-append.
- **Result selector and emitter**:
  - for every dictionary key in insertion order, parse the pdb code and chain from the name;
  - take the scores of the alignment attempts;
  - keep the attempts scoring at least 0, in ascending order;
  - for each kept attempt, write one log line and one output file base `out/<pdb>/<pdb>_<chain>_<j>`.
- **Identifier parsing**: Python's `str.split("_")` and the choice of field by side label.

Modules:

| file | module | contents |
|---|---|---|
| `wrappers.dfy` | `Wrappers` | `Option` |
| `text.dfy` | `Text` | `Split`/`Join`, decimal rendering of an index |
| `indices.dfy` | `Indices` | `Where` (`np.where(mask)[0]`), `Intersect1d`, facts about strictly ascending index lists |
| `candidate_filter.dfy` | `CandidateFilter` | thresholds, chain parsing, loads, blocks, the `MatchDescriptors` loop |
| `aggregator.dfy` | `Aggregator` | `Concat`, the grouping loop `GroupMatches` and its specification |
| `emitter.dfy` | `Emitter` | `TopScorers`, log lines, output names, the `EmitMatches` loop |
| `pipeline.dfy` | `Pipeline` | `Run`, the script from line 235 on for one receptor, and worked scenarios |

Form of the model:

- The loops of the source are methods with `while`/`for` loops, each proved against a specification function:
  - `MatchDescriptors` against `LoadedEntries`/`MatchBlocks`;
  - `GroupMatches` against `FirstOccurrences`/`Grouped`;
  - `EmitEntry` against `AcceptedLines`/`WrittenFiles`;
  - `EmitMatches` against `EmitSpec`, with its loop body `EmitKey` against `EmitChain`, `AcceptedLines` and `WrittenFiles`.
- The lemmas are stated about the specification functions.
- The expressions with no state are functions: `Selected`, `TopScorers`, `Split`, `EmitChain`.
- The files two loads read are a `Store` of two maps:
  - prediction rows keyed by pdb chain identifier;
  - distance rows keyed by side label.
  - A missing key is a load that raised.
- The docking step (`multidock` and the loads before it) is a function parameter `dock`. It returns one `Attempt` (pose and score) per alignment attempt.
- A Python dictionary iterates in insertion order. `matched_dict` is therefore modelled as its key order (`FirstOccurrences`) together with a map (`Grouped`).

## Model

| member | source | states |
|---|---|---|
| Text.Split | source/masif_ppi_search/masif_site_search/masif_docking_specific_pipeline_nn.py:151 | Splitting gives at least one field, no field contains the separator, and joining the fields with the separator gives the string back |
| Text.SplitJoin | source/masif_ppi_search/masif_site_search/masif_docking_specific_pipeline_nn.py:151 | Splitting a join of separator-free fields gives back the fields |
| Text.SplitAfterField | source/masif_ppi_search/masif_site_search/masif_docking_specific_pipeline_nn.py:151 | A separator-free prefix followed by the separator is split off as the first field |
| Text.SplitNoSeparator | source/masif_ppi_search/masif_site_search/masif_docking_specific_pipeline_nn.py:151 | A string without the separator splits into itself alone |
| Text.NatToDecimal | source/masif_ppi_search/masif_site_search/masif_docking_specific_pipeline_nn.py:326 | The rendering of an attempt index is non-empty, all decimal digits, with no leading zero |
| Text.DigitChar | source/masif_ppi_search/masif_site_search/masif_docking_specific_pipeline_nn.py:326 | A digit value below 10 renders as the matching digit character |
| Text.DecimalRoundTrip | source/masif_ppi_search/masif_site_search/masif_docking_specific_pipeline_nn.py:326 | Reading a rendered index back gives the index |
| Text.DecimalInjective | source/masif_ppi_search/masif_site_search/masif_docking_specific_pipeline_nn.py:326 | Different attempt indices render differently |
| Indices.Where | source/masif_ppi_search/masif_site_search/masif_docking_specific_pipeline_nn.py:173-174 | `np.where(mask)[0]`: strictly ascending, every element a position where the mask holds, and every such position present |
| Indices.Bound | source/masif_ppi_search/masif_site_search/masif_docking_specific_pipeline_nn.py:178 | Every element of an index list is below the bound |
| Indices.Intersect1d | source/masif_ppi_search/masif_site_search/masif_docking_specific_pipeline_nn.py:178 | `np.intersect1d`: strictly ascending, and holding exactly the values in both inputs |
| Indices.AscendingUnique | source/masif_ppi_search/masif_site_search/masif_docking_specific_pipeline_nn.py:178 | Two strictly ascending lists with the same elements are equal |
| Indices.Intersect1dCommutes | source/masif_ppi_search/masif_site_search/masif_docking_specific_pipeline_nn.py:178 | The intersection does not depend on the order of its arguments |
| Indices.AscendingCard | source/masif_ppi_search/masif_site_search/masif_docking_specific_pipeline_nn.py:178 | A strictly ascending list has no duplicates: as many distinct elements as entries |
| Indices.AscendingSubsetLength | source/masif_ppi_search/masif_site_search/masif_docking_specific_pipeline_nn.py:178 | A strictly ascending list contained in another is no longer |
| CandidateFilter.TrueIface | source/masif_ppi_search/masif_site_search/masif_docking_specific_pipeline_nn.py:173 | Exactly the points whose interface score is strictly above the cutoff, ascending |
| CandidateFilter.NearPoints | source/masif_ppi_search/masif_site_search/masif_docking_specific_pipeline_nn.py:174 | Exactly the points whose distance is strictly below the cutoff, ascending |
| CandidateFilter.Selected | source/masif_ppi_search/masif_site_search/masif_docking_specific_pipeline_nn.py:173-178 | Strictly ascending; each element a valid index into both arrays; an index is selected iff its interface score is strictly above the interface cutoff and its distance strictly below the distance cutoff |
| CandidateFilter.SelectedOrderIrrelevant | source/masif_ppi_search/masif_site_search/masif_docking_specific_pipeline_nn.py:173-178 | Computing the distance threshold first gives the same selection |
| CandidateFilter.SelectedMonotone | source/masif_ppi_search/masif_site_search/masif_docking_specific_pipeline_nn.py:173-178 | Lowering the interface cutoff or raising the distance cutoff keeps every selected index, so the selection cannot shrink |
| CandidateFilter.PositiveMask | source/masif_ppi_search/masif_site_search/masif_docking_specific_pipeline_nn.py:180 | The mask `selected > 0` has one entry per selected index, so its length is the selection's length |
| CandidateFilter.StepChainCases | source/masif_ppi_search/masif_site_search/masif_docking_specific_pipeline_nn.py:151-155 | `StepChain`: p1 and p2 produce a chain identifier exactly when the receptor has enough fields (p1 joins fields 0 and 1, p2 fields 0 and 2); any other label reuses the previous value; `pdb_chain_id` keeps the new identifier, or its previous value when the indexing raised |
| CandidateFilter.ChainIdOfSide | source/masif_ppi_search/masif_site_search/masif_docking_specific_pipeline_nn.py:151-155 | For `PDB_A_B` with separator-free parts, side p1 names chain `PDB_A` and side p2 names chain `PDB_B` |
| CandidateFilter.CarriedOrigin | source/masif_ppi_search/masif_site_search/masif_docking_specific_pipeline_nn.py:151-155 | `Carried`: the value `pdb_chain_id` carries into the next label, once bound, is the chain identifier that one of the labels processed so far produced |
| CandidateFilter.TryLoad | source/masif_ppi_search/masif_site_search/masif_docking_specific_pipeline_nn.py:150-165 | A label completes iff its chain lookup succeeds and both loads succeed; a completed entry carries its label, and the receptor has enough fields for that label |
| CandidateFilter.LoadedEntries | source/masif_ppi_search/masif_site_search/masif_docking_specific_pipeline_nn.py:149-168 | At most one completed entry per side label |
| CandidateFilter.LoadedFromPids | source/masif_ppi_search/masif_site_search/masif_docking_specific_pipeline_nn.py:149-168 | Every completed entry carries one of the side labels, with enough receptor fields for its lookup |
| CandidateFilter.LoadedCount | source/masif_ppi_search/masif_site_search/masif_docking_specific_pipeline_nn.py:149-168 | The number of completed entries equals the number of label positions whose parsing and loads did not raise; a failing label does not stop the later ones |
| CandidateFilter.CompletedStep | source/masif_ppi_search/masif_site_search/masif_docking_specific_pipeline_nn.py:149-168 | The completed positions of a longer run are those of its prefix, plus the last one if it completed |
| CandidateFilter.LoadedStep | source/masif_ppi_search/masif_site_search/masif_docking_specific_pipeline_nn.py:149-168 | One more label moves `pdb_chain_id` on by one step (kept over from the previous label when the label is neither p1 nor p2) and adds its own outcome to the completed entries |
| CandidateFilter.BlockOfSelection | source/masif_ppi_search/masif_site_search/masif_docking_specific_pipeline_nn.py:170-183 | `BlockOf`: an entry yields a block iff its selection is non-empty (index 0 alone counts); the block holds the selection, the entry's name once per index, and the distance at each selected index |
| CandidateFilter.Repeat | source/masif_ppi_search/masif_site_search/masif_docking_specific_pipeline_nn.py:181 | `[key] * m`: m copies of the key, the name column of a block |
| CandidateFilter.MatchBlocks | source/masif_ppi_search/masif_site_search/masif_docking_specific_pipeline_nn.py:167-183 | At most one block per completed entry |
| CandidateFilter.MatchBlocksShape | source/masif_ppi_search/masif_site_search/masif_docking_specific_pipeline_nn.py:180-183 | Every block is non-empty, its names, indices and distances have equal lengths, and every name is the receptor with one of the completed side labels |
| CandidateFilter.BlocksStep | source/masif_ppi_search/masif_site_search/masif_docking_specific_pipeline_nn.py:180-183 | One more completed entry adds its own block, if any, and nothing else |
| CandidateFilter.AccumulatedSnoc | source/masif_ppi_search/masif_site_search/masif_docking_specific_pipeline_nn.py:181-183 | Appending one block to each accumulator keeps the accumulators block-aligned |
| CandidateFilter.MatchDescriptors | source/masif_ppi_search/masif_site_search/masif_docking_specific_pipeline_nn.py:139-188 | `count_proteins` is the number of entries that loaded; the three accumulators hold, block by block, exactly the blocks of the entries that matched, in label order |
| Aggregator.ConcatAligned | source/masif_ppi_search/masif_site_search/masif_docking_specific_pipeline_nn.py:240-241 | Block lists whose blocks pair up in length concatenate to equal lengths |
| Aggregator.ConcatMember | source/masif_ppi_search/masif_site_search/masif_docking_specific_pipeline_nn.py:240 | Every concatenated element comes from one of the blocks |
| Aggregator.ConcatAppend | source/masif_ppi_search/masif_site_search/masif_docking_specific_pipeline_nn.py:240-242 | `Concat`: concatenating two block lists joined end to end gives the two concatenations end to end |
| Aggregator.ConcatContains | source/masif_ppi_search/masif_site_search/masif_docking_specific_pipeline_nn.py:240-242 | `Concat`: every element of every block is in the concatenation |
| Aggregator.FirstOccurrences | source/masif_ppi_search/masif_site_search/masif_docking_specific_pipeline_nn.py:247-250 | The dictionary's keys are distinct and are exactly the matched names |
| Aggregator.FirstIndex | source/masif_ppi_search/masif_site_search/masif_docking_specific_pipeline_nn.py:247-250 | The position of a name's first occurrence |
| Aggregator.FirstIndexPrefix | source/masif_ppi_search/masif_site_search/masif_docking_specific_pipeline_nn.py:247-250 | A name in a prefix has its first occurrence in that prefix |
| Aggregator.OrderedInLonger | source/masif_ppi_search/masif_site_search/masif_docking_specific_pipeline_nn.py:247-250 | The first-occurrence order of keys taken from a prefix still holds in the whole sequence |
| Aggregator.OrderedExtend | source/masif_ppi_search/masif_site_search/masif_docking_specific_pipeline_nn.py:247-250 | A key that first occurs after all earlier keys can be appended without breaking first-occurrence order |
| Aggregator.KeysInFirstOccurrenceOrder | source/masif_ppi_search/masif_site_search/masif_docking_specific_pipeline_nn.py:247-250 | The keys are ordered by the position where each name first occurs |
| Aggregator.MatchesInInputOrder | source/masif_ppi_search/masif_site_search/masif_docking_specific_pipeline_nn.py:247-251 | `MatchesOf`: each name's list is the matched indices read at the ascending positions where the name occurs, so it keeps the input order |
| Aggregator.NoMatchesOfAbsent | source/masif_ppi_search/masif_site_search/masif_docking_specific_pipeline_nn.py:247-251 | A name that does not occur has no matches |
| Aggregator.SumMatchesStep | source/masif_ppi_search/masif_site_search/masif_docking_specific_pipeline_nn.py:247-251 | One more match adds one to the match count of the distinct keys exactly when its name is among them |
| Aggregator.SumMatchesGrouped | source/masif_ppi_search/masif_site_search/masif_docking_specific_pipeline_nn.py:247-251 | The dictionary's list lengths over any matched keys sum to those keys' match counts |
| Aggregator.SumOfPrefix | source/masif_ppi_search/masif_site_search/masif_docking_specific_pipeline_nn.py:247-251 | Over the keys of the first m matches, the match counts sum to m |
| Aggregator.GroupSizes | source/masif_ppi_search/masif_site_search/masif_docking_specific_pipeline_nn.py:247-251 | The lengths of the dictionary's lists sum to the number of matches |
| Aggregator.GroupedIs | source/masif_ppi_search/masif_site_search/masif_docking_specific_pipeline_nn.py:247-251 | A dictionary over the matched names whose every list is that name's matches is the grouping |
| Aggregator.GroupedStep | source/masif_ppi_search/masif_site_search/masif_docking_specific_pipeline_nn.py:249-251 | One more match appends its index to its name's list, creating the list when the name is new |
| Aggregator.GroupMatches | source/masif_ppi_search/masif_site_search/masif_docking_specific_pipeline_nn.py:244-251 | The insert-or-append loop produces the insertion order `FirstOccurrences` and the dictionary `Grouped` |
| Aggregator.FlatNames | source/masif_ppi_search/masif_site_search/masif_docking_specific_pipeline_nn.py:247-251 | Flattening the dictionary gives as many names as its lists' lengths sum to |
| Aggregator.FlatVix | source/masif_ppi_search/masif_site_search/masif_docking_specific_pipeline_nn.py:247-251 | Flattening the dictionary gives as many indices as its lists' lengths sum to |
| Aggregator.MatchesOfLongerVix | source/masif_ppi_search/masif_site_search/masif_docking_specific_pipeline_nn.py:247-251 | Indices beyond the names do not change a name's matches |
| Aggregator.MatchesOfAppend | source/masif_ppi_search/masif_site_search/masif_docking_specific_pipeline_nn.py:247-251 | The matches of two runs of names end to end are those of the first run, then those of the second |
| Aggregator.MatchesOfRepeat | source/masif_ppi_search/masif_site_search/masif_docking_specific_pipeline_nn.py:247-251 | A run of one name contributes all its indices to that name and none to any other |
| Aggregator.FirstOccurrencesRepeat | source/masif_ppi_search/masif_site_search/masif_docking_specific_pipeline_nn.py:247-250 | A run of a new name adds that name once, at the end of the key order |
| Aggregator.FlattenRegroups | source/masif_ppi_search/masif_site_search/masif_docking_specific_pipeline_nn.py:247-251 | Flattening a dictionary with distinct keys and non-empty lists, then grouping again, restores its key order and every list |
| Aggregator.MatchesOfPresent | source/masif_ppi_search/masif_site_search/masif_docking_specific_pipeline_nn.py:249-251 | Every matched name has at least one index in the dictionary |
| Aggregator.GroupedContents | source/masif_ppi_search/masif_site_search/masif_docking_specific_pipeline_nn.py:247-251 | `Grouped`: the dictionary's keys are exactly the matched names, and each key's list is non-empty and holds the indices matched at the positions where that name occurs, in input order |
| Aggregator.RegroupIdempotent | source/masif_ppi_search/masif_site_search/masif_docking_specific_pipeline_nn.py:244-251 | Grouping is idempotent: regrouping the flattened dictionary gives the same key order and the same dictionary |
| Emitter.TopScorers | source/masif_ppi_search/masif_site_search/masif_docking_specific_pipeline_nn.py:307 | `np.where(scores >= 0)[0]`: strictly ascending, and holding exactly the attempt indices whose score is at least 0 |
| Emitter.AcceptedCount | source/masif_ppi_search/masif_site_search/masif_docking_specific_pipeline_nn.py:307 | One accepted attempt per non-negative score |
| Emitter.TopScorersOfAttempts | source/masif_ppi_search/masif_site_search/masif_docking_specific_pipeline_nn.py:304-307 | `Scores` keeps the attempts' order, so `top_scorers` are exactly the indices of the attempts scoring at least 0 |
| Emitter.EmitChainMatchesLoad | source/masif_ppi_search/masif_site_search/masif_docking_specific_pipeline_nn.py:259-264 | For p1 and p2, an entry that loaded can be emitted, and the emitter's pdb code and chain name the chain file the filter loaded |
| Emitter.EmitChainOfParts | source/masif_ppi_search/masif_site_search/masif_docking_specific_pipeline_nn.py:259-264 | `EmitChain`: for `PDB_A_B` with separator-free parts, p1 is emitted from chain A of `PDB`, and every other label, through the `else` of line 263, from chain B |
| Emitter.EmitChainTwoFields | source/masif_ppi_search/masif_site_search/masif_docking_specific_pipeline_nn.py:259-264 | `EmitChain`: a receptor `PDB_A` with two fields can be emitted for p1 and raises for every other label |
| Emitter.OutputBaseInjective | source/masif_ppi_search/masif_site_search/masif_docking_specific_pipeline_nn.py:326 | `OutputBase`: different attempts of one entry never get the same output base |
| Emitter.OutputBaseInDirectory | source/masif_ppi_search/masif_site_search/masif_docking_specific_pipeline_nn.py:322-326 | `OutputBase`: the output base lies directly inside the directory `out/<pdb>` that lines 323-324 create, when the pdb code and chain contain no slash |
| Emitter.AcceptedLines | source/masif_ppi_search/masif_site_search/masif_docking_specific_pipeline_nn.py:315-317 | One log line per accepted attempt |
| Emitter.AcceptedLinesSound | source/masif_ppi_search/masif_site_search/masif_docking_specific_pipeline_nn.py:315-317 | Every line of an entry is an accepted attempt with a score of at least 0, carrying the entry's receptor and side label; every attempt scoring at least 0 has its line |
| Emitter.WrittenFiles | source/masif_ppi_search/masif_site_search/masif_docking_specific_pipeline_nn.py:315-334 | One output file per accepted attempt |
| Emitter.WrittenFilesSound | source/masif_ppi_search/masif_site_search/masif_docking_specific_pipeline_nn.py:322-334 | Every file belongs to an attempt scoring at least 0 and holds that attempt's pose; every attempt scoring at least 0 has its file; no two files of an entry share a base name |
| Emitter.EntryPairing | source/masif_ppi_search/masif_site_search/masif_docking_specific_pipeline_nn.py:307-334 | Line t and file t of an entry both come from attempt `top_scorers[t]`, which scores at least 0: the line carries its score and the file its output base and pose; `top_scorers` is strictly ascending, so an entry's lines and files follow ascending attempt index |
| Emitter.EmitEntry | source/masif_ppi_search/masif_site_search/masif_docking_specific_pipeline_nn.py:307-334 | The loop over `top_scorers` produces exactly the entry's accepted lines and files |
| Emitter.EmitOne | source/masif_ppi_search/masif_site_search/masif_docking_specific_pipeline_nn.py:256-334 | Once stopped, nothing changes; a turn completes iff the chain lookup succeeds; it adds at most one score list and equally many lines and files, and keeps the earlier lines |
| Emitter.EmitOneLines | source/masif_ppi_search/masif_site_search/masif_docking_specific_pipeline_nn.py:315-317 | The lines a turn adds are accepted attempts of the key's receptor with a score of at least 0 |
| Emitter.EmitSpec | source/masif_ppi_search/masif_site_search/masif_docking_specific_pipeline_nn.py:256-334 | The loop writes as many files as accepted lines and at most one score list per key |
| Emitter.EmitSpecLines | source/masif_ppi_search/masif_site_search/masif_docking_specific_pipeline_nn.py:315-317 | Every line the loop writes is an accepted attempt with a score of at least 0 |
| Emitter.EmitCompletes | source/masif_ppi_search/masif_site_search/masif_docking_specific_pipeline_nn.py:259-264 | The loop runs to the end iff no key's chain lookup raises |
| Emitter.EmitStopped | source/masif_ppi_search/masif_site_search/masif_docking_specific_pipeline_nn.py:259-264 | Once a key's chain lookup has raised, the later keys change nothing |
| Emitter.EmitSpecStep | source/masif_ppi_search/masif_site_search/masif_docking_specific_pipeline_nn.py:256 | One more key advances the emission by one turn |
| Emitter.EmitKey | source/masif_ppi_search/masif_site_search/masif_docking_specific_pipeline_nn.py:256-334 | One key: fails exactly when its chain lookup raises; otherwise gives the entry's scores, its accepted lines and its files under the pdb code and chain of the lookup |
| Emitter.EmitMatches | source/masif_ppi_search/masif_site_search/masif_docking_specific_pipeline_nn.py:253-334 | The loop over the dictionary's keys produces exactly the score lists, log lines, files and completion of `EmitSpec` |
| Pipeline.BlockNamesOrigin | source/masif_ppi_search/masif_site_search/masif_docking_specific_pipeline_nn.py:181-240 | Every concatenated name is the receptor with one of the completed side labels |
| Pipeline.LoadedDistinct | source/masif_ppi_search/masif_site_search/masif_docking_specific_pipeline_nn.py:149-168 | Completed entries of distinct side labels carry distinct labels |
| Pipeline.LoadedPidsSuffice | source/masif_ppi_search/masif_site_search/masif_docking_specific_pipeline_nn.py:149-168 | A completed side label is one of the requested labels and has enough receptor fields |
| Pipeline.SideEmittable | source/masif_ppi_search/masif_site_search/masif_docking_specific_pipeline_nn.py:261-264 | A p1 or p2 name with enough fields for the filter's lookup also passes the emitter's lookup |
| Pipeline.MatchedNamesEmittable | source/masif_ppi_search/masif_site_search/masif_docking_specific_pipeline_nn.py:235-264 | Every matched name for the two sides can be emitted without the chain lookup raising |
| Pipeline.ScriptMatches | source/masif_ppi_search/masif_site_search/masif_docking_specific_pipeline_nn.py:235-251 | The concatenated names and indices have equal length, and every key of their grouping can be emitted |
| Pipeline.ScriptCutoffs | source/masif_ppi_search/masif_site_search/masif_docking_specific_pipeline_nn.py:64-72 | `DESC_DIST_CUTOFF` and `IFACE_CUTOFF` as the script passes them: a point is selected iff its interface score is strictly above 0.4 and its distance strictly below 2.5 |
| Pipeline.ScriptBlocksSides | source/masif_ppi_search/masif_site_search/masif_docking_specific_pipeline_nn.py:235-238 | `Sides`/`ScriptBlocks`: the script asks for p1 and p2 only, so there are at most two blocks and every name in them is the receptor with side p1 or p2 |
| Pipeline.MatchBlocksSnoc | source/masif_ppi_search/masif_site_search/masif_docking_specific_pipeline_nn.py:240-242 | One more completed entry appends its selection, and its name once per selected index, to the concatenated indices and names |
| Pipeline.ConcatBlocksAligned | source/masif_ppi_search/masif_site_search/masif_docking_specific_pipeline_nn.py:240-242 | For any cutoffs, the concatenated names and indices have equal length |
| Pipeline.MatchesMonotone | source/masif_ppi_search/masif_site_search/masif_docking_specific_pipeline_nn.py:167-183 | With the entries fixed, lowering the interface cutoff or raising the distance cutoff keeps every (name, index) match of the filter's output, and the output cannot get shorter |
| Pipeline.PairsStep | source/masif_ppi_search/masif_site_search/masif_docking_specific_pipeline_nn.py:181-183 | Appending one entry's run under both cutoff pairs keeps every match when the entry's selection only grows |
| Pipeline.GroupSelectionsStep | source/masif_ppi_search/masif_site_search/masif_docking_specific_pipeline_nn.py:247-251 | Appending an entry's selection under a fresh name gives that name exactly the selection and leaves every earlier entry's matches as they were |
| Pipeline.BlocksGroupSelections | source/masif_ppi_search/masif_site_search/masif_docking_specific_pipeline_nn.py:167-251 | For entries with distinct side labels, the concatenated names and indices have equal length, and each entry's matches in them are exactly its own selection |
| Pipeline.ScriptGrouping | source/masif_ppi_search/masif_site_search/masif_docking_specific_pipeline_nn.py:235-251 | In the dictionary of one run, a side that loaded is a key iff its selection is non-empty, its list is then exactly that selection, and every key is the receptor with a side that loaded |
| Pipeline.Run | source/masif_ppi_search/masif_site_search/masif_docking_specific_pipeline_nn.py:235-334 | The chain lookups do not raise; there is one more log line than files, the first line being the number of entries that loaded; every later line is an accepted attempt with a score of at least 0; lines and files are those of the emission loop over the grouping of the concatenated matches, in which each entry's lines and files pair up attempt by attempt (`Emitter.EntryPairing`) |
| Pipeline.ScenarioAccept | source/masif_ppi_search/masif_site_search/masif_docking_specific_pipeline_nn.py:173-178 | A point scoring 0.5 at distance 1.0 passes the cutoffs 0.4 and 2.5 |
| Pipeline.ScenarioRejectIface | source/masif_ppi_search/masif_site_search/masif_docking_specific_pipeline_nn.py:173-178 | The same point fails an interface cutoff of 0.6 |
| Pipeline.ScenarioSelectsIndexZero | source/masif_ppi_search/masif_site_search/masif_docking_specific_pipeline_nn.py:173-178 | A point scoring 1.0 at distance 0.0 is selected as index 0 |
| Pipeline.ScenarioIndexZeroCounts | source/masif_ppi_search/masif_site_search/masif_docking_specific_pipeline_nn.py:180 | An entry whose only selected index is 0 still yields a block |
| Pipeline.ScenarioMissingSide | source/masif_ppi_search/masif_site_search/masif_docking_specific_pipeline_nn.py:149-168 | When side p2 has no descriptor file and p1 has both files, p2 is skipped, p1 is still processed, and one entry loads |

## Left out

- File I/O is not modelled:
  - `np.load` of the prediction and descriptor arrays becomes lookups in `Store`;
  - the writes to `log.txt`, the `.pdb` and `.vert` files become returned `LogLine`s and `Written` records;
  - `os.makedirs` and the mesh, point-cloud and structure reads are left out.
- The prediction file's row 0 (`np.load(...)[0]`, line 157) is modelled as the stored row itself.
- The Euclidean descriptor distance (line 170) is floating-point numerics over arrays. The distances come in as given reals.
  - So the "an entry identical to the target has distance 0" property reduces to `Selected`'s membership condition.
- Floating-point comparison, NaN and the formatting of scores in log lines are not modelled: scores are reals and a log line holds the real.
- `multidock`, `ScoreNN`, `subsample_patch_coords` and the loads before docking (lines 266-303) are defined in files that are not part of this model. They are the `dock` parameter.
  - A raise in them is not modelled.
  - The rigid transformation in `align_and_save` (190-215) is left out with them.
- The target-patch stage (`get_target_vix`, `get_patch_geo`, the `cKDTree`) is left out for the same reason, along with the target descriptor it provides.
- The raises in `parser.get_structure` (lines 318-321) and in `align_and_save`'s writes (lines 329-334) are not modelled: a missing `.pdb` file or a failing write is not a case here. So `Pipeline.Run`'s completion refers to the chain lookups of lines 259-264 only.
- The default arguments of `match_descriptors` (`desc_dist_cutoff=2.2, iface_cutoff=0.8`, line 140) are not modelled: the cutoffs are required parameters of `MatchDescriptors`. The script always passes 2.5 and 0.4 (lines 235-238, `Pipeline.ScriptCutoffs`), so no call of the script is lost.
- Startup plumbing is left out: `print` diagnostics, `blockPrint`/`enablePrint`, `sys.argv`, `os.environ`, and the timing line `Took ...s` (line 338).
- `Pipeline.Run` requires at least one matched block, so it does not model the empty case.
  - With no matched entry, `np.concatenate` of an empty list raises at line 240, before `log.txt` is opened.
  - Describing this case as a run that logs zero accepted results does not match the code, which raises.
- Shape mismatches are not modelled. If the interface row and the distances of an entry differ in length, the model still selects only indices valid for both, exactly as `np.intersect1d` of the two `np.where` results does. A broadcasting error in line 170 would be raised outside the `try`, and that is not modelled.
- Emission order is not modelled as unordered: the code emits keys in dictionary insertion order, which is first-occurrence order, and the model follows the code.
