/**
 * The candidate filter (`match_descriptors`): for each side label of the
 * receptor, derive the chain identifier, load the entry's per-point
 * interface scores and descriptor distances (skipping the entry when either
 * load raises), select the points passing both thresholds, and append one
 * index-aligned block of names, indices and distances per entry that matched.
 */
module CandidateFilter {
  import opened Wrappers
  import opened Text
  import opened Indices

  /** Separator of the composite identifiers (`PDB_A_B`). */
  const Sep: char := '_'

  /** The cutoffs the script passes to the filter. */
  const DescDistCutoff: real := 2.5
  const IfaceCutoff: real := 0.4

  /** Identity of a database entry: the tuple `(receptor_name, pid)`. */
  datatype Name = Name(receptor: string, pid: string)

  /**
   * What the two loads of one entry give when both succeed: the interface
   * score of every point (row 0 of the prediction array) and the descriptor
   * distance of every point to the target's centre descriptor.
   */
  datatype Entry = Entry(iface: seq<real>, diff: seq<real>)

  /**
   * The files the loads read: prediction rows by pdb chain identifier
   * (`pred_<chain>.npy`), distance rows by side label (`<pid>_desc_straight.npy`).
   * A missing key stands for a load that raised.
   */
  datatype Store = Store(predictions: map<string, seq<real>>, distances: map<string, seq<real>>)

  /** An entry whose identifier parsing and both loads completed. */
  datatype Loaded = Loaded(pid: string, chainId: string, entry: Entry)

  /** The three index-aligned blocks one matched entry appends. */
  datatype Block = Block(names: seq<Name>, vix: seq<nat>, dists: seq<real>)

  // ---------------------------------------------------------------------
  // Thresholds and intersection

  /** `np.where(iface > iface_cutoff)[0]`: the points scoring strictly above the cutoff. */
  function TrueIface(iface: seq<real>, cutoff: real): (r: seq<nat>)
    ensures StrictlyAscending(r)
    ensures forall i: nat :: i in r <==> i < |iface| && iface[i] > cutoff
  {
    var mask := seq(|iface|, i requires 0 <= i < |iface| => iface[i] > cutoff);
    var r := Where(mask);
    assert forall t :: 0 <= t < |r| ==> r[t] < |iface| && iface[r[t]] > cutoff by {
      forall t | 0 <= t < |r| ensures r[t] < |iface| && iface[r[t]] > cutoff {
        assert mask[r[t]];
      }
    }
    r
  }

  /** `np.where(diff < desc_dist_cutoff)[0]`: the points strictly nearer than the cutoff. */
  function NearPoints(diff: seq<real>, cutoff: real): (r: seq<nat>)
    ensures StrictlyAscending(r)
    ensures forall i: nat :: i in r <==> i < |diff| && diff[i] < cutoff
  {
    var mask := seq(|diff|, i requires 0 <= i < |diff| => diff[i] < cutoff);
    var r := Where(mask);
    assert forall t :: 0 <= t < |r| ==> r[t] < |diff| && diff[r[t]] < cutoff by {
      forall t | 0 <= t < |r| ensures r[t] < |diff| && diff[r[t]] < cutoff {
        assert mask[r[t]];
      }
    }
    r
  }

  /**
   * `np.intersect1d(true_iface, near_points)`: the points whose interface
   * score is strictly above the interface cutoff and whose descriptor
   * distance is strictly below the distance cutoff, ascending, each once,
   * each a valid index into both arrays.
   */
  function Selected(iface: seq<real>, diff: seq<real>, ifaceCutoff: real, descDistCutoff: real): (r: seq<nat>)
    ensures StrictlyAscending(r)
    ensures forall t :: 0 <= t < |r| ==> r[t] < |iface| && r[t] < |diff|
    ensures forall i: nat :: i in r <==>
      i < |iface| && i < |diff| && iface[i] > ifaceCutoff && diff[i] < descDistCutoff
  {
    Intersect1d(TrueIface(iface, ifaceCutoff), NearPoints(diff, descDistCutoff))
  }

  /** Computing the distance threshold first gives the same selection. */
  lemma SelectedOrderIrrelevant(iface: seq<real>, diff: seq<real>, ifaceCutoff: real, descDistCutoff: real)
    ensures Selected(iface, diff, ifaceCutoff, descDistCutoff)
         == Intersect1d(NearPoints(diff, descDistCutoff), TrueIface(iface, ifaceCutoff))
  {
    Intersect1dCommutes(TrueIface(iface, ifaceCutoff), NearPoints(diff, descDistCutoff));
  }

  /**
   * Raising the distance cutoff or lowering the interface cutoff keeps every
   * selected point, so the selection cannot shrink.
   */
  lemma SelectedMonotone(iface: seq<real>, diff: seq<real>, ifaceCutoff: real, descDistCutoff: real,
                         ifaceCutoff': real, descDistCutoff': real)
    requires ifaceCutoff' <= ifaceCutoff && descDistCutoff <= descDistCutoff'
    ensures forall i :: i in Selected(iface, diff, ifaceCutoff, descDistCutoff)
                    ==> i in Selected(iface, diff, ifaceCutoff', descDistCutoff')
    ensures |Selected(iface, diff, ifaceCutoff, descDistCutoff)|
         <= |Selected(iface, diff, ifaceCutoff', descDistCutoff')|
  {
    var s := Selected(iface, diff, ifaceCutoff, descDistCutoff);
    var s' := Selected(iface, diff, ifaceCutoff', descDistCutoff');
    AscendingSubsetLength(s, s');
  }

  /** The mask `selected > 0` of line 180; its length is what the guard tests. */
  function PositiveMask(selected: seq<nat>): (m: seq<bool>)
    ensures |m| == |selected|
  {
    seq(|selected|, t requires 0 <= t < |selected| => selected[t] > 0)
  }

  // ---------------------------------------------------------------------
  // Identifier parsing

  /**
   * One evaluation of lines 151-155. `current` is the chain identifier the
   * loads use (None: the statement raised, or the variable was never bound);
   * `carried` is the value `pdb_chain_id` keeps into the next iteration, since
   * a label other than p1/p2 leaves the previous value in place.
   */
  datatype ChainStep = ChainStep(current: Option<string>, carried: Option<string>)

  function StepChain(fields: seq<string>, pid: string, prev: Option<string>): ChainStep
    requires |fields| >= 1
  {
    if pid == "p1" then
      if |fields| >= 2 then
        var c := Some(fields[0] + [Sep] + fields[1]);
        ChainStep(c, c)
      else ChainStep(None, prev)
    else if pid == "p2" then
      if |fields| >= 3 then
        var c := Some(fields[0] + [Sep] + fields[2]);
        ChainStep(c, c)
      else ChainStep(None, prev)
    else ChainStep(prev, prev)
  }

  /** The receptor has enough fields for the chain lookup a side label makes. */
  predicate FieldsSuffice(fields: seq<string>, pid: string) {
    (pid == "p1" ==> |fields| >= 2) && (pid == "p2" ==> |fields| >= 3)
  }

  /**
   * Lines 151-155 case by case: p1 and p2 produce a chain identifier exactly
   * when the receptor has enough fields (p1 joins fields 0 and 1, p2 fields 0
   * and 2); any other label reuses the previous value; and `pdb_chain_id`
   * keeps the new identifier, or its previous value when the indexing raised.
   */
  lemma StepChainCases(fields: seq<string>, pid: string, prev: Option<string>)
    requires |fields| >= 1
    ensures pid == "p1" || pid == "p2" ==> (StepChain(fields, pid, prev).current.Some? <==> FieldsSuffice(fields, pid))
    ensures pid == "p1" && |fields| >= 2 ==> StepChain(fields, pid, prev).current == Some(fields[0] + [Sep] + fields[1])
    ensures pid == "p2" && |fields| >= 3 ==> StepChain(fields, pid, prev).current == Some(fields[0] + [Sep] + fields[2])
    ensures pid != "p1" && pid != "p2" ==> StepChain(fields, pid, prev).current == prev
    ensures StepChain(fields, pid, prev).carried
         == if StepChain(fields, pid, prev).current.Some? then StepChain(fields, pid, prev).current else prev
  {
  }

  /** For `PDB_A_B`, side p1 names chain `PDB_A` and side p2 names chain `PDB_B`. */
  lemma ChainIdOfSide(pdb: string, a: string, b: string, prev: Option<string>)
    requires Sep !in pdb && Sep !in a && Sep !in b
    ensures var fields := Split(pdb + [Sep] + a + [Sep] + b, Sep);
      && StepChain(fields, "p1", prev).current == Some(pdb + [Sep] + a)
      && StepChain(fields, "p2", prev).current == Some(pdb + [Sep] + b)
  {
    var parts := [pdb, a, b];
    assert parts[1..] == [a, b] && parts[1..][1..] == [b];
    assert Join([b], Sep) == b;
    assert Join([a, b], Sep) == a + [Sep] + b;
    assert Join(parts, Sep) == pdb + [Sep] + (a + [Sep] + b);
    assert pdb + [Sep] + (a + [Sep] + b) == pdb + [Sep] + a + [Sep] + b;
    SplitJoin(parts, Sep);
  }

  /** The value of `pdb_chain_id` after processing `pids`. */
  function Carried(fields: seq<string>, pids: seq<string>): Option<string>
    requires |fields| >= 1
  {
    if |pids| == 0 then None
    else StepChain(fields, pids[|pids| - 1], Carried(fields, pids[..|pids| - 1])).carried
  }

  /** `pdb_chain_id`, once bound, is the chain identifier that one of the labels processed so far produced. */
  lemma {:induction false} CarriedOrigin(fields: seq<string>, pids: seq<string>)
    requires |fields| >= 1
    ensures Carried(fields, pids).Some? ==>
      exists k :: 0 <= k < |pids| && StepChain(fields, pids[k], None).current == Carried(fields, pids)
  {
    if |pids| > 0 {
      var n := |pids| - 1;
      var prev := Carried(fields, pids[..n]);
      CarriedOrigin(fields, pids[..n]);
      var step := StepChain(fields, pids[n], prev);
      if Carried(fields, pids).Some? {
        if (pids[n] == "p1" || pids[n] == "p2") && step.current.Some? {
          assert StepChain(fields, pids[n], None).current == Carried(fields, pids);
        } else {
          assert Carried(fields, pids) == prev;
          var k :| 0 <= k < n && StepChain(fields, pids[..n][k], None).current == prev;
          assert pids[..n][k] == pids[k];
        }
      }
    }
  }

  /**
   * The `try` block of lines 150-165 for one side label: None when the chain
   * lookup or either load raises.
   */
  function TryLoad(fields: seq<string>, pid: string, prev: Option<string>, store: Store): (r: Option<Loaded>)
    requires |fields| >= 1
    ensures r.Some? ==> r.value.pid == pid && FieldsSuffice(fields, pid)
    ensures r.Some? <==> (&& StepChain(fields, pid, prev).current.Some?
                          && StepChain(fields, pid, prev).current.value in store.predictions
                          && pid in store.distances)
  {
    var step := StepChain(fields, pid, prev);
    if step.current.Some? && step.current.value in store.predictions && pid in store.distances then
      Some(Loaded(pid, step.current.value,
                  Entry(store.predictions[step.current.value], store.distances[pid])))
    else None
  }

  /** The entries that completed, in the order of their side labels. */
  function LoadedEntries(fields: seq<string>, pids: seq<string>, store: Store): (r: seq<Loaded>)
    requires |fields| >= 1
    ensures |r| <= |pids|
  {
    if |pids| == 0 then []
    else
      var prefix := pids[..|pids| - 1];
      var rest := LoadedEntries(fields, prefix, store);
      match TryLoad(fields, pids[|pids| - 1], Carried(fields, prefix), store)
      case None => rest
      case Some(le) => rest + [le]
  }

  /** Every entry carries one of the side labels, with enough receptor fields for its lookup. */
  predicate FromLabels(loaded: seq<Loaded>, fields: seq<string>, pids: seq<string>) {
    forall k :: 0 <= k < |loaded| ==> loaded[k].pid in pids && FieldsSuffice(fields, loaded[k].pid)
  }

  /** Every completed entry carries one of the side labels, and the receptor has enough fields for its lookup. */
  lemma {:induction false} LoadedFromPids(fields: seq<string>, pids: seq<string>, store: Store)
    requires |fields| >= 1
    ensures FromLabels(LoadedEntries(fields, pids, store), fields, pids)
  {
    if |pids| > 0 {
      var prefix := pids[..|pids| - 1];
      LoadedFromPids(fields, prefix, store);
      var rest := LoadedEntries(fields, prefix, store);
      forall k | 0 <= k < |rest| ensures rest[k].pid in pids {
        assert rest[k].pid in prefix;
      }
    }
  }

  /** Positions of the side labels whose parsing and loads completed. */
  function CompletedPositions(fields: seq<string>, pids: seq<string>, store: Store): set<nat>
    requires |fields| >= 1
  {
    set i: nat | i < |pids| && TryLoad(fields, pids[i], Carried(fields, pids[..i]), store).Some?
  }

  /**
   * `count_proteins` counts exactly the side labels that did not raise: a
   * failing label adds nothing and does not stop the ones after it.
   */
  lemma {:induction false} LoadedCount(fields: seq<string>, pids: seq<string>, store: Store)
    requires |fields| >= 1
    ensures |LoadedEntries(fields, pids, store)| == |CompletedPositions(fields, pids, store)|
  {
    if |pids| > 0 {
      var n := |pids| - 1;
      var prefix := pids[..n];
      LoadedCount(fields, prefix, store);
      CompletedStep(fields, pids, store);
      assert n !in CompletedPositions(fields, prefix, store);
    }
  }

  /** The completed positions of a longer run are those of its prefix, plus the last one if it completed. */
  lemma CompletedStep(fields: seq<string>, pids: seq<string>, store: Store)
    requires |fields| >= 1 && |pids| > 0
    ensures var n := |pids| - 1;
      CompletedPositions(fields, pids, store)
      == CompletedPositions(fields, pids[..n], store)
         + (if TryLoad(fields, pids[n], Carried(fields, pids[..n]), store).Some? then {n} else {})
  {
    var n := |pids| - 1;
    var prefix := pids[..n];
    var before := CompletedPositions(fields, prefix, store);
    var now := CompletedPositions(fields, pids, store);
    var last: set<nat> := if TryLoad(fields, pids[n], Carried(fields, prefix), store).Some? then {n} else {};
    forall i: nat ensures i in now <==> i in before + last {
      if i < n {
        assert pids[i] == prefix[i];
        assert pids[..i] == prefix[..i];
      } else if i == n {
        assert i !in before;
      }
    }
  }

  /**
   * One more side label moves `pdb_chain_id` on by one step and extends the
   * completed entries by its own outcome and nothing else.
   */
  lemma LoadedStep(fields: seq<string>, pids: seq<string>, i: nat, store: Store,
                   prev: Option<string>, loaded: seq<Loaded>)
    requires |fields| >= 1 && i < |pids|
    requires prev == Carried(fields, pids[..i]) && loaded == LoadedEntries(fields, pids[..i], store)
    ensures Carried(fields, pids[..i + 1]) == StepChain(fields, pids[i], prev).carried
    ensures LoadedEntries(fields, pids[..i + 1], store)
         == match TryLoad(fields, pids[i], prev, store)
            case None => loaded
            case Some(le) => loaded + [le]
  {
    assert pids[..i + 1][..i] == pids[..i];
  }

  // ---------------------------------------------------------------------
  // Blocks

  /** A block whose three parts line up: one name per index, one distance per index. */
  /** `[key] * m`: the name column of a block, and of a flattened dictionary entry. */
  function Repeat(key: Name, m: nat): (r: seq<Name>)
    ensures |r| == m && forall t :: 0 <= t < m ==> r[t] == key
  {
    seq(m, _ => key)
  }

  predicate BlockAligned(b: Block, name: Name, diff: seq<real>) {
    && |b.names| == |b.vix| && |b.dists| == |b.vix|
    && forall t :: 0 <= t < |b.vix| ==>
         b.names[t] == name && b.vix[t] < |diff| && b.dists[t] == diff[b.vix[t]]
  }

  /**
   * Lines 167-183 for one completed entry: select the points, and append a
   * block when the selection is non-empty (an index 0 alone still counts).
   */
  function BlockOf(receptor: string, le: Loaded, ifaceCutoff: real, descDistCutoff: real): Option<Block> {
    var diff := le.entry.diff;
    var selected := Selected(le.entry.iface, diff, ifaceCutoff, descDistCutoff);
    if |PositiveMask(selected)| > 0 then
      var name := Name(receptor, le.pid);
      Some(Block(Repeat(name, |selected|), selected,
                 seq(|selected|, t requires 0 <= t < |selected| => diff[selected[t]])))
    else None
  }

  /**
   * An entry yields a block exactly when its selection is non-empty, and the
   * block holds the selection, the entry's name once per index and the
   * distance at each selected index.
   */
  lemma BlockOfSelection(receptor: string, le: Loaded, ifaceCutoff: real, descDistCutoff: real)
    ensures var sel := Selected(le.entry.iface, le.entry.diff, ifaceCutoff, descDistCutoff);
      var r := BlockOf(receptor, le, ifaceCutoff, descDistCutoff);
      && (r.Some? <==> |sel| > 0)
      && (r.Some? ==> r.value.vix == sel && BlockAligned(r.value, Name(receptor, le.pid), le.entry.diff))
  {
  }

  /** The side labels of a run of completed entries. */
  function PidsOf(loaded: seq<Loaded>): set<string> {
    set k | 0 <= k < |loaded| :: loaded[k].pid
  }

  /**
   * The blocks appended for a run of completed entries: at most one per
   * entry, each non-empty, aligned, and named after the receptor and one of
   * the entries' side labels.
   */
  function MatchBlocks(receptor: string, loaded: seq<Loaded>, ifaceCutoff: real, descDistCutoff: real): (r: seq<Block>)
    ensures |r| <= |loaded|
  {
    if |loaded| == 0 then []
    else
      var n := |loaded| - 1;
      var rest := MatchBlocks(receptor, loaded[..n], ifaceCutoff, descDistCutoff);
      match BlockOf(receptor, loaded[n], ifaceCutoff, descDistCutoff)
      case None => rest
      case Some(b) => rest + [b]
  }

  /** A block that is non-empty, with its three parts of equal length and every name from this receptor and one of the side labels. */
  predicate BlockShaped(b: Block, receptor: string, pids: set<string>) {
    && |b.vix| > 0 && |b.names| == |b.vix| && |b.dists| == |b.vix|
    && forall t :: 0 <= t < |b.names| ==> b.names[t].receptor == receptor && b.names[t].pid in pids
  }

  predicate AllShaped(blocks: seq<Block>, receptor: string, pids: set<string>) {
    forall k :: 0 <= k < |blocks| ==> BlockShaped(blocks[k], receptor, pids)
  }

  /**
   * The blocks appended for a run of completed entries are each non-empty,
   * aligned, and named after the receptor and one of the entries' side labels.
   */
  lemma {:induction false} MatchBlocksShape(receptor: string, loaded: seq<Loaded>, ifaceCutoff: real, descDistCutoff: real)
    ensures AllShaped(MatchBlocks(receptor, loaded, ifaceCutoff, descDistCutoff), receptor, PidsOf(loaded))
  {
    if |loaded| > 0 {
      var n := |loaded| - 1;
      MatchBlocksShape(receptor, loaded[..n], ifaceCutoff, descDistCutoff);
      var rest := MatchBlocks(receptor, loaded[..n], ifaceCutoff, descDistCutoff);
      assert PidsOf(loaded[..n]) <= PidsOf(loaded) by {
        forall k | 0 <= k < n ensures loaded[..n][k].pid in PidsOf(loaded) {
          assert loaded[..n][k] == loaded[k];
        }
      }
      forall k | 0 <= k < |rest| ensures BlockShaped(rest[k], receptor, PidsOf(loaded)) {
        assert BlockShaped(rest[k], receptor, PidsOf(loaded[..n]));
      }
      assert loaded[n].pid in PidsOf(loaded);
      BlockOfSelection(receptor, loaded[n], ifaceCutoff, descDistCutoff);
      match BlockOf(receptor, loaded[n], ifaceCutoff, descDistCutoff)
      case None =>
      case Some(b) =>
        assert BlockShaped(b, receptor, PidsOf(loaded));
        assert MatchBlocks(receptor, loaded, ifaceCutoff, descDistCutoff) == rest + [b];
    }
  }

  /** The accumulators hold, block by block, the names, indices and distances of `blocks`. */
  predicate Accumulated(names: seq<seq<Name>>, vix: seq<seq<nat>>, dists: seq<seq<real>>, blocks: seq<Block>) {
    && |names| == |blocks| && |vix| == |blocks| && |dists| == |blocks|
    && forall k :: 0 <= k < |blocks| ==>
         names[k] == blocks[k].names && vix[k] == blocks[k].vix && dists[k] == blocks[k].dists
  }

  lemma AccumulatedSnoc(names: seq<seq<Name>>, vix: seq<seq<nat>>, dists: seq<seq<real>>,
                        blocks: seq<Block>, b: Block)
    requires Accumulated(names, vix, dists, blocks)
    ensures Accumulated(names + [b.names], vix + [b.vix], dists + [b.dists], blocks + [b])
  {
  }

  /** One more completed entry extends the blocks by its own block, if any. */
  lemma BlocksStep(receptor: string, loaded: seq<Loaded>, le: Loaded, ifaceCutoff: real, descDistCutoff: real)
    ensures MatchBlocks(receptor, loaded + [le], ifaceCutoff, descDistCutoff)
         == match BlockOf(receptor, le, ifaceCutoff, descDistCutoff)
            case None => MatchBlocks(receptor, loaded, ifaceCutoff, descDistCutoff)
            case Some(b) => MatchBlocks(receptor, loaded, ifaceCutoff, descDistCutoff) + [b]
  {
    assert (loaded + [le])[..|loaded|] == loaded;
  }

  /**
   * `match_descriptors`: one pass over the side labels, appending to the three
   * accumulators and counting the entries that loaded.
   */
  method MatchDescriptors(store: Store, pids: seq<string>, receptorName: string,
                          descDistCutoff: real, ifaceCutoff: real)
    returns (allMatchedNames: seq<seq<Name>>, allMatchedVix: seq<seq<nat>>,
             allMatchedDescDist: seq<seq<real>>, countProteins: nat)
    ensures var loaded := LoadedEntries(Split(receptorName, Sep), pids, store);
      && countProteins == |loaded|
      && Accumulated(allMatchedNames, allMatchedVix, allMatchedDescDist,
                     MatchBlocks(receptorName, loaded, ifaceCutoff, descDistCutoff))
  {
    allMatchedNames, allMatchedVix, allMatchedDescDist := [], [], [];
    countProteins := 0;
    ghost var allFields := Split(receptorName, Sep);
    ghost var loaded: seq<Loaded> := [];
    var pdbChainId: Option<string> := None;
    var i := 0;
    while i < |pids|
      invariant 0 <= i <= |pids|
      invariant pdbChainId == Carried(allFields, pids[..i])
      invariant loaded == LoadedEntries(allFields, pids[..i], store)
      invariant countProteins == |loaded|
      invariant Accumulated(allMatchedNames, allMatchedVix, allMatchedDescDist,
                            MatchBlocks(receptorName, loaded, ifaceCutoff, descDistCutoff))
    {
      var pid := pids[i];
      var fields := Split(receptorName, Sep);
      LoadedStep(fields, pids, i, store, pdbChainId, loaded);
      var outcome := TryLoad(fields, pid, pdbChainId, store);
      pdbChainId := StepChain(fields, pid, pdbChainId).carried;
      if outcome.Some? {
        var le := outcome.value;
        countProteins := countProteins + 1;
        BlocksStep(receptorName, loaded, le, ifaceCutoff, descDistCutoff);
        ghost var blocksBefore := MatchBlocks(receptorName, loaded, ifaceCutoff, descDistCutoff);
        var block := BlockOf(receptorName, le, ifaceCutoff, descDistCutoff);
        if block.Some? {
          var b := block.value;
          AccumulatedSnoc(allMatchedNames, allMatchedVix, allMatchedDescDist, blocksBefore, b);
          allMatchedNames := allMatchedNames + [b.names];
          allMatchedVix := allMatchedVix + [b.vix];
          allMatchedDescDist := allMatchedDescDist + [b.dists];
        }
        loaded := loaded + [le];
      }
      i := i + 1;
    }
    assert pids[..|pids|] == pids;
  }
}
