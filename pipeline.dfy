/**
 * The script's orchestration of the three stages for one receptor: filter
 * both sides with the script's cutoffs, concatenate and group the matches,
 * write the protein count as the first log line, then emit the accepted
 * alignments.
 */
module Pipeline {
  import opened Wrappers
  import opened Text
  import opened Indices
  import opened CandidateFilter
  import opened Aggregator
  import opened Emitter

  /** The side labels the script passes to the filter. */
  const Sides: seq<string> := ["p1", "p2"]

  /** The name blocks of `all_matched_names`. */
  function NamesOf(blocks: seq<Block>): seq<seq<Name>> {
    seq(|blocks|, k requires 0 <= k < |blocks| => blocks[k].names)
  }

  /** The index blocks of `all_matched_vix`. */
  function VixOf(blocks: seq<Block>): seq<seq<nat>> {
    seq(|blocks|, k requires 0 <= k < |blocks| => blocks[k].vix)
  }

  /** The blocks the filter appends for `receptorName` with the script's cutoffs. */
  function ScriptBlocks(receptorName: string, store: Store): seq<Block> {
    MatchBlocks(receptorName, LoadedEntries(Split(receptorName, Sep), Sides, store), IfaceCutoff, DescDistCutoff)
  }

  /** Every concatenated name is the receptor with the label of a completed entry. */
  lemma BlockNamesOrigin(receptor: string, loaded: seq<Loaded>, ifaceCutoff: real, descDistCutoff: real)
    ensures forall x: Name :: x in Concat(NamesOf(MatchBlocks(receptor, loaded, ifaceCutoff, descDistCutoff))) ==>
      x.receptor == receptor && x.pid in PidsOf(loaded)
  {
    var blocks := MatchBlocks(receptor, loaded, ifaceCutoff, descDistCutoff);
    var names := NamesOf(blocks);
    MatchBlocksShape(receptor, loaded, ifaceCutoff, descDistCutoff);
    forall x: Name | x in Concat(names) ensures x.receptor == receptor && x.pid in PidsOf(loaded) {
      ConcatMember(names, x);
      var k, t :| 0 <= k < |names| && 0 <= t < |names[k]| && names[k][t] == x;
      assert names[k] == blocks[k].names;
      assert BlockShaped(blocks[k], receptor, PidsOf(loaded));
    }
  }

  /**
   * The cutoffs the script passes (an interface score strictly above 0.4 and
   * a descriptor distance strictly below 2.5) decide which points are selected.
   */
  lemma ScriptCutoffs(iface: seq<real>, diff: seq<real>)
    ensures forall i: nat :: i in Selected(iface, diff, IfaceCutoff, DescDistCutoff) <==>
      i < |iface| && i < |diff| && iface[i] > 0.4 && diff[i] < 2.5
  {
  }

  /**
   * Lines 235-238 ask for the two sides only: at most two blocks, and every
   * name in them is the receptor with side p1 or p2.
   */
  lemma ScriptBlocksSides(receptorName: string, store: Store)
    ensures |ScriptBlocks(receptorName, store)| <= 2
    ensures forall k, t :: 0 <= k < |ScriptBlocks(receptorName, store)| && 0 <= t < |ScriptBlocks(receptorName, store)[k].names| ==>
      && ScriptBlocks(receptorName, store)[k].names[t].receptor == receptorName
      && ScriptBlocks(receptorName, store)[k].names[t].pid in Sides
  {
    var fields := Split(receptorName, Sep);
    var loaded := LoadedEntries(fields, Sides, store);
    var blocks := ScriptBlocks(receptorName, store);
    LoadedFromPids(fields, Sides, store);
    MatchBlocksShape(receptorName, loaded, IfaceCutoff, DescDistCutoff);
    forall k, t | 0 <= k < |blocks| && 0 <= t < |blocks[k].names|
      ensures blocks[k].names[t].receptor == receptorName && blocks[k].names[t].pid in Sides
    {
      assert BlockShaped(blocks[k], receptorName, PidsOf(loaded));
      var pid := blocks[k].names[t].pid;
      assert pid in PidsOf(loaded);
      var j :| 0 <= j < |loaded| && loaded[j].pid == pid;
    }
  }

  /** A completed label is one of the requested labels, and the receptor has enough fields for it. */
  lemma LoadedPidsSuffice(fields: seq<string>, pids: seq<string>, store: Store, pid: string)
    requires |fields| >= 1 && pid in PidsOf(LoadedEntries(fields, pids, store))
    ensures pid in pids && FieldsSuffice(fields, pid)
  {
    var loaded := LoadedEntries(fields, pids, store);
    var j :| 0 <= j < |loaded| && loaded[j].pid == pid;
    LoadedFromPids(fields, pids, store);
  }

  /** A p1 or p2 name with enough fields for the filter's lookup passes the emitter's lookup too. */
  lemma SideEmittable(x: Name)
    requires x.pid in Sides && FieldsSuffice(Split(x.receptor, Sep), x.pid)
    ensures Emittable(x)
  {
  }

  /**
   * Every matched name the filter produces for the two sides can be emitted:
   * the chain lookup of lines 259-264 never raises on them.
   */
  lemma MatchedNamesEmittable(receptorName: string, store: Store, x: Name)
    requires x in Concat(NamesOf(ScriptBlocks(receptorName, store)))
    ensures x.receptor == receptorName && Emittable(x)
  {
    var fields := Split(receptorName, Sep);
    BlockNamesOrigin(receptorName, LoadedEntries(fields, Sides, store), IfaceCutoff, DescDistCutoff);
    LoadedPidsSuffice(fields, Sides, store, x.pid);
    SideEmittable(x);
  }

  /**
   * The concatenated matches of the two sides line up name by index, and
   * every key of their grouping can be emitted.
   */
  lemma ScriptMatches(receptorName: string, store: Store)
    ensures |Concat(NamesOf(ScriptBlocks(receptorName, store)))| == |Concat(VixOf(ScriptBlocks(receptorName, store)))|
    ensures AllEmittable(FirstOccurrences(Concat(NamesOf(ScriptBlocks(receptorName, store)))))
  {
    var loaded := LoadedEntries(Split(receptorName, Sep), Sides, store);
    var blocks := ScriptBlocks(receptorName, store);
    MatchBlocksShape(receptorName, loaded, IfaceCutoff, DescDistCutoff);
    forall k | 0 <= k < |blocks| ensures |NamesOf(blocks)[k]| == |VixOf(blocks)[k]| {
      assert BlockShaped(blocks[k], receptorName, PidsOf(loaded));
    }
    ConcatAligned(NamesOf(blocks), VixOf(blocks));
    var names := Concat(NamesOf(blocks));
    forall k | k in FirstOccurrences(names) ensures Emittable(k) {
      MatchedNamesEmittable(receptorName, store, k);
    }
  }

  // ---------------------------------------------------------------------
  // From the filter to the dictionary

  /** No two completed entries carry the same side label. */
  predicate DistinctLabels(loaded: seq<Loaded>) {
    forall i, j :: 0 <= i < j < |loaded| ==> loaded[i].pid != loaded[j].pid
  }

  /** Distinct side labels give completed entries with distinct labels. */
  lemma {:induction false} LoadedDistinct(fields: seq<string>, pids: seq<string>, store: Store)
    requires |fields| >= 1
    requires forall i, j :: 0 <= i < j < |pids| ==> pids[i] != pids[j]
    ensures DistinctLabels(LoadedEntries(fields, pids, store))
  {
    if |pids| > 0 {
      var n := |pids| - 1;
      var prefix := pids[..n];
      assert forall i, j :: 0 <= i < j < |prefix| ==> prefix[i] != prefix[j] by {
        forall i, j | 0 <= i < j < |prefix| ensures prefix[i] != prefix[j] {
          assert prefix[i] == pids[i] && prefix[j] == pids[j];
        }
      }
      LoadedDistinct(fields, prefix, store);
      LoadedFromPids(fields, prefix, store);
      var rest := LoadedEntries(fields, prefix, store);
      assert pids[n] !in prefix;
      match TryLoad(fields, pids[n], Carried(fields, prefix), store)
      case None =>
      case Some(le) =>
        forall k | 0 <= k < |rest| ensures rest[k].pid != le.pid {
          assert rest[k].pid in prefix;
        }
        assert LoadedEntries(fields, pids, store) == rest + [le];
    }
  }

  /** Each completed entry's matches among `names`/`vix` are exactly its selection. */
  predicate EntriesGrouped(receptor: string, loaded: seq<Loaded>, names: seq<Name>, vix: seq<nat>,
                           ifaceCutoff: real, descDistCutoff: real)
    requires |names| <= |vix|
  {
    forall k :: 0 <= k < |loaded| ==>
      MatchesOf(names, vix, Name(receptor, loaded[k].pid))
      == Selected(loaded[k].entry.iface, loaded[k].entry.diff, ifaceCutoff, descDistCutoff)
  }

  /** Appending one entry's selection, under a fresh label, extends `EntriesGrouped` by that entry. */
  lemma GroupSelectionsStep(receptor: string, prev: seq<Loaded>, le: Loaded, names: seq<Name>, vix: seq<nat>,
                            ifaceCutoff: real, descDistCutoff: real)
    requires |names| == |vix|
    requires EntriesGrouped(receptor, prev, names, vix, ifaceCutoff, descDistCutoff)
    requires forall k :: 0 <= k < |prev| ==> prev[k].pid != le.pid
    requires Name(receptor, le.pid) !in names
    ensures EntriesGrouped(receptor, prev + [le],
                           names + Repeat(Name(receptor, le.pid),
                                          |Selected(le.entry.iface, le.entry.diff, ifaceCutoff, descDistCutoff)|),
                           vix + Selected(le.entry.iface, le.entry.diff, ifaceCutoff, descDistCutoff),
                           ifaceCutoff, descDistCutoff)
  {
    var sel := Selected(le.entry.iface, le.entry.diff, ifaceCutoff, descDistCutoff);
    var nm := Name(receptor, le.pid);
    var loaded := prev + [le];
    NoMatchesOfAbsent(names, vix, nm);
    forall k | 0 <= k < |loaded|
      ensures MatchesOf(names + Repeat(nm, |sel|), vix + sel, Name(receptor, loaded[k].pid))
           == Selected(loaded[k].entry.iface, loaded[k].entry.diff, ifaceCutoff, descDistCutoff)
    {
      var key := Name(receptor, loaded[k].pid);
      MatchesOfAppend(names, vix, Repeat(nm, |sel|), sel, key);
      MatchesOfRepeat(nm, sel, key);
      if k < |prev| {
        assert loaded[k] == prev[k];
        assert key != nm;
      }
    }
  }

  /** Appending a block appends its names and its indices to the concatenations. */
  lemma ConcatSnocBlock(bs: seq<Block>, b: Block)
    ensures Concat(NamesOf(bs + [b])) == Concat(NamesOf(bs)) + b.names
    ensures Concat(VixOf(bs + [b])) == Concat(VixOf(bs)) + b.vix
  {
    assert NamesOf(bs + [b])[..|bs|] == NamesOf(bs);
    assert VixOf(bs + [b])[..|bs|] == VixOf(bs);
  }

  /** One more completed entry appends its selection, under its own name, to the concatenations. */
  lemma MatchBlocksSnoc(receptor: string, prev: seq<Loaded>, le: Loaded, ifaceCutoff: real, descDistCutoff: real)
    ensures Concat(NamesOf(MatchBlocks(receptor, prev + [le], ifaceCutoff, descDistCutoff)))
         == Concat(NamesOf(MatchBlocks(receptor, prev, ifaceCutoff, descDistCutoff)))
            + Repeat(Name(receptor, le.pid), |Selected(le.entry.iface, le.entry.diff, ifaceCutoff, descDistCutoff)|)
    ensures Concat(VixOf(MatchBlocks(receptor, prev + [le], ifaceCutoff, descDistCutoff)))
         == Concat(VixOf(MatchBlocks(receptor, prev, ifaceCutoff, descDistCutoff)))
            + Selected(le.entry.iface, le.entry.diff, ifaceCutoff, descDistCutoff)
  {
    var loaded := prev + [le];
    assert loaded[..|prev|] == prev;
    var bs := MatchBlocks(receptor, prev, ifaceCutoff, descDistCutoff);
    var sel := Selected(le.entry.iface, le.entry.diff, ifaceCutoff, descDistCutoff);
    var nm := Name(receptor, le.pid);
    BlockOfSelection(receptor, le, ifaceCutoff, descDistCutoff);
    match BlockOf(receptor, le, ifaceCutoff, descDistCutoff)
    case None =>
      assert Repeat(nm, |sel|) == [] && sel == [];
    case Some(b) =>
      ConcatSnocBlock(bs, b);
      assert b.names == Repeat(nm, |sel|);
  }

  /** The concatenated names and indices of any run of the filter line up. */
  lemma {:induction false} ConcatBlocksAligned(receptor: string, loaded: seq<Loaded>,
                                               ifaceCutoff: real, descDistCutoff: real)
    ensures |Concat(NamesOf(MatchBlocks(receptor, loaded, ifaceCutoff, descDistCutoff)))|
         == |Concat(VixOf(MatchBlocks(receptor, loaded, ifaceCutoff, descDistCutoff)))|
  {
    if |loaded| == 0 {
      assert NamesOf([]) == [] && VixOf([]) == [];
    } else {
      var n := |loaded| - 1;
      assert loaded == loaded[..n] + [loaded[n]];
      ConcatBlocksAligned(receptor, loaded[..n], ifaceCutoff, descDistCutoff);
      MatchBlocksSnoc(receptor, loaded[..n], loaded[n], ifaceCutoff, descDistCutoff);
    }
  }

  /** Every (name, index) match of `names`/`vix` is also a match of `names'`/`vix'`. */
  predicate PairsIncluded(names: seq<Name>, vix: seq<nat>, names': seq<Name>, vix': seq<nat>) {
    forall t :: 0 <= t < |names| && t < |vix| ==>
      exists t' :: 0 <= t' < |names'| && t' < |vix'| && names'[t'] == names[t] && vix'[t'] == vix[t]
  }

  /**
   * With the entries fixed, lowering the interface cutoff or raising the
   * distance cutoff keeps every match the filter produced, and so cannot
   * shrink its output.
   */
  lemma {:induction false} MatchesMonotone(receptor: string, loaded: seq<Loaded>, ifaceCutoff: real,
                                           descDistCutoff: real, ifaceCutoff': real, descDistCutoff': real)
    requires ifaceCutoff' <= ifaceCutoff && descDistCutoff <= descDistCutoff'
    ensures |Concat(VixOf(MatchBlocks(receptor, loaded, ifaceCutoff, descDistCutoff)))|
         <= |Concat(VixOf(MatchBlocks(receptor, loaded, ifaceCutoff', descDistCutoff')))|
    ensures PairsIncluded(Concat(NamesOf(MatchBlocks(receptor, loaded, ifaceCutoff, descDistCutoff))),
                          Concat(VixOf(MatchBlocks(receptor, loaded, ifaceCutoff, descDistCutoff))),
                          Concat(NamesOf(MatchBlocks(receptor, loaded, ifaceCutoff', descDistCutoff'))),
                          Concat(VixOf(MatchBlocks(receptor, loaded, ifaceCutoff', descDistCutoff'))))
  {
    if |loaded| == 0 {
      assert NamesOf([]) == [] && VixOf([]) == [];
    } else {
      var n := |loaded| - 1;
      var prev, le := loaded[..n], loaded[n];
      assert loaded == prev + [le];
      MatchesMonotone(receptor, prev, ifaceCutoff, descDistCutoff, ifaceCutoff', descDistCutoff');
      MatchBlocksSnoc(receptor, prev, le, ifaceCutoff, descDistCutoff);
      MatchBlocksSnoc(receptor, prev, le, ifaceCutoff', descDistCutoff');
      ConcatBlocksAligned(receptor, prev, ifaceCutoff, descDistCutoff);
      ConcatBlocksAligned(receptor, prev, ifaceCutoff', descDistCutoff');
      SelectedMonotone(le.entry.iface, le.entry.diff, ifaceCutoff, descDistCutoff, ifaceCutoff', descDistCutoff');
      var np := Concat(NamesOf(MatchBlocks(receptor, prev, ifaceCutoff, descDistCutoff)));
      var vp := Concat(VixOf(MatchBlocks(receptor, prev, ifaceCutoff, descDistCutoff)));
      var np' := Concat(NamesOf(MatchBlocks(receptor, prev, ifaceCutoff', descDistCutoff')));
      var vp' := Concat(VixOf(MatchBlocks(receptor, prev, ifaceCutoff', descDistCutoff')));
      var sel := Selected(le.entry.iface, le.entry.diff, ifaceCutoff, descDistCutoff);
      var sel' := Selected(le.entry.iface, le.entry.diff, ifaceCutoff', descDistCutoff');
      var nm := Name(receptor, le.pid);
      PairsStep(np, vp, np', vp', nm, sel, sel');
    }
  }

  /** Appending one entry's run under both cutoff pairs keeps `PairsIncluded` when its selection only grows. */
  lemma PairsStep(np: seq<Name>, vp: seq<nat>, np': seq<Name>, vp': seq<nat>, nm: Name, sel: seq<nat>, sel': seq<nat>)
    requires |np| == |vp| && |np'| == |vp'|
    requires PairsIncluded(np, vp, np', vp')
    requires forall i :: i in sel ==> i in sel'
    ensures PairsIncluded(np + Repeat(nm, |sel|), vp + sel, np' + Repeat(nm, |sel'|), vp' + sel')
  {
    var names, vix := np + Repeat(nm, |sel|), vp + sel;
    var names', vix' := np' + Repeat(nm, |sel'|), vp' + sel';
    forall t | 0 <= t < |names| && t < |vix|
      ensures exists t' :: 0 <= t' < |names'| && t' < |vix'| && names'[t'] == names[t] && vix'[t'] == vix[t]
    {
      if t < |np| {
        var t' :| 0 <= t' < |np'| && t' < |vp'| && np'[t'] == np[t] && vp'[t'] == vp[t];
        assert names'[t'] == np'[t'] && vix'[t'] == vp'[t'];
      } else {
        var u := t - |np|;
        assert names[t] == nm && vix[t] == sel[u];
        assert sel[u] in sel;
        var u' :| 0 <= u' < |sel'| && sel'[u'] == sel[u];
        var t' := |np'| + u';
        assert names'[t'] == nm && vix'[t'] == sel'[u'];
      }
    }
    assert forall t :: 0 <= t < |names| && t < |vix| ==>
      exists t' :: 0 <= t' < |names'| && t' < |vix'| && names'[t'] == names[t] && vix'[t'] == vix[t];
  }

  /**
   * Concatenating the blocks of entries with distinct side labels gives each
   * entry, as its matches, exactly its own selection.
   */
  lemma {:induction false} BlocksGroupSelections(receptor: string, loaded: seq<Loaded>,
                                                 ifaceCutoff: real, descDistCutoff: real)
    requires DistinctLabels(loaded)
    ensures |Concat(NamesOf(MatchBlocks(receptor, loaded, ifaceCutoff, descDistCutoff)))|
         == |Concat(VixOf(MatchBlocks(receptor, loaded, ifaceCutoff, descDistCutoff)))|
    ensures EntriesGrouped(receptor, loaded,
                           Concat(NamesOf(MatchBlocks(receptor, loaded, ifaceCutoff, descDistCutoff))),
                           Concat(VixOf(MatchBlocks(receptor, loaded, ifaceCutoff, descDistCutoff))),
                           ifaceCutoff, descDistCutoff)
  {
    if |loaded| == 0 {
      assert NamesOf([]) == [] && VixOf([]) == [];
    } else {
      var n := |loaded| - 1;
      var prev, le := loaded[..n], loaded[n];
      assert loaded == prev + [le];
      assert DistinctLabels(prev) by {
        forall i, j | 0 <= i < j < |prev| ensures prev[i].pid != prev[j].pid {
          assert prev[i] == loaded[i] && prev[j] == loaded[j];
        }
      }
      BlocksGroupSelections(receptor, prev, ifaceCutoff, descDistCutoff);
      var names := Concat(NamesOf(MatchBlocks(receptor, prev, ifaceCutoff, descDistCutoff)));
      var vix := Concat(VixOf(MatchBlocks(receptor, prev, ifaceCutoff, descDistCutoff)));
      var nm := Name(receptor, le.pid);
      assert forall k :: 0 <= k < |prev| ==> prev[k].pid != le.pid by {
        forall k | 0 <= k < |prev| ensures prev[k].pid != le.pid {
          assert prev[k] == loaded[k];
        }
      }
      assert nm !in names by {
        if nm in names {
          BlockNamesOrigin(receptor, prev, ifaceCutoff, descDistCutoff);
        }
      }
      GroupSelectionsStep(receptor, prev, le, names, vix, ifaceCutoff, descDistCutoff);
      MatchBlocksSnoc(receptor, prev, le, ifaceCutoff, descDistCutoff);
    }
  }

  /**
   * In the dictionary of one run, an entry that loaded is a key exactly when
   * its selection is non-empty, and its list is then that selection (strictly
   * ascending, valid indices into the entry's arrays); every key is one of
   * these entries.
   */
  predicate GroupedAsSelected(receptor: string, loaded: seq<Loaded>, dict: map<Name, seq<nat>>) {
    && (forall k :: 0 <= k < |loaded| ==>
          && (Name(receptor, loaded[k].pid) in dict
              <==> |Selected(loaded[k].entry.iface, loaded[k].entry.diff, IfaceCutoff, DescDistCutoff)| > 0)
          && (Name(receptor, loaded[k].pid) in dict ==>
                dict[Name(receptor, loaded[k].pid)]
                == Selected(loaded[k].entry.iface, loaded[k].entry.diff, IfaceCutoff, DescDistCutoff)))
    && (forall key :: key in dict ==> key.receptor == receptor && key.pid in PidsOf(loaded))
  }

  /** The dictionary the script builds holds, per loaded side, exactly that side's selection. */
  lemma ScriptGrouping(receptorName: string, store: Store)
    ensures |Concat(NamesOf(ScriptBlocks(receptorName, store)))| == |Concat(VixOf(ScriptBlocks(receptorName, store)))|
    ensures GroupedAsSelected(receptorName, LoadedEntries(Split(receptorName, Sep), Sides, store),
                              Grouped(Concat(NamesOf(ScriptBlocks(receptorName, store))),
                                      Concat(VixOf(ScriptBlocks(receptorName, store)))))
  {
    var fields := Split(receptorName, Sep);
    var loaded := LoadedEntries(fields, Sides, store);
    LoadedDistinct(fields, Sides, store);
    BlocksGroupSelections(receptorName, loaded, IfaceCutoff, DescDistCutoff);
    var blocks := ScriptBlocks(receptorName, store);
    var names, vix := Concat(NamesOf(blocks)), Concat(VixOf(blocks));
    var dict := Grouped(names, vix);
    forall k | 0 <= k < |loaded|
      ensures && (Name(receptorName, loaded[k].pid) in dict
                  <==> |Selected(loaded[k].entry.iface, loaded[k].entry.diff, IfaceCutoff, DescDistCutoff)| > 0)
              && (Name(receptorName, loaded[k].pid) in dict ==>
                    dict[Name(receptorName, loaded[k].pid)]
                    == Selected(loaded[k].entry.iface, loaded[k].entry.diff, IfaceCutoff, DescDistCutoff))
    {
      var key := Name(receptorName, loaded[k].pid);
      if key in names {
        MatchesOfPresent(names, vix, key);
      } else {
        NoMatchesOfAbsent(names, vix, key);
      }
    }
    forall key | key in dict ensures key.receptor == receptorName && key.pid in PidsOf(loaded) {
      BlockNamesOrigin(receptorName, loaded, IfaceCutoff, DescDistCutoff);
    }
  }

  /**
   * The script from line 235 on, for one receptor. Requires at least one
   * matched entry: `np.concatenate` of an empty list raises at line 240.
   */
  method Run<P>(receptorName: string, store: Store, dock: (Name, seq<nat>) -> seq<Attempt<P>>)
    returns (log: seq<LogLine>, written: seq<Written<P>>, completed: bool)
    requires |ScriptBlocks(receptorName, store)| > 0
    ensures completed
    ensures |log| == |written| + 1
    ensures log[0] == TotalProteins(|LoadedEntries(Split(receptorName, Sep), Sides, store)|)
    ensures forall t :: 1 <= t < |log| ==> log[t].Accepted? && log[t].score >= 0.0
    ensures var blocks := ScriptBlocks(receptorName, store);
      var names, vix := Concat(NamesOf(blocks)), Concat(VixOf(blocks));
      |names| == |vix|
      && log[1..] == EmitSpec(FirstOccurrences(names), Grouped(names, vix), dock).log
      && written == EmitSpec(FirstOccurrences(names), Grouped(names, vix), dock).written
  {
    var allNames, allVix, allDists, countProteins :=
      MatchDescriptors(store, Sides, receptorName, DescDistCutoff, IfaceCutoff);
    ghost var blocks := ScriptBlocks(receptorName, store);
    assert allNames == NamesOf(blocks) && allVix == VixOf(blocks);
    ScriptMatches(receptorName, store);
    var matchedNames := Concat(allNames);
    var matchedVix := Concat(allVix);
    var keys, matchedDict := GroupMatches(matchedNames, matchedVix);
    log := [TotalProteins(countProteins)];
    EmitCompletes(keys, matchedDict, dock);
    var descScores, entryLog;
    descScores, entryLog, written, completed := EmitMatches(keys, matchedDict, dock);
    EmitSpecLines(keys, matchedDict, dock);
    assert AllAccepted(entryLog);
    log := log + entryLog;
    assert log[1..] == entryLog;
  }

  // ---------------------------------------------------------------------
  // Worked scenarios

  /** A point scoring 0.5 at distance 1.0 passes the cutoffs 0.4 and 2.5. */
  lemma ScenarioAccept()
    ensures Selected([0.5], [1.0], 0.4, 2.5) == [0]
  {
    AscendingUnique(Selected([0.5], [1.0], 0.4, 2.5), [0]);
  }

  /** The same point fails an interface cutoff of 0.6. */
  lemma ScenarioRejectIface()
    ensures Selected([0.5], [1.0], 0.6, 2.5) == []
  {
    AscendingUnique(Selected([0.5], [1.0], 0.6, 2.5), []);
  }

  /** A point whose only selected index is 0 still yields a block. */
  lemma ScenarioIndexZeroCounts(receptor: string)
    ensures BlockOf(receptor, Loaded("p1", "X_A", Entry([1.0], [0.0])), 0.4, 2.5).Some?
  {
    BlockOfSelection(receptor, Loaded("p1", "X_A", Entry([1.0], [0.0])), 0.4, 2.5);
    ScenarioSelectsIndexZero();
  }

  /** A point scoring 1.0 at distance 0.0 is selected, as index 0. */
  lemma ScenarioSelectsIndexZero()
    ensures Selected([1.0], [0.0], 0.4, 2.5) == [0]
  {
    AscendingUnique(Selected([1.0], [0.0], 0.4, 2.5), [0]);
  }

  /**
   * A receptor `PDB_A_B` whose side p2 has no descriptor file while side p1
   * has both files: p2 is skipped, p1 is still processed, and the count is 1.
   */
  lemma ScenarioMissingSide(pdb: string, a: string, b: string, iface: seq<real>, diff: seq<real>)
    requires Sep !in pdb && Sep !in a && Sep !in b
    ensures var store := Store(map[pdb + [Sep] + a := iface], map["p1" := diff]);
      LoadedEntries(Split(pdb + [Sep] + a + [Sep] + b, Sep), Sides, store)
      == [Loaded("p1", pdb + [Sep] + a, Entry(iface, diff))]
  {
    var store := Store(map[pdb + [Sep] + a := iface], map["p1" := diff]);
    var fields := Split(pdb + [Sep] + a + [Sep] + b, Sep);
    ChainIdOfSide(pdb, a, b, None);
    assert Sides[..1] == ["p1"] && Sides[..1][..0] == [] && Sides[..2] == Sides;
    assert TryLoad(fields, "p1", None, store).Some?;
    assert LoadedEntries(fields, Sides[..1], store) == [TryLoad(fields, "p1", None, store).value];
    assert "p2" !in store.distances;
    assert TryLoad(fields, "p2", Carried(fields, Sides[..1]), store).None?;
  }
}
