/**
 * The result selector and emitter: for every dictionary key, in insertion
 * order, parse the pdb code and chain from the name, take the scores of the
 * alignment attempts the docking step returns, keep the attempts scoring at
 * least 0 in ascending order, and for each kept attempt write one log line
 * and one output file base `out/<pdb>/<pdb>_<chain>_<j>`.
 */
module Emitter {
  import opened Wrappers
  import opened Text
  import opened Indices
  import opened CandidateFilter

  /** One alignment attempt of the docking step: its pose (transformation and aligned patch) and its score. */
  datatype Attempt<P> = Attempt(pose: P, score: real)

  /** A line of `log.txt`. */
  datatype LogLine = TotalProteins(count: nat) | Accepted(ppiPairId: string, score: real, pid: string)

  /** An emitted result: the base of its `.pdb` and `.vert` file names and the pose written there. */
  datatype Written<P> = Written(base: string, pose: P)

  /** `np.asarray(all_source_scores)`. */
  function Scores<P>(attempts: seq<Attempt<P>>): seq<real> {
    seq(|attempts|, k requires 0 <= k < |attempts| => attempts[k].score)
  }

  /** `np.where(scores >= 0)[0]`: exactly the attempts scoring at least 0, ascending. */
  function TopScorers(scores: seq<real>): (r: seq<nat>)
    ensures StrictlyAscending(r)
    ensures forall j: nat :: j in r <==> j < |scores| && scores[j] >= 0.0
  {
    var mask := seq(|scores|, j requires 0 <= j < |scores| => scores[j] >= 0.0);
    var r := Where(mask);
    assert forall t :: 0 <= t < |r| ==> r[t] < |scores| && scores[r[t]] >= 0.0 by {
      forall t | 0 <= t < |r| ensures r[t] < |scores| && scores[r[t]] >= 0.0 {
        assert mask[r[t]];
      }
    }
    r
  }

  /** Line 304 keeps the attempts' order, so `top_scorers` are exactly the attempts scoring at least 0. */
  lemma TopScorersOfAttempts<P>(attempts: seq<Attempt<P>>)
    ensures forall j: nat :: j in TopScorers(Scores(attempts)) <==> j < |attempts| && attempts[j].score >= 0.0
  {
  }

  /** One accepted attempt per non-negative score, and no other. */
  lemma AcceptedCount(scores: seq<real>)
    ensures |TopScorers(scores)| == |set j: nat | j < |scores| && scores[j] >= 0.0|
  {
    var top := TopScorers(scores);
    AscendingCard(top);
    assert Elements(top) == set j: nat | j < |scores| && scores[j] >= 0.0;
  }

  /**
   * Lines 259-264: the pdb code is field 0 of the name; side p1 takes its
   * chain from field 1 and any other side from field 2. None: the lookup
   * raises, which ends the script.
   */
  function EmitChain(ppiPairId: string, pid: string): Option<(string, string)> {
    var fields := Split(ppiPairId, Sep);
    if pid == "p1" then
      if |fields| >= 2 then Some((fields[0], fields[1])) else None
    else
      if |fields| >= 3 then Some((fields[0], fields[2])) else None
  }

  /**
   * For `PDB_A_B` with separator-free parts, side p1 is emitted from chain A
   * of `PDB`, and every other label (the `else` of line 263) from chain B.
   */
  lemma EmitChainOfParts(pdb: string, a: string, b: string, pid: string)
    requires Sep !in pdb && Sep !in a && Sep !in b
    ensures EmitChain(pdb + [Sep] + a + [Sep] + b, pid) == Some((pdb, if pid == "p1" then a else b))
  {
    var parts := [pdb, a, b];
    assert parts[1..] == [a, b] && parts[1..][1..] == [b];
    assert Join([b], Sep) == b;
    assert Join([a, b], Sep) == a + [Sep] + b;
    assert Join(parts, Sep) == pdb + [Sep] + (a + [Sep] + b);
    assert pdb + [Sep] + (a + [Sep] + b) == pdb + [Sep] + a + [Sep] + b;
    SplitJoin(parts, Sep);
  }

  /** A receptor `PDB_A` with only two fields can be emitted for p1, and for no other label. */
  lemma EmitChainTwoFields(pdb: string, a: string, pid: string)
    requires Sep !in pdb && Sep !in a
    ensures EmitChain(pdb + [Sep] + a, pid) == if pid == "p1" then Some((pdb, a)) else None
  {
    var parts := [pdb, a];
    assert parts[1..] == [a];
    assert Join([a], Sep) == a;
    assert Join(parts, Sep) == pdb + [Sep] + a;
    SplitJoin(parts, Sep);
  }

  /**
   * For the two side labels, an entry that loaded can be emitted, and the pdb
   * code and chain the emitter derives name the same chain file the filter
   * loaded predictions from.
   */
  lemma EmitChainMatchesLoad(receptor: string, pid: string, prev: Option<string>, store: Store)
    requires pid == "p1" || pid == "p2"
    requires TryLoad(Split(receptor, Sep), pid, prev, store).Some?
    ensures EmitChain(receptor, pid).Some?
    ensures var pc := EmitChain(receptor, pid).value;
      pc.0 + [Sep] + pc.1 == TryLoad(Split(receptor, Sep), pid, prev, store).value.chainId
  {
  }

  /** `"out/" + pdb + "/{}_{}_{}".format(pdb, chain, j)`. */
  function OutputBase(pdb: string, chain: string, j: nat): string {
    "out/" + pdb + "/" + pdb + [Sep] + chain + [Sep] + NatToDecimal(j)
  }

  /** Different attempts of one entry never share an output file. */
  lemma OutputBaseInjective(pdb: string, chain: string, j: nat, j': nat)
    requires OutputBase(pdb, chain, j) == OutputBase(pdb, chain, j')
    ensures j == j'
  {
    var prefix := "out/" + pdb + "/" + pdb + [Sep] + chain + [Sep];
    assert OutputBase(pdb, chain, j) == prefix + NatToDecimal(j);
    assert OutputBase(pdb, chain, j') == prefix + NatToDecimal(j');
    assert (prefix + NatToDecimal(j))[|prefix|..] == NatToDecimal(j);
    assert (prefix + NatToDecimal(j'))[|prefix|..] == NatToDecimal(j');
    DecimalInjective(j, j');
  }

  /**
   * The output base lies directly in the directory `out/<pdb>` that lines
   * 323-324 create, when neither the pdb code nor the chain contains a slash.
   */
  lemma OutputBaseInDirectory(pdb: string, chain: string, j: nat)
    requires '/' !in pdb && '/' !in chain
    ensures var dir := "out/" + pdb + "/";
      && dir <= OutputBase(pdb, chain, j)
      && '/' !in OutputBase(pdb, chain, j)[|dir|..]
  {
    var dir := "out/" + pdb + "/";
    var rest := pdb + [Sep] + chain + [Sep] + NatToDecimal(j);
    assert OutputBase(pdb, chain, j) == dir + rest;
    assert (dir + rest)[|dir|..] == rest;
    assert '/' !in NatToDecimal(j);
  }

  /** The log lines of one entry, one per attempt scoring at least 0, in ascending attempt order. */
  function AcceptedLines<P>(name: Name, attempts: seq<Attempt<P>>): (r: seq<LogLine>)
    ensures |r| == |TopScorers(Scores(attempts))|
  {
    var scores := Scores(attempts);
    var top := TopScorers(scores);
    seq(|top|, t requires 0 <= t < |top| => Accepted(name.receptor, scores[top[t]], name.pid))
  }

  /**
   * Every log line of an entry is an accepted attempt with a score of at
   * least 0, carrying the name's receptor and side label, and every attempt
   * scoring at least 0 has its line.
   */
  lemma AcceptedLinesSound<P>(name: Name, attempts: seq<Attempt<P>>)
    ensures var r := AcceptedLines(name, attempts);
      && (forall t :: 0 <= t < |r| ==>
            r[t].Accepted? && r[t].score >= 0.0 && r[t].ppiPairId == name.receptor && r[t].pid == name.pid)
      && (forall j :: 0 <= j < |attempts| && attempts[j].score >= 0.0 ==>
            Accepted(name.receptor, attempts[j].score, name.pid) in r)
  {
    var scores := Scores(attempts);
    var top := TopScorers(scores);
    var r := AcceptedLines(name, attempts);
    forall t | 0 <= t < |r|
      ensures r[t].Accepted? && r[t].score >= 0.0 && r[t].ppiPairId == name.receptor && r[t].pid == name.pid
    {
      assert top[t] in top;
    }
    forall j | 0 <= j < |attempts| && attempts[j].score >= 0.0
      ensures Accepted(name.receptor, attempts[j].score, name.pid) in r
    {
      assert scores[j] >= 0.0;
      var t :| 0 <= t < |top| && top[t] == j;
      assert r[t] == Accepted(name.receptor, attempts[j].score, name.pid);
    }
  }

  /** The files of one entry, one per attempt scoring at least 0, in ascending attempt order. */
  function WrittenFiles<P>(pdb: string, chain: string, attempts: seq<Attempt<P>>): (r: seq<Written<P>>)
    ensures |r| == |TopScorers(Scores(attempts))|
  {
    var top := TopScorers(Scores(attempts));
    seq(|top|, t requires 0 <= t < |top| => Written(OutputBase(pdb, chain, top[t]), attempts[top[t]].pose))
  }

  /**
   * Every file of an entry belongs to an attempt scoring at least 0 and holds
   * that attempt's pose, every attempt scoring at least 0 has its file, and
   * no two files of the entry share a base name.
   */
  lemma WrittenFilesSound<P>(pdb: string, chain: string, attempts: seq<Attempt<P>>)
    ensures var r := WrittenFiles(pdb, chain, attempts);
      && (forall t :: 0 <= t < |r| ==>
            exists j :: 0 <= j < |attempts| && attempts[j].score >= 0.0
                     && r[t] == Written(OutputBase(pdb, chain, j), attempts[j].pose))
      && (forall j :: 0 <= j < |attempts| && attempts[j].score >= 0.0 ==>
            Written(OutputBase(pdb, chain, j), attempts[j].pose) in r)
      && (forall t, t' :: 0 <= t < t' < |r| ==> r[t].base != r[t'].base)
  {
    var scores := Scores(attempts);
    var top := TopScorers(scores);
    var r := WrittenFiles(pdb, chain, attempts);
    forall t | 0 <= t < |r|
      ensures exists j :: 0 <= j < |attempts| && attempts[j].score >= 0.0
                       && r[t] == Written(OutputBase(pdb, chain, j), attempts[j].pose)
    {
      var j := top[t];
      assert j in top;
      assert scores[j] == attempts[j].score;
      assert 0 <= j < |attempts| && attempts[j].score >= 0.0
          && r[t] == Written(OutputBase(pdb, chain, j), attempts[j].pose);
    }
    assert forall t :: 0 <= t < |r| ==>
      exists j :: 0 <= j < |attempts| && attempts[j].score >= 0.0
               && r[t] == Written(OutputBase(pdb, chain, j), attempts[j].pose);
    forall j | 0 <= j < |attempts| && attempts[j].score >= 0.0
      ensures Written(OutputBase(pdb, chain, j), attempts[j].pose) in r
    {
      assert scores[j] >= 0.0;
      var t :| 0 <= t < |top| && top[t] == j;
      assert r[t] == Written(OutputBase(pdb, chain, j), attempts[j].pose);
    }
    forall t, t' | 0 <= t < t' < |r| ensures r[t].base != r[t'].base {
      if r[t].base == r[t'].base {
        OutputBaseInjective(pdb, chain, top[t], top[t']);
      }
    }
  }

  /**
   * Log line t and file t of an entry come from the same accepted attempt,
   * `top_scorers[t]`, and `top_scorers` is ascending, so an entry's lines and
   * files follow ascending attempt index (the loop at line 315): the line
   * carries the attempt's score and the file its index and pose.
   */
  lemma EntryPairing<P>(name: Name, pdb: string, chain: string, attempts: seq<Attempt<P>>, t: nat)
    requires t < |AcceptedLines(name, attempts)|
    ensures t < |WrittenFiles(pdb, chain, attempts)| && t < |TopScorers(Scores(attempts))|
    ensures StrictlyAscending(TopScorers(Scores(attempts)))
    ensures var j := TopScorers(Scores(attempts))[t];
      && j < |attempts| && attempts[j].score >= 0.0
      && AcceptedLines(name, attempts)[t] == Accepted(name.receptor, attempts[j].score, name.pid)
      && WrittenFiles(pdb, chain, attempts)[t] == Written(OutputBase(pdb, chain, j), attempts[j].pose)
    ensures exists j :: && 0 <= j < |attempts| && attempts[j].score >= 0.0
                        && AcceptedLines(name, attempts)[t] == Accepted(name.receptor, attempts[j].score, name.pid)
                        && WrittenFiles(pdb, chain, attempts)[t] == Written(OutputBase(pdb, chain, j), attempts[j].pose)
  {
    var scores := Scores(attempts);
    var top := TopScorers(scores);
    var j := top[t];
    assert j in top;
    assert scores[j] == attempts[j].score;
    assert AcceptedLines(name, attempts)[t] == Accepted(name.receptor, attempts[j].score, name.pid);
    assert WrittenFiles(pdb, chain, attempts)[t] == Written(OutputBase(pdb, chain, j), attempts[j].pose);
  }

  /** Lines 307-334 for one entry: walk the accepted attempts, logging and writing each. */
  method EmitEntry<P>(name: Name, pdb: string, chain: string, attempts: seq<Attempt<P>>)
    returns (log: seq<LogLine>, written: seq<Written<P>>)
    ensures log == AcceptedLines(name, attempts)
    ensures written == WrittenFiles(pdb, chain, attempts)
  {
    var scores := Scores(attempts);
    var topScorers := TopScorers(scores);
    log, written := [], [];
    if |topScorers| > 0 {
      for t := 0 to |topScorers|
        invariant |log| == t && |written| == t
        invariant forall u :: 0 <= u < t ==>
          log[u] == Accepted(name.receptor, scores[topScorers[u]], name.pid)
          && written[u] == Written(OutputBase(pdb, chain, topScorers[u]), attempts[topScorers[u]].pose)
      {
        var j := topScorers[t];
        log := log + [Accepted(name.receptor, scores[j], name.pid)];
        written := written + [Written(OutputBase(pdb, chain, j), attempts[j].pose)];
      }
    }
  }

  /** What the emission loop has produced: the per-entry scores, the log lines, the files, and whether it ran to the end. */
  datatype Emission<P> = Emission(descScores: seq<seq<real>>, log: seq<LogLine>, written: seq<Written<P>>, completed: bool)

  /**
   * One turn of the emission loop: nothing once the loop has stopped; stop
   * when the key's chain lookup raises; otherwise dock the entry, record its
   * scores, and add its accepted lines and files.
   */
  function EmitOne<P>(e: Emission<P>, key: Name, vix: seq<nat>, dock: (Name, seq<nat>) -> seq<Attempt<P>>): (r: Emission<P>)
    ensures !e.completed ==> r == e
    ensures r.completed <==> e.completed && EmitChain(key.receptor, key.pid).Some?
    ensures |r.descScores| <= |e.descScores| + 1
    ensures |r.log| - |e.log| == |r.written| - |e.written| >= 0
    ensures r.log[..|e.log|] == e.log
  {
    if !e.completed then e
    else
      match EmitChain(key.receptor, key.pid)
      case None => Emission(e.descScores, e.log, e.written, false)
      case Some(pc) =>
        var attempts := dock(key, vix);
        Emission(e.descScores + [Scores(attempts)], e.log + AcceptedLines(key, attempts),
                 e.written + WrittenFiles(pc.0, pc.1, attempts), true)
  }

  /** The lines one turn adds are accepted attempts of the key's receptor with a score of at least 0. */
  lemma EmitOneLines<P>(e: Emission<P>, key: Name, vix: seq<nat>, dock: (Name, seq<nat>) -> seq<Attempt<P>>)
    ensures var r := EmitOne(e, key, vix, dock);
      forall t :: |e.log| <= t < |r.log| ==>
        r.log[t].Accepted? && r.log[t].score >= 0.0 && r.log[t].ppiPairId == key.receptor
  {
    var r := EmitOne(e, key, vix, dock);
    if e.completed && EmitChain(key.receptor, key.pid).Some? {
      var attempts := dock(key, vix);
      var lines := AcceptedLines(key, attempts);
      AcceptedLinesSound(key, attempts);
      assert r.log == e.log + lines;
      forall t | |e.log| <= t < |r.log|
        ensures r.log[t].Accepted? && r.log[t].score >= 0.0 && r.log[t].ppiPairId == key.receptor
      {
        assert r.log[t] == lines[t - |e.log|];
      }
    }
  }

  /**
   * The emission loop over the dictionary's keys. `dock` stands for the
   * docking step (`multidock` and the loads before it), returning the
   * attempts for an entry and its matched indices. The loop stops at the
   * first key whose chain lookup raises; before that every log line is an
   * accepted attempt with a score of at least 0, paired with one file.
   */
  function EmitSpec<P>(keys: seq<Name>, dict: map<Name, seq<nat>>, dock: (Name, seq<nat>) -> seq<Attempt<P>>): (e: Emission<P>)
    requires forall k :: k in keys ==> k in dict
    ensures |e.log| == |e.written| && |e.descScores| <= |keys|
  {
    if |keys| == 0 then Emission([], [], [], true)
    else
      var n := |keys| - 1;
      EmitOne(EmitSpec(keys[..n], dict, dock), keys[n], dict[keys[n]], dock)
  }

  /** Every line is an accepted attempt with a score of at least 0. */
  predicate AllAccepted(log: seq<LogLine>) {
    forall t :: 0 <= t < |log| ==> log[t].Accepted? && log[t].score >= 0.0
  }

  /** Every log line the loop writes is an accepted attempt with a score of at least 0. */
  lemma {:induction false} EmitSpecLines<P>(keys: seq<Name>, dict: map<Name, seq<nat>>,
                                            dock: (Name, seq<nat>) -> seq<Attempt<P>>)
    requires forall k :: k in keys ==> k in dict
    ensures AllAccepted(EmitSpec(keys, dict, dock).log)
  {
    if |keys| > 0 {
      var n := |keys| - 1;
      var e := EmitSpec(keys[..n], dict, dock);
      EmitSpecLines(keys[..n], dict, dock);
      EmitOneLines(e, keys[n], dict[keys[n]], dock);
      var r := EmitSpec(keys, dict, dock);
      assert r == EmitOne(e, keys[n], dict[keys[n]], dock);
      forall t | 0 <= t < |r.log| ensures r.log[t].Accepted? && r.log[t].score >= 0.0 {
        if t < |e.log| {
          assert r.log[..|e.log|][t] == e.log[t];
          assert AllAccepted(e.log);
        }
      }
    }
  }

  /** The key's chain lookup does not raise. */
  predicate Emittable(k: Name) {
    EmitChain(k.receptor, k.pid).Some?
  }

  /** No key's chain lookup raises. */
  predicate AllEmittable(keys: seq<Name>) {
    forall k :: k in keys ==> Emittable(k)
  }

  /** The loop runs to the end exactly when no key's chain lookup raises. */
  lemma {:induction false} EmitCompletes<P>(keys: seq<Name>, dict: map<Name, seq<nat>>,
                                            dock: (Name, seq<nat>) -> seq<Attempt<P>>)
    requires forall k :: k in keys ==> k in dict
    ensures EmitSpec(keys, dict, dock).completed <==> AllEmittable(keys)
  {
    if |keys| > 0 {
      var n := |keys| - 1;
      assert forall k :: k in keys[..n] ==> k in keys;
      EmitCompletes(keys[..n], dict, dock);
      var e := EmitSpec(keys[..n], dict, dock);
      assert EmitSpec(keys, dict, dock) == EmitOne(e, keys[n], dict[keys[n]], dock);
      assert EmitSpec(keys, dict, dock).completed <==> e.completed && Emittable(keys[n]);
      assert keys == keys[..n] + [keys[n]];
      if AllEmittable(keys) {
        forall k | k in keys[..n] ensures Emittable(k) {
          assert k in keys;
        }
        assert keys[n] in keys;
      }
      if AllEmittable(keys[..n]) && Emittable(keys[n]) {
        forall k | k in keys ensures Emittable(k) {
          assert k in keys[..n] || k == keys[n];
        }
      }
    }
  }

  /** Once a key's chain lookup has raised, later keys change nothing. */
  lemma {:induction false} EmitStopped<P>(keys: seq<Name>, dict: map<Name, seq<nat>>,
                                          dock: (Name, seq<nat>) -> seq<Attempt<P>>, m: nat)
    requires m <= |keys| && forall k :: k in keys ==> k in dict
    requires !EmitSpec(keys[..m], dict, dock).completed
    ensures EmitSpec(keys, dict, dock) == EmitSpec(keys[..m], dict, dock)
  {
    if m < |keys| {
      var n := |keys| - 1;
      assert keys[..n][..m] == keys[..m];
      assert forall k :: k in keys[..n] ==> k in keys;
      EmitStopped(keys[..n], dict, dock, m);
      assert EmitSpec(keys, dict, dock) == EmitOne(EmitSpec(keys[..n], dict, dock), keys[n], dict[keys[n]], dock);
    } else {
      assert keys[..m] == keys;
    }
  }

  /** One more key advances the emission by one turn. */
  lemma EmitSpecStep<P>(keys: seq<Name>, dict: map<Name, seq<nat>>,
                        dock: (Name, seq<nat>) -> seq<Attempt<P>>, i: nat, e: Emission<P>)
    requires i < |keys| && forall k :: k in keys ==> k in dict
    requires e == EmitSpec(keys[..i], dict, dock)
    ensures keys[i] in dict
    ensures EmitSpec(keys[..i + 1], dict, dock) == EmitOne(e, keys[i], dict[keys[i]], dock)
  {
    assert keys[..i + 1][..i] == keys[..i];
    assert keys[..i + 1][i] == keys[i];
  }

  /**
   * Lines 256-334 for one key: derive the pdb code and chain from the key
   * (failing where the source's indexing raises), dock the entry, and log
   * and write its accepted attempts.
   */
  method EmitKey<P>(name: Name, sourceVix: seq<nat>, dock: (Name, seq<nat>) -> seq<Attempt<P>>)
    returns (scores: seq<real>, entryLog: seq<LogLine>, entryWritten: seq<Written<P>>, ok: bool)
    ensures ok <==> EmitChain(name.receptor, name.pid).Some?
    ensures ok ==> && scores == Scores(dock(name, sourceVix))
                   && entryLog == AcceptedLines(name, dock(name, sourceVix))
                   && entryWritten == WrittenFiles(EmitChain(name.receptor, name.pid).value.0,
                                                   EmitChain(name.receptor, name.pid).value.1,
                                                   dock(name, sourceVix))
  {
    var ppiPairId := name.receptor;
    var pid := name.pid;
    var fields := Split(ppiPairId, Sep);
    var pdb := fields[0];
    var chain;
    scores, entryLog, entryWritten := [], [], [];
    if pid == "p1" {
      if |fields| < 2 {
        return scores, entryLog, entryWritten, false;
      }
      chain := fields[1];
    } else {
      if |fields| < 3 {
        return scores, entryLog, entryWritten, false;
      }
      chain := fields[2];
    }
    var attempts := dock(name, sourceVix);
    scores := Scores(attempts);
    entryLog, entryWritten := EmitEntry(name, pdb, chain, attempts);
    ok := true;
  }

  /** Lines 253-334: the loop over `matched_dict.keys()`. */
  method EmitMatches<P>(keys: seq<Name>, matchedDict: map<Name, seq<nat>>, dock: (Name, seq<nat>) -> seq<Attempt<P>>)
    returns (descScores: seq<seq<real>>, log: seq<LogLine>, written: seq<Written<P>>, completed: bool)
    requires forall k :: k in keys ==> k in matchedDict
    ensures Emission(descScores, log, written, completed) == EmitSpec(keys, matchedDict, dock)
  {
    descScores, log, written, completed := [], [], [], true;
    var i := 0;
    while i < |keys|
      invariant 0 <= i <= |keys| && completed
      invariant Emission(descScores, log, written, completed) == EmitSpec(keys[..i], matchedDict, dock)
    {
      var name := keys[i];
      ghost var before := Emission(descScores, log, written, completed);
      EmitSpecStep(keys, matchedDict, dock, i, before);
      var scores, entryLog, entryWritten, ok := EmitKey(name, matchedDict[name], dock);
      if !ok {
        completed := false;
        EmitStopped(keys, matchedDict, dock, i + 1);
        return;
      }
      descScores := descScores + [scores];
      log := log + entryLog;
      written := written + entryWritten;
      i := i + 1;
    }
    assert keys[..|keys|] == keys;
  }
}
