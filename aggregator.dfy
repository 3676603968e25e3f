/**
 * The candidate aggregator: the per-entry blocks are concatenated
 * (`np.concatenate`) and the matches grouped into `matched_dict`, a
 * dictionary from entry name to the list of its matched point indices.
 * Python dictionaries iterate in insertion order, so the dictionary is
 * modelled as its key order together with a map.
 */
module Aggregator {
  import opened Indices
  import opened CandidateFilter

  // ---------------------------------------------------------------------
  // Concatenation

  /** `np.concatenate(blocks, axis=0)` of 1-D blocks; `[]` for no blocks, where numpy raises (see `Pipeline.Run`). */
  function Concat<T>(blocks: seq<seq<T>>): seq<T> {
    if |blocks| == 0 then [] else Concat(blocks[..|blocks| - 1]) + blocks[|blocks| - 1]
  }

  /** Block lists whose blocks pair up in length concatenate to equal lengths. */
  lemma {:induction false} ConcatAligned<S, T>(a: seq<seq<S>>, b: seq<seq<T>>)
    requires |a| == |b|
    requires forall k :: 0 <= k < |a| ==> |a[k]| == |b[k]|
    ensures |Concat(a)| == |Concat(b)|
  {
    if |a| > 0 {
      ConcatAligned(a[..|a| - 1], b[..|b| - 1]);
    }
  }

  /** Every element of a concatenation comes from one of the blocks. */
  lemma {:induction false} ConcatMember<T>(blocks: seq<seq<T>>, x: T)
    requires x in Concat(blocks)
    ensures exists k, t :: 0 <= k < |blocks| && 0 <= t < |blocks[k]| && blocks[k][t] == x
  {
    var n := |blocks| - 1;
    if x in Concat(blocks[..n]) {
      ConcatMember(blocks[..n], x);
      var k, t :| 0 <= k < n && 0 <= t < |blocks[..n][k]| && blocks[..n][k][t] == x;
      assert blocks[k][t] == x;
    } else {
      var t :| 0 <= t < |blocks[n]| && blocks[n][t] == x;
    }
  }

  /** Concatenation distributes over joining two block lists. */
  lemma {:induction false} ConcatAppend<T>(a: seq<seq<T>>, b: seq<seq<T>>)
    ensures Concat(a + b) == Concat(a) + Concat(b)
  {
    if |b| == 0 {
      assert a + b == a;
    } else {
      var n := |b| - 1;
      assert (a + b)[..|a + b| - 1] == a + b[..n];
      ConcatAppend(a, b[..n]);
    }
  }

  /** Every element of every block is in the concatenation. */
  lemma ConcatContains<T>(blocks: seq<seq<T>>, k: nat, t: nat)
    requires k < |blocks| && t < |blocks[k]|
    ensures blocks[k][t] in Concat(blocks)
  {
    assert blocks == blocks[..k] + [blocks[k]] + blocks[k + 1..];
    ConcatAppend(blocks[..k] + [blocks[k]], blocks[k + 1..]);
    ConcatAppend(blocks[..k], [blocks[k]]);
    assert Concat([blocks[k]]) == blocks[k] by {
      assert [blocks[k]][..0] == [];
    }
  }

  // ---------------------------------------------------------------------
  // Grouping

  /** The indices matched for `key`, in the order the matches come. */
  function MatchesOf(names: seq<Name>, vix: seq<nat>, key: Name): seq<nat>
    requires |names| <= |vix|
  {
    if |names| == 0 then []
    else
      var n := |names| - 1;
      MatchesOf(names[..n], vix, key) + (if names[n] == key then [vix[n]] else [])
  }

  /** The distinct names in order of first occurrence: the dictionary's key order. */
  function FirstOccurrences(names: seq<Name>): (keys: seq<Name>)
    ensures forall i, j :: 0 <= i < j < |keys| ==> keys[i] != keys[j]
    ensures forall k :: k in keys <==> k in names
  {
    if |names| == 0 then []
    else
      var n := |names| - 1;
      var keys := FirstOccurrences(names[..n]);
      assert forall k :: k in names <==> k in names[..n] || k == names[n] by {
        assert names == names[..n] + [names[n]];
      }
      if names[n] in keys then keys else keys + [names[n]]
  }

  /** The dictionary's contents: every name maps to its matched indices. */
  function Grouped(names: seq<Name>, vix: seq<nat>): map<Name, seq<nat>>
    requires |names| <= |vix|
  {
    map k | k in names :: MatchesOf(names, vix, k)
  }

  /** Position of the first occurrence of `key`. */
  function FirstIndex(names: seq<Name>, key: Name): (i: nat)
    requires key in names
    ensures i < |names| && names[i] == key
    ensures forall j :: 0 <= j < i ==> names[j] != key
  {
    var n := |names| - 1;
    if key in names[..n] then FirstIndex(names[..n], key) else n
  }

  lemma FirstIndexPrefix(names: seq<Name>, n: nat, key: Name)
    requires n <= |names| && key in names[..n]
    ensures FirstIndex(names, key) == FirstIndex(names[..n], key)
  {
    var i, i' := FirstIndex(names, key), FirstIndex(names[..n], key);
    assert names[i'] == key;
    assert i <= i';
    assert names[..n][i] == key;
  }

  /** `keys` are listed in the order in which they first occur in `names`. */
  predicate FirstOccurrenceOrdered(names: seq<Name>, keys: seq<Name>)
    requires forall k :: k in keys ==> k in names
  {
    forall i, j :: 0 <= i < j < |keys| ==> FirstIndex(names, keys[i]) < FirstIndex(names, keys[j])
  }

  lemma OrderedInLonger(names: seq<Name>, n: nat, keys: seq<Name>)
    requires n <= |names|
    requires forall k :: k in keys ==> k in names[..n]
    requires FirstOccurrenceOrdered(names[..n], keys)
    ensures forall k :: k in keys ==> k in names && FirstIndex(names, k) < n
    ensures FirstOccurrenceOrdered(names, keys)
  {
    forall k | k in keys ensures k in names && FirstIndex(names, k) == FirstIndex(names[..n], k) {
      FirstIndexPrefix(names, n, k);
    }
    forall i, j | 0 <= i < j < |keys| ensures FirstIndex(names, keys[i]) < FirstIndex(names, keys[j]) {
      assert keys[i] in keys && keys[j] in keys;
    }
  }

  lemma OrderedExtend(names: seq<Name>, keys: seq<Name>, x: Name)
    requires x in names && forall k :: k in keys ==> k in names
    requires FirstOccurrenceOrdered(names, keys)
    requires forall k :: k in keys ==> FirstIndex(names, k) < FirstIndex(names, x)
    ensures FirstOccurrenceOrdered(names, keys + [x])
  {
    var keys' := keys + [x];
    forall k | k in keys' ensures k in names {
      if k != x {
        assert k in keys;
      }
    }
    forall i, j | 0 <= i < j < |keys'| ensures FirstIndex(names, keys'[i]) < FirstIndex(names, keys'[j]) {
      var a := keys[i];
      assert keys'[i] == a;
      if j < |keys| {
        assert keys'[j] == keys[j];
      } else {
        assert keys'[j] == x;
        assert a in keys;
      }
    }
  }

  /** The keys come in the order in which their names first occur. */
  lemma {:induction false} KeysInFirstOccurrenceOrder(names: seq<Name>)
    ensures FirstOccurrenceOrdered(names, FirstOccurrences(names))
  {
    if |names| > 0 {
      var n := |names| - 1;
      var prefix := names[..n];
      KeysInFirstOccurrenceOrder(prefix);
      var oldKeys := FirstOccurrences(prefix);
      OrderedInLonger(names, n, oldKeys);
      if names[n] !in oldKeys {
        assert names[n] !in prefix;
        assert FirstIndex(names, names[n]) == n;
        OrderedExtend(names, oldKeys, names[n]);
      }
    }
  }

  /** The indices of a name, picked from the match positions that carry it. */
  function Positions(names: seq<Name>, key: Name): seq<nat> {
    Where(seq(|names|, i requires 0 <= i < |names| => names[i] == key))
  }

  function Pick(vix: seq<nat>, at: seq<nat>): seq<nat>
    requires forall t :: 0 <= t < |at| ==> at[t] < |vix|
  {
    seq(|at|, t requires 0 <= t < |at| => vix[at[t]])
  }

  /**
   * Each value list keeps the matched indices in input order: it is the
   * matched indices read at the (ascending) positions where the name occurs.
   */
  lemma {:induction false} MatchesInInputOrder(names: seq<Name>, vix: seq<nat>, key: Name)
    requires |names| <= |vix|
    ensures MatchesOf(names, vix, key) == Pick(vix, Positions(names, key))
  {
    if |names| > 0 {
      var n := |names| - 1;
      MatchesInInputOrder(names[..n], vix, key);
      var mask := seq(|names|, i requires 0 <= i < |names| => names[i] == key);
      var prefixMask := seq(n, i requires 0 <= i < n => names[..n][i] == key);
      assert mask[..n] == prefixMask;
      assert Positions(names, key) == Positions(names[..n], key) + (if names[n] == key then [n] else []);
    }
  }

  /** Sum of the value lengths over `keys`. */
  function SumLengths(keys: seq<Name>, dict: map<Name, seq<nat>>): nat
    requires forall k :: k in keys ==> k in dict
  {
    if |keys| == 0 then 0
    else
      var n := |keys| - 1;
      SumLengths(keys[..n], dict) + |dict[keys[n]]|
  }

  /** Sum over `keys` of the number of matches each has among the first `m` names. */
  function SumMatches(keys: seq<Name>, names: seq<Name>, vix: seq<nat>): nat
    requires |names| <= |vix|
  {
    if |keys| == 0 then 0
    else
      var n := |keys| - 1;
      SumMatches(keys[..n], names, vix) + |MatchesOf(names, vix, keys[n])|
  }

  lemma {:induction false} SumMatchesStep(keys: seq<Name>, names: seq<Name>, vix: seq<nat>, m: nat)
    requires m < |names| <= |vix|
    requires forall i, j :: 0 <= i < j < |keys| ==> keys[i] != keys[j]
    ensures SumMatches(keys, names[..m + 1], vix)
         == SumMatches(keys, names[..m], vix) + (if names[m] in keys then 1 else 0)
  {
    assert names[..m + 1][..m] == names[..m];
    if |keys| > 0 {
      var n := |keys| - 1;
      SumMatchesStep(keys[..n], names, vix, m);
      assert keys == keys[..n] + [keys[n]];
      assert names[m] in keys <==> names[m] in keys[..n] || names[m] == keys[n];
      assert names[m] in keys[..n] ==> names[m] != keys[n];
    }
  }

  lemma {:induction false} NoMatchesOfAbsent(names: seq<Name>, vix: seq<nat>, key: Name)
    requires |names| <= |vix| && key !in names
    ensures MatchesOf(names, vix, key) == []
  {
    if |names| > 0 {
      var n := |names| - 1;
      assert key !in names[..n];
      NoMatchesOfAbsent(names[..n], vix, key);
    }
  }

  lemma {:induction false} SumMatchesGrouped(keys: seq<Name>, names: seq<Name>, vix: seq<nat>)
    requires |names| <= |vix|
    requires forall k :: k in keys ==> k in names
    ensures SumLengths(keys, Grouped(names, vix)) == SumMatches(keys, names, vix)
  {
    if |keys| > 0 {
      SumMatchesGrouped(keys[..|keys| - 1], names, vix);
    }
  }

  lemma {:induction false} SumOfPrefix(names: seq<Name>, vix: seq<nat>, m: nat)
    requires m <= |names| <= |vix|
    ensures SumMatches(FirstOccurrences(names[..m]), names[..m], vix) == m
  {
    if m > 0 {
      var p := m - 1;
      SumOfPrefix(names, vix, p);
      var keys := FirstOccurrences(names[..p]);
      var x := names[p];
      assert names[..m][..p] == names[..p];
      SumMatchesStep(keys, names, vix, p);
      if x !in keys {
        var keys' := keys + [x];
        assert FirstOccurrences(names[..m]) == keys';
        assert keys'[..|keys|] == keys;
        SumMatchesStep(keys, names, vix, p);
        NoMatchesOfAbsent(names[..p], vix, x);
        assert MatchesOf(names[..m], vix, x) == MatchesOf(names[..p], vix, x) + [vix[p]];
      }
    }
  }

  /** The value lengths of the dictionary sum to the number of matches. */
  lemma GroupSizes(names: seq<Name>, vix: seq<nat>)
    requires |names| <= |vix|
    ensures SumLengths(FirstOccurrences(names), Grouped(names, vix)) == |names|
  {
    SumMatchesGrouped(FirstOccurrences(names), names, vix);
    SumOfPrefix(names, vix, |names|);
    assert names[..|names|] == names;
  }

  /** A dictionary with the same names whose every list is that name's matches is the grouping. */
  lemma GroupedIs(names: seq<Name>, vix: seq<nat>, dict: map<Name, seq<nat>>)
    requires |names| <= |vix|
    requires forall k :: k in dict <==> k in names
    requires forall k :: k in dict ==> MatchesOf(names, vix, k) == dict[k]
    ensures Grouped(names, vix) == dict
  {
    var g := Grouped(names, vix);
    assert g.Keys == dict.Keys;
    forall k | k in g ensures g[k] == dict[k] {
    }
  }

  /** One more match adds its index to the end of its name's list, creating the list if new. */
  lemma GroupedStep(names: seq<Name>, vix: seq<nat>, m: nat)
    requires m < |names| <= |vix|
    ensures var before := Grouped(names[..m], vix);
      Grouped(names[..m + 1], vix)
      == before[names[m] := (if names[m] in before then before[names[m]] else []) + [vix[m]]]
  {
    var prefix, x := names[..m], names[m];
    var before := Grouped(prefix, vix);
    var longer := names[..m + 1];
    assert longer == prefix + [x];
    assert longer[..m] == prefix;
    if x !in prefix {
      NoMatchesOfAbsent(prefix, vix, x);
    }
    var expected := before[x := (if x in before then before[x] else []) + [vix[m]]];
    forall k ensures k in expected <==> k in longer {
      assert k in longer <==> k in prefix || k == x;
    }
    forall k | k in expected ensures MatchesOf(longer, vix, k) == expected[k] {
      assert MatchesOf(longer, vix, k) == MatchesOf(prefix, vix, k) + (if x == k then [vix[m]] else []);
    }
    GroupedIs(longer, vix, expected);
  }

  // ---------------------------------------------------------------------
  // Regrouping the flattened dictionary

  /** The dictionary flattened back into match names, key by key in key order. */
  function FlatNames(keys: seq<Name>, dict: map<Name, seq<nat>>): (r: seq<Name>)
    requires forall k :: k in keys ==> k in dict
    ensures |r| == SumLengths(keys, dict)
  {
    if |keys| == 0 then []
    else
      var n := |keys| - 1;
      FlatNames(keys[..n], dict) + Repeat(keys[n], |dict[keys[n]]|)
  }

  /** The dictionary flattened back into matched indices, aligned with `FlatNames`. */
  function FlatVix(keys: seq<Name>, dict: map<Name, seq<nat>>): (r: seq<nat>)
    requires forall k :: k in keys ==> k in dict
    ensures |r| == SumLengths(keys, dict)
  {
    if |keys| == 0 then []
    else
      var n := |keys| - 1;
      FlatVix(keys[..n], dict) + dict[keys[n]]
  }

  /** Indices beyond the names do not change a name's matches. */
  lemma {:induction false} MatchesOfLongerVix(names: seq<Name>, vix: seq<nat>, more: seq<nat>, key: Name)
    requires |names| <= |vix|
    ensures MatchesOf(names, vix + more, key) == MatchesOf(names, vix, key)
  {
    if |names| > 0 {
      var n := |names| - 1;
      MatchesOfLongerVix(names[..n], vix, more, key);
      assert (vix + more)[n] == vix[n];
    }
  }

  /** The matches of two runs of names laid end to end are those of the first run, then those of the second. */
  lemma {:induction false} MatchesOfAppend(a: seq<Name>, va: seq<nat>, b: seq<Name>, vb: seq<nat>, key: Name)
    requires |a| == |va| && |b| <= |vb|
    ensures MatchesOf(a + b, va + vb, key) == MatchesOf(a, va, key) + MatchesOf(b, vb, key)
  {
    if |b| == 0 {
      assert a + b == a;
      MatchesOfLongerVix(a, va, vb, key);
    } else {
      var n := |b| - 1;
      MatchesOfAppend(a, va, b[..n], vb, key);
      assert (a + b)[..|a| + n] == a + b[..n];
      assert (a + b)[|a| + n] == b[n];
      assert (va + vb)[|a| + n] == vb[n];
    }
  }

  /** The matches of a run of one name are all of its indices for that name and none for any other. */
  lemma {:induction false} MatchesOfRepeat(k: Name, vs: seq<nat>, key: Name)
    ensures MatchesOf(Repeat(k, |vs|), vs, key) == if key == k then vs else []
  {
    if |vs| > 0 {
      var n := |vs| - 1;
      assert Repeat(k, |vs|)[..n] == Repeat(k, n);
      MatchesOfLongerVix(Repeat(k, n), vs[..n], [vs[n]], key);
      assert vs[..n] + [vs[n]] == vs;
      MatchesOfRepeat(k, vs[..n], key);
    }
  }

  /** A run of a new name adds that name, once, at the end of the key order. */
  lemma {:induction false} FirstOccurrencesRepeat(a: seq<Name>, k: Name, m: nat)
    requires k !in a && m > 0
    ensures FirstOccurrences(a + Repeat(k, m)) == FirstOccurrences(a) + [k]
  {
    var r := a + Repeat(k, m);
    assert r[..|r| - 1] == a + Repeat(k, m - 1);
    assert r[|r| - 1] == k;
    if m > 1 {
      FirstOccurrencesRepeat(a, k, m - 1);
      assert k in FirstOccurrences(a) + [k];
    } else {
      assert a + Repeat(k, 0) == a;
    }
  }

  /** Keys listed once each, every one in the dictionary with a non-empty list. */
  predicate KeyOrder(keys: seq<Name>, dict: map<Name, seq<nat>>) {
    && (forall i, j :: 0 <= i < j < |keys| ==> keys[i] != keys[j])
    && (forall k :: k in keys ==> k in dict && |dict[k]| > 0)
  }

  /** Regrouping the flattened matches gives back every key's list. */
  predicate Regroups(keys: seq<Name>, dict: map<Name, seq<nat>>)
    requires forall k :: k in keys ==> k in dict
  {
    var names, vix := FlatNames(keys, dict), FlatVix(keys, dict);
    && FirstOccurrences(names) == keys
    && forall k :: k in keys ==> MatchesOf(names, vix, k) == dict[k]
  }

  /** Flattening a dictionary and grouping again restores its key order and every list. */
  lemma {:induction false} FlattenRegroups(keys: seq<Name>, dict: map<Name, seq<nat>>)
    requires KeyOrder(keys, dict)
    ensures Regroups(keys, dict)
  {
    if |keys| > 0 {
      var n := |keys| - 1;
      var prefix, k := keys[..n], keys[n];
      assert keys == prefix + [k];
      assert KeyOrder(prefix, dict);
      FlattenRegroups(prefix, dict);
      var names', vix' := FlatNames(prefix, dict), FlatVix(prefix, dict);
      var run := Repeat(k, |dict[k]|);
      assert FlatNames(keys, dict) == names' + run;
      assert FlatVix(keys, dict) == vix' + dict[k];
      assert k !in prefix;
      assert k !in names';
      FirstOccurrencesRepeat(names', k, |dict[k]|);
      forall key | key in keys ensures MatchesOf(names' + run, vix' + dict[k], key) == dict[key] {
        MatchesOfAppend(names', vix', run, dict[k], key);
        MatchesOfRepeat(k, dict[k], key);
        if key == k {
          NoMatchesOfAbsent(names', vix', k);
        } else {
          assert key in prefix;
        }
      }
    }
  }

  /** Every name of the matches has at least one index in the dictionary. */
  lemma {:induction false} MatchesOfPresent(names: seq<Name>, vix: seq<nat>, key: Name)
    requires |names| <= |vix| && key in names
    ensures |MatchesOf(names, vix, key)| > 0
  {
    var n := |names| - 1;
    if names[n] != key {
      assert key in names[..n];
      MatchesOfPresent(names[..n], vix, key);
    }
  }

  /**
   * The dictionary after lines 247-251: its keys are exactly the matched
   * names, and each holds a non-empty list, namely the indices matched at the
   * positions where that name occurs, in input order.
   */
  lemma GroupedContents(names: seq<Name>, vix: seq<nat>)
    requires |names| <= |vix|
    ensures forall k :: k in Grouped(names, vix) <==> k in names
    ensures forall k :: k in Grouped(names, vix) ==>
      |Grouped(names, vix)[k]| > 0 && Grouped(names, vix)[k] == Pick(vix, Positions(names, k))
  {
    forall k | k in names
      ensures |MatchesOf(names, vix, k)| > 0 && MatchesOf(names, vix, k) == Pick(vix, Positions(names, k))
    {
      MatchesOfPresent(names, vix, k);
      MatchesInInputOrder(names, vix, k);
    }
  }

  /**
   * The grouping is idempotent: flattening the dictionary in key order and
   * grouping the result again gives the same key order and the same dictionary.
   */
  lemma RegroupIdempotent(names: seq<Name>, vix: seq<nat>)
    requires |names| <= |vix|
    ensures var keys, dict := FirstOccurrences(names), Grouped(names, vix);
      var names', vix' := FlatNames(keys, dict), FlatVix(keys, dict);
      && FirstOccurrences(names') == keys
      && Grouped(names', vix') == dict
  {
    var keys, dict := FirstOccurrences(names), Grouped(names, vix);
    forall k | k in keys ensures k in dict && |dict[k]| > 0 {
      MatchesOfPresent(names, vix, k);
    }
    assert KeyOrder(keys, dict);
    FlattenRegroups(keys, dict);
    var names', vix' := FlatNames(keys, dict), FlatVix(keys, dict);
    assert FirstOccurrences(names') == keys;
    assert forall k :: k in keys ==> MatchesOf(names', vix', k) == dict[k];
    GroupedIs(names', vix', dict);
  }

  /**
   * The grouping loop of `matched_dict`: insert-or-append for each match in
   * order. `keys` is the dictionary's insertion order.
   */
  method GroupMatches(matchedNames: seq<Name>, matchedVix: seq<nat>)
    returns (keys: seq<Name>, matchedDict: map<Name, seq<nat>>)
    requires |matchedNames| <= |matchedVix|
    ensures keys == FirstOccurrences(matchedNames)
    ensures matchedDict == Grouped(matchedNames, matchedVix)
  {
    keys, matchedDict := [], map[];
    for nameIx := 0 to |matchedNames|
      invariant keys == FirstOccurrences(matchedNames[..nameIx])
      invariant matchedDict == Grouped(matchedNames[..nameIx], matchedVix)
    {
      var name := matchedNames[nameIx];
      GroupedStep(matchedNames, matchedVix, nameIx);
      assert matchedNames[..nameIx + 1][..nameIx] == matchedNames[..nameIx];
      if name !in matchedDict {
        matchedDict := matchedDict[name := []];
        keys := keys + [name];
      }
      matchedDict := matchedDict[name := matchedDict[name] + [matchedVix[nameIx]]];
    }
    assert matchedNames[..|matchedNames|] == matchedNames;
  }
}
