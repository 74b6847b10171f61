/** How large a sysparam table is, in bytes and in ids: what compaction leaves of a log is the size of
    the table it stands for, so a set is refused exactly when the new table does not fit. */
module SysparamSize {
  import opened Flash
  import opened SysparamLog
  import opened SysparamTable
  import opened SysparamCompact
  import opened SysparamScan
  import opened SysparamSet

  type Table = map<Image, Value>

  /** The log stands for this finite map. */
  ghost predicate Reads(log: Log, m: Table) {
    forall k :: Get(log, k) == if k in m then Some(m[k]) else None
  }

  function PairSize(key: Image, v: Value): nat { EntrySize(|key|) + EntrySize(|v.data|) }

  ghost function Sum(m: Table): nat {
    if m == map[] then 0
    else
      var k :| k in m;
      PairSize(k, m[k]) + Sum(m - {k})
  }

  ghost function Size0(level: nat, m: Table): nat { if level == 0 then Sum(m) else Size0(level - 1, m) }

  /** The bytes that the entries of a table take. */
  ghost function Size(m: Table): nat { Size0(2, m) }

  lemma {:induction false} SumTake(m: Table, k: Image)
    requires k in m
    ensures Sum(m) == PairSize(k, m[k]) + Sum(m - {k})
    decreases |m|
  {
    var x :| x in m && Sum(m) == PairSize(x, m[x]) + Sum(m - {x});
    if x != k {
      SumTake(m - {x}, k);
      SumTake(m - {k}, x);
      assert m - {x} - {k} == m - {k} - {x};
    }
  }

  lemma {:induction false} SizeIs(m: Table)
    ensures Size(m) == Sum(m)
  {
    assert Size0(1, m) == Size0(0, m);
  }

  lemma {:induction false} SizeTake(m: Table, k: Image)
    requires k in m
    ensures Size(m) == PairSize(k, m[k]) + Size(m - {k})
  {
    SizeIs(m);
    SizeIs(m - {k});
    SumTake(m, k);
  }

  lemma {:induction false} SizeSet(m: Table, k: Image, v: Value)
    ensures Size(m[k := v]) == PairSize(k, v) + Size(m - {k})
  {
    SizeTake(m[k := v], k);
    assert m[k := v] - {k} == m - {k};
  }

  // ------------------------------------------------------- pairs and the table

  /** The pairs are those of the table. */
  ghost predicate Lists(ps: seq<Pair>, m: Table) {
    && (forall t :: 0 <= t < |ps| ==> ps[t].key in m && m[ps[t].key] == ps[t].value)
    && (forall k :: k in m ==> !Absent(ps, k))
  }

  lemma {:induction false} ListsSize(ps: seq<Pair>, m: Table)
    requires Distinct(ps) && Lists(ps, m)
    ensures Size(m) == PairKeySpace(ps) + PairValueWeight(ps, false) && |m| == |ps|
    decreases |ps|
  {
    if ps == [] {
      assert forall k :: k in m ==> !Absent(ps, k);
      assert m == map[];
      SizeIs(m);
    } else {
      var front, last := ps[..|ps| - 1], ps[|ps| - 1];
      ListsLess(ps, m);
      ListsSize(front, m - {last.key});
      SizeTake(m, last.key);
      assert (m - {last.key}).Keys == m.Keys - {last.key};
    }
  }

  lemma {:induction false} ListsLess(ps: seq<Pair>, m: Table)
    requires ps != [] && Distinct(ps) && Lists(ps, m)
    ensures Lists(ps[..|ps| - 1], m - {ps[|ps| - 1].key})
  {
    var front, last := ps[..|ps| - 1], ps[|ps| - 1];
    forall k | k in m - {last.key} ensures !Absent(front, k) {
      assert !Absent(ps, k);
      var t :| 0 <= t < |ps| && ps[t].key == k;
      assert front[t].key == k;
    }
  }

  lemma {:induction false} LogLists(log: Log, m: Table)
    requires Clean(log) && Reads(log, m)
    ensures Lists(Pairs(log, |log|), m)
  {
    var ps := Pairs(log, |log|);
    PairsSound(log, |log|);
    forall t | 0 <= t < |ps| ensures ps[t].key in m && m[ps[t].key] == ps[t].value {
      assert FromLog(log, |log|, ps[t], t);
      var q :| 0 <= q < |log| && Used?(log, q) && ps[t] == PairAt(log, q);
      GetIs(log, q, ValAt(log, log[q].id, q + 1));
    }
    forall k | k in m ensures !Absent(ps, k) {
      var i := KeyAt(log, k, 0);
      assert Get(log, k) == Some(m[k]);
      var t := PairsComplete(log, |log|, i);
      assert ps[t].key == k;
    }
  }

  /** Space of the value left out, when there is one. */
  lemma {:induction false} LeftOutIs(ps: seq<Pair>, kid: int, t: nat)
    requires Distinct(ps) && t <= |ps|
    requires if t < |ps| then ps[t].id == kid else forall i :: 0 <= i < |ps| ==> ps[i].id != kid
    ensures LeftOut(ps, kid) == if t < |ps| then EntrySize(|ps[t].value.data|) else 0
  {
    if ps != [] {
      var n := |ps| - 1;
      LeftOutIs(ps[..n], kid, if t < n then t else n);
    }
  }

  /** What is left out when compacting for a set of `key`. */
  lemma {:induction false} LeavesOut(log: Log, key: Image)
    requires Clean(log)
    ensures var j := ValueIndex(log, key);
            LeftOut(Pairs(log, |log|), KeyIdOf(log, key)) == if j < |log| then log[j].Space() else 0
  {
    var ps := Pairs(log, |log|);
    PairsDistinct(log, |log|);
    if ValueIndex(log, key) < |log| {
      var t := PairsComplete(log, |log|, KeyIndex(log, key));
      LeftOutIs(ps, KeyIdOf(log, key), t);
    } else {
      IdNotPaired(log, key);
      LeftOutIs(ps, KeyIdOf(log, key), |ps|);
    }
  }

  lemma {:induction false} LogSize(log: Log, m: Table)
    requires Clean(log) && Reads(log, m)
    ensures var ps := Pairs(log, |log|); Size(m) == PairKeySpace(ps) + PairValueWeight(ps, false) && |m| == |ps|
  {
    PairsDistinct(log, |log|);
    LogLists(log, m);
    ListsSize(Pairs(log, |log|), m);
  }

  /** The log compacted for a set of `key` takes what the table takes, less the value of `key`. */
  lemma {:induction false} CompactedSize(log: Log, m: Table, key: Image)
    requires Clean(log) && Reads(log, m)
    ensures Used(Compacted(log, KeyIdOf(log, key))) + (if key in m then EntrySize(|m[key].data|) else 0) == Size(m)
    ensures |Pairs(log, |log|)| == |m|
  {
    LogSize(log, m);
    EmitSpace(Pairs(log, |log|), KeyIdOf(log, key));
    LeavesOut(log, key);
    assert Get(log, key) == if key in m then Some(m[key]) else None;
  }

  /** Without unused keys compaction gains exactly what was counted. */
  lemma {:induction false} ReclaimsAll(log: Log, key: Image)
    requires Clean(log) && KeyWeight(log, 0, |log|, true) == ValWeight(log, 0, |log|, true)
    ensures Used(Compacted(log, KeyIdOf(log, key))) + Reclaimable(log, key) == Used(log)
  {
    var n, ps := |log|, Pairs(log, |log|);
    UnusedKeys(log);
    SpaceSplit(log, n);
    PairsWeight(log, n, false);
    PairsAllKeys(log, n);
    AllOwned(log, n, false);
    EmitSpace(ps, KeyIdOf(log, key));
    LeavesOut(log, key);
  }

  /** A log holds at least its table, and the name of a key that has no value. */
  lemma {:induction false} HoldsTable(log: Log, m: Table, key: Image)
    requires Clean(log) && Reads(log, m)
    ensures Size(m) + (if Valueless(log, key) then EntrySize(|key|) else 0) <= Used(log)
  {
    var n := |log|;
    LogSize(log, m);
    SpaceSplit(log, n);
    PairsWeight(log, n, false);
    PairsKeys(log, n);
    AllOwned(log, n, false);
    if Valueless(log, key) {
      var i := KeyIndex(log, key);
      assert log[i].IsKey() && !Used?(log, i);
    }
  }

  // --------------------------------------------------------------------- ids

  /** The ids in use are 1 to their number: so it is in every log written from an empty one. */
  predicate Dense(log: Log) {
    LastKeyId(log, 0, |log|, 0) == KeyWeight(log, 0, |log|, true)
  }

  lemma {:induction false} KeysSame(a: Log, b: Log, n: nat)
    requires n <= |a| && n <= |b| && forall i :: 0 <= i < n ==> a[i].IsKey() == b[i].IsKey() && a[i].id == b[i].id
    ensures LastKeyId(a, 0, n, 0) == LastKeyId(b, 0, n, 0) && KeyWeight(a, 0, n, true) == KeyWeight(b, 0, n, true)
  {
    if n > 0 {
      KeysSame(a, b, n - 1);
    }
  }

  lemma {:induction false} KeysPush(log: Log, e: Entry)
    ensures LastKeyId(log + [e], 0, |log| + 1, 0) == if e.IsKey() then e.id else LastKeyId(log, 0, |log|, 0)
    ensures KeyWeight(log + [e], 0, |log| + 1, true) == KeyWeight(log, 0, |log|, true) + if e.IsKey() then 1 else 0
  {
    KeysSame(log, log + [e], |log|);
  }

  lemma {:induction false} EmitDense(ps: seq<Pair>, kid: int)
    ensures var log := Emit(ps, kid); Dense(log) && LastKeyId(log, 0, |log|, 0) == |ps|
  {
    if ps != [] {
      var n := |ps|;
      var log, k, v := Emit(ps[..n - 1], kid), KeyEntry(n, ps[n - 1].key), ValueEntry(n, ps[n - 1].value);
      EmitDense(ps[..n - 1], kid);
      KeysPush(log, k);
      KeysPush(log + [k], v);
      assert log + EmitOne(ps[n - 1], kid, n) == if ps[n - 1].id == kid then log + [k] else log + [k] + [v];
    }
  }

  lemma {:induction false} KillDense(log: Log, j: nat)
    requires j < |log| && log[j].IsVal()
    ensures Dense(Kill(log, j)) <==> Dense(log)
  {
    KeysSame(log, Kill(log, j), |log|);
  }

  /** With the largest id in use and no key unused, there are as many keys as ids. */
  lemma {:induction false} NoIdsLeft(log: Log, m: Table, key: Image)
    requires Clean(log) && Reads(log, m) && Dense(log) && NoIds(log, key)
    ensures |m| >= MAX_KEY_ID && key !in m
  {
    UnusedKeys(log);
    CompactedSize(log, m, key);
    assert Get(log, key) == None;
  }

  /** The table after a set takes what the compacted log and the entries of the set take, unless the key
      is there without a value. */
  lemma {:induction false} SizeAfter(log: Log, m: Table, key: Image, v: Value)
    requires Clean(log) && Reads(log, m) && !Valueless(log, key)
    ensures Size(m[key := v]) == Used(Compacted(log, KeyIdOf(log, key))) + Needed(log, key, |v.data|)
    ensures key in m <==> KeyIndex(log, key) < |log|
  {
    CompactedSize(log, m, key);
    SizeSet(m, key, v);
    assert Get(log, key) == if key in m then Some(m[key]) else None;
    if key in m {
      SizeTake(m, key);
    } else {
      assert m - {key} == m;
    }
  }

  /** A key that is there without a value needs no room for its name, and no id. */
  lemma {:induction false} VacantAfter(log: Log, m: Table, key: Image, v: Value)
    requires Clean(log) && Reads(log, m) && Valueless(log, key)
    ensures Size(m[key := v]) <= Used(log) + Needed(log, key, |v.data|)
    ensures key !in m && |m| < MAX_KEY_ID
    ensures Used(Compacted(log, KeyIdOf(log, key))) <= Used(log)
  {
    assert Get(log, key) == None;
    HoldsTable(log, m, key);
    SizeSet(m, key, v);
    assert m - {key} == m;
    CompactedSize(log, m, key);
    CompactedSpace(log, KeyIdOf(log, key));
    ValuelessCounts(log, key);
    UnusedKeys(log);
  }
}
