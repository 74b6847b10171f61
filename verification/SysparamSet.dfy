/** Setting one key, at the level of logs: what every intermediate log of
    sysparam_set_data means, with and without compaction. */
module SysparamSet {
  import opened Flash
  import opened SysparamLog
  import opened SysparamTable
  import opened SysparamCompact
  import opened SysparamRegion
  import opened SysparamScan

  /** Both logs stand for the same table. */
  ghost predicate Same(a: Log, b: Log) {
    forall k :: Get(a, k) == Get(b, k)
  }

  /** `b` is `a` with `key` set to `v` (or unset), and nothing else changed. */
  ghost predicate Sets(a: Log, b: Log, key: Image, v: Option<Value>) {
    Get(b, key) == v && forall k :: k != key ==> Get(b, k) == Get(a, k)
  }

  /** What a reader may find after an interrupted set: the old value, the new one, or, only when
      the log was compacted on the way, no value. Every other key is untouched. */
  ghost predicate Outcome(pre: Log, log: Log, key: Image, v: Option<Value>, compacted: bool) {
    || Sets(pre, log, key, Get(pre, key))
    || Sets(pre, log, key, v)
    || (compacted && Sets(pre, log, key, None))
  }

  /** From image `g`, init mounts a log with an admissible outcome. */
  ghost predicate Survives(g: Image, base: nat, sectors: nat, pre: Log, key: Image, v: Option<Value>, compacted: bool) {
    exists r, log :: Recoverable(g, base, sectors, r, log) && Outcome(pre, log, key, v, compacted)
  }

  ghost predicate AllSurvive(imgs: seq<Image>, base: nat, sectors: nat, pre: Log, key: Image, v: Option<Value>,
                             compacted: bool) {
    forall g :: g in imgs ==> Survives(g, base, sectors, pre, key, v, compacted)
  }

  lemma {:induction false} AllSurviveConcat(a: seq<Image>, b: seq<Image>, base: nat, sectors: nat, pre: Log, key: Image,
                                            v: Option<Value>, compacted: bool)
    requires AllSurvive(a, base, sectors, pre, key, v, compacted)
    requires AllSurvive(b, base, sectors, pre, key, v, compacted)
    ensures AllSurvive(a + b, base, sectors, pre, key, v, compacted)
  {
  }

  /** Allowing for compaction only admits more. */
  lemma {:induction false} SurviveAnyway(imgs: seq<Image>, base: nat, sectors: nat, pre: Log, key: Image,
                                         v: Option<Value>, compacted: bool)
    requires AllSurvive(imgs, base, sectors, pre, key, v, false)
    ensures AllSurvive(imgs, base, sectors, pre, key, v, compacted)
  {
    forall g | g in imgs ensures Survives(g, base, sectors, pre, key, v, compacted) {
      var r, log :| Recoverable(g, base, sectors, r, log) && Outcome(pre, log, key, v, false);
      OneSurvives(g, base, sectors, r, log, pre, key, v, compacted);
    }
  }

  lemma {:induction false} OneSurvives(g: Image, base: nat, sectors: nat, r: bool, log: Log, pre: Log, key: Image,
                                       v: Option<Value>, compacted: bool)
    requires Recoverable(g, base, sectors, r, log) && Outcome(pre, log, key, v, compacted)
    ensures Survives(g, base, sectors, pre, key, v, compacted)
  {
  }

  // ------------------------------------------------------- space and ids

  /** Bytes a set must append. */
  function Needed(log: Log, key: Image, len: nat): nat {
    EntrySize(len) + (if KeyIndex(log, key) < |log| then 0 else EntrySize(|key|))
  }

  /** Bytes compaction is sure to free for a set of `key`: dead entries and the old value. */
  function Reclaimable(log: Log, key: Image): nat {
    DeadWeight(log, 0, |log|, false) + (if ValueIndex(log, key) < |log| then log[ValueIndex(log, key)].Space() else 0)
  }

  /** The key entry is alive but has no value: the case in which compaction drops the key
      while sysparam_set_data goes on using its old id. */
  predicate Valueless(log: Log, key: Image) {
    KeyIndex(log, key) < |log| && ValueIndex(log, key) == |log|
  }

  function KeyIdOf(log: Log, key: Image): int {
    if KeyIndex(log, key) < |log| then log[KeyIndex(log, key)].id else -1
  }

  /** A live key without a value makes unused_keys positive. */
  lemma {:induction false} ValuelessCounts(log: Log, key: Image)
    requires Clean(log) && Valueless(log, key)
    ensures KeyWeight(log, 0, |log|, true) > ValWeight(log, 0, |log|, true)
  {
    var i := KeyIndex(log, key);
    assert log[i].IsKey() && !Used?(log, i);
    UnusedKeys(log);
  }

  // ------------------------------------------------------------ compaction

  /** Compacting for a set of `key` unsets `key` and nothing else. */
  lemma {:induction false} CompactSets(log: Log, key: Image)
    requires Clean(log)
    ensures var out := Compacted(log, KeyIdOf(log, key));
            Clean(out) && Sets(log, out, key, None)
  {
    var kid := KeyIdOf(log, key);
    CompactedSpace(log, kid);
    CompactedMeaning(log, kid);
    var out, i := Compacted(log, kid), KeyIndex(log, key);
    forall k ensures Get(out, k) == if k == key then None else Get(log, k) {
      var q := KeyIndex(log, k);
      assert Get(out, k) == AfterCompaction(log, kid, k);
      if q < |log| && i < |log| && k != key {
        assert log[q].IsKey() && log[i].IsKey() && q != i;
      }
    }
  }

  /** After compaction the key of a set is either absent, or present without a value under
      its new id; all ids are at most the number of pairs. */
  lemma {:induction false} CompactedKey(log: Log, key: Image)
    requires Clean(log)
    ensures var kid := KeyIdOf(log, key);
            var out, ps := Compacted(log, kid), Pairs(log, |log|);
            && (forall i :: 0 <= i < |out| ==> out[i].id <= |ps|)
            && (ValueIndex(log, key) == |log| ==> KeyIndex(out, key) == |out| && NewId(ps, kid) == kid)
            && (ValueIndex(log, key) < |log| ==>
                  KeyIndex(out, key) < |out| && out[KeyIndex(out, key)].id == NewId(ps, kid))
  {
    var kid, i := KeyIdOf(log, key), KeyIndex(log, key);
    var ps, out := Pairs(log, |log|), Compacted(log, kid);
    CompactedSpace(log, kid);
    CompactedMeaning(log, kid);
    PairsDistinct(log, |log|);
    NewIdIs(ps, kid);
    if ValueIndex(log, key) < |log| {
      var t := PairsComplete(log, |log|, i);
      assert Placed(out, ps[t], t + 1, kid);
      NewIdAt(ps, t);
    } else {
      NotPaired(log, key);
      IdNotPaired(log, key);
    }
  }

  lemma {:induction false} NewIdAt(ps: seq<Pair>, t: nat)
    requires Distinct(ps) && t < |ps|
    ensures NewId(ps, ps[t].id) == t + 1
  {
    if t < |ps| - 1 {
      NewIdAt(ps[..|ps| - 1], t);
    }
  }

  lemma {:induction false} IdNotPaired(log: Log, key: Image)
    requires Clean(log) && ValueIndex(log, key) == |log|
    ensures forall t :: 0 <= t < |Pairs(log, |log|)| ==> Pairs(log, |log|)[t].id != KeyIdOf(log, key)
  {
    var ps, i := Pairs(log, |log|), KeyIndex(log, key);
    PairsSound(log, |log|);
    forall t | 0 <= t < |ps| ensures ps[t].id != KeyIdOf(log, key) {
      assert FromLog(log, |log|, ps[t], t);
      var q :| 0 <= q < |log| && Used?(log, q) && ps[t] == PairAt(log, q);
      if i < |log| {
        assert log[i].IsKey() && log[q].IsKey() && i != q;
      }
    }
  }

  /** Every key of a compacted log except that of `kid` has a value. */
  lemma {:induction false} CompactedFull(log: Log, key: Image, k: Image)
    requires Clean(log) && ValueIndex(log, key) == |log|
    requires var out := Compacted(log, KeyIdOf(log, key)); KeyIndex(out, k) < |out|
    ensures Get(Compacted(log, KeyIdOf(log, key)), k) != None
  {
    var kid := KeyIdOf(log, key);
    var ps, out := Pairs(log, |log|), Compacted(log, kid);
    CompactedSpace(log, kid);
    CompactedMeaning(log, kid);
    IdNotPaired(log, key);
    assert !Absent(ps, k);
    var t :| 0 <= t < |ps| && ps[t].key == k;
    assert Placed(out, ps[t], t + 1, kid);
  }

  // ----------------------------------------------- the writes of one set

  /** A dead entry at the end, half written or invalid, is invisible. */
  lemma {:induction false} Invisible(log: Log, e: Entry)
    requires Clean(log) && e.Encodable()
    ensures Same(log, log + [Begun(e)]) && Same(log, log + [Filled(e)])
    ensures Clean(log + [Begun(e)]) && Clean(log + [Filled(e)])
  {
    PushDead(log, Begun(e));
    PushDead(log, Filled(e));
  }

  lemma {:induction false} AddKey(log: Log, key: Image, id: nat)
    requires Clean(log) && KeyIndex(log, key) == |log| && 1 <= id <= MAX_KEY_ID
    requires forall i :: 0 <= i < |log| && log[i].IsKey() ==> log[i].id < id
    ensures var log' := log + [KeyEntry(id, key)];
            && Clean(log') && Same(log, log') && KeyIndex(log', key) == |log| && Vacant(log', id)
  {
    var k := KeyEntry(id, key);
    assert forall i :: 0 <= i < |log| ==> !NamedKey(log[i], key);
    PushKey(log, k);
  }

  lemma {:induction false} AddValue(log: Log, key: Image, v: Value)
    requires Clean(log) && KeyIndex(log, key) < |log| && Vacant(log, log[KeyIndex(log, key)].id)
    ensures var log' := log + [ValueEntry(log[KeyIndex(log, key)].id, v)];
            Clean(log') && Sets(log, log', key, Some(v))
  {
    var i := KeyIndex(log, key);
    PushValue(log, i, ValueEntry(log[i].id, v));
  }

  /** Before the old value is deleted the new one is still shadowed by it. */
  lemma {:induction false} ShadowThenReplace(log: Log, key: Image, v: Value)
    requires Clean(log) && ValueIndex(log, key) < |log|
    ensures var i, j := KeyIndex(log, key), ValueIndex(log, key);
            var log' := log + [ValueEntry(log[i].id, v)];
            && Same(log, log')
            && Clean(Kill(log', j)) && Sets(log, Kill(log', j), key, Some(v))
  {
    var i, j := KeyIndex(log, key), ValueIndex(log, key);
    var e := ValueEntry(log[i].id, v);
    assert log[j].IsVal();
    PushShadowed(log, i, j, e);
    ReplaceValue(log, i, j, e);
  }

  lemma {:induction false} DropValue(log: Log, key: Image)
    requires Clean(log) && ValueIndex(log, key) < |log|
    ensures Clean(Kill(log, ValueIndex(log, key))) && Sets(log, Kill(log, ValueIndex(log, key)), key, None)
  {
    var i, j := KeyIndex(log, key), ValueIndex(log, key);
    assert log[j].IsVal();
    KillValue(log, i, j);
  }

  /** A value written under a stale id is invisible: the set is lost. */
  lemma {:induction false} StaleWrite(log: Log, key: Image, id: nat, v: Value)
    requires Clean(log) && ValueIndex(log, key) == |log| && 1 <= id <= MAX_KEY_ID
    ensures var out := Compacted(log, KeyIdOf(log, key));
            Same(out, out + [ValueEntry(id, v)])
  {
    var out, e := Compacted(log, KeyIdOf(log, key)), ValueEntry(id, v);
    CompactSets(log, key);
    forall k ensures Get(out, k) == Get(out + [e], k) {
      if KeyIndex(out, k) < |out| {
        CompactedFull(log, key, k);
      }
      GetPushOther(out, e, k);
    }
  }

  /** A failed value search is a vacancy. */
  lemma {:induction false} NoValue(log: Log, key: Image)
    requires Clean(log) && KeyIndex(log, key) < |log|
    ensures Get(log, key) == None <==> Vacant(log, log[KeyIndex(log, key)].id)
    ensures Get(log, key) == None <==> ValueIndex(log, key) == |log|
  {
    ValAtVacant(log, KeyIndex(log, key));
  }

  // ------------------------------------------------- counters and linking

  /** The counters after the searches of a set, the old value's space included. */
  predicate Prepared(b: nat, size: nat, log: Log, key: Image, c: Context) {
    var j := ValueIndex(log, key);
    var extra := if j < |log| then log[j].Space() else 0;
    && At(b, log, c, Consumed(log, key)) && b <= c.addr <= b + size + 8
    && Counted(log, START.(compactable := extra), c, 0, if j < |log| then j + 1 else |log|)
  }

  /** The counters over the whole log. */
  predicate Totals(log: Log, key: Image, c: Context) {
    && c.compactable == Reclaimable(log, key)
    && c.unusedKeys == KeyWeight(log, 0, |log|, true) - ValWeight(log, 0, |log|, true)
    && c.maxKeyId == LastKeyId(log, 0, |log|, 0)
  }

  lemma {:induction false} PreparedTotals(b: nat, size: nat, log: Log, key: Image, c: Context)
    requires Prepared(b, size, log, key, c) && ValueIndex(log, key) == |log|
    ensures Totals(log, key, c)
  {
  }

  /** The scan to the end that sysparam_set_data makes before deciding to compact. */
  method CountAll(f: Image, b: nat, size: nat, c0: Context, ghost key: Image, ghost sectors: nat, ghost log: Log)
    returns (c: Context, truncated: bool)
    requires Region(f, b, sectors, log) && size == sectors * SECTOR && IdsInRange(log)
    requires Prepared(b, size, log, key, c0)
    ensures Totals(log, key, c)
    ensures truncated ==> Used(log) == size - 8
  {
    c, truncated := Rescan(f, b, size, c0, sectors, log, Consumed(log, key));
    ghost var j := ValueIndex(log, key);
    if j < |log| {
      CountedTrans(log, START.(compactable := log[j].Space()), c0, c, 0, j + 1, |log|);
    }
  }

  /** The current log as the writing phase of a set finds it: untouched, or compacted. */
  ghost predicate Linked(pre: Log, log: Log, key: Image, compacted: bool) {
    Same(pre, log) || (compacted && Sets(pre, log, key, None))
  }

  lemma {:induction false} LinkedOutcome(pre: Log, log: Log, log': Log, key: Image, v: Option<Value>, compacted: bool)
    requires Linked(pre, log, key, compacted)
    ensures Same(log, log') ==> Linked(pre, log', key, compacted) && Outcome(pre, log', key, v, compacted)
    ensures Sets(log, log', key, v) ==> Outcome(pre, log', key, v, compacted) && Sets(pre, log', key, v)
  {
  }

  /** Ids exhausted: the largest id is in use. */
  predicate OutOfIds(log: Log, key: Image) {
    KeyIndex(log, key) == |log| && LastKeyId(log, 0, |log|, 0) >= MAX_KEY_ID
  }

  /** No id is left even after a compaction: the largest is in use, and every key has a value. */
  predicate NoIds(log: Log, key: Image) {
    OutOfIds(log, key) && KeyWeight(log, 0, |log|, true) == ValWeight(log, 0, |log|, true)
  }

  /** As many pairs as ids means the largest id is in use. */
  lemma {:induction false} PairsReachIds(log: Log)
    requires Clean(log)
    ensures |Pairs(log, |log|)| <= LastKeyId(log, 0, |log|, 0)
  {
    PairsKeys(log, |log|);
    KeyRank(log, |log|);
  }
}
