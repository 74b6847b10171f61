/** Compaction of a sysparam log: the pairs it copies, the log it writes, and
    why that log means the same table in no more space. */
module SysparamCompact {
  import opened Flash
  import opened SysparamLog
  import opened SysparamTable

  /** A live key and the value lookup finds for it, as sysparam_iter_next yields them. */
  datatype Pair = Pair(key: Image, id: nat, value: Value)

  predicate Used?(log: Log, p: nat)
    requires p < |log|
  {
    log[p].IsKey() && ValAt(log, log[p].id, p + 1) < |log|
  }

  function PairAt(log: Log, p: nat): Pair
    requires p < |log| && Used?(log, p)
  {
    var j := ValAt(log, log[p].id, p + 1);
    Pair(log[p].data, log[p].id, Value(log[j].data, log[j].binary))
  }

  /** The pairs whose key lies among the first `p` entries, in log order. */
  function Pairs(log: Log, p: nat): (ps: seq<Pair>)
    requires p <= |log|
    ensures |ps| <= p
  {
    if p == 0 then []
    else Pairs(log, p - 1) + (if Used?(log, p - 1) then [PairAt(log, p - 1)] else [])
  }

  function KeyEntry(id: nat, key: Image): Entry { Entry(true, false, false, false, id, key) }
  function ValueEntry(id: nat, v: Value): Entry { Entry(true, false, true, v.binary, id, v.data) }

  /** What compaction writes for the pairs: ids renumbered from 1, the value of `kid` left out. */
  function Emit(ps: seq<Pair>, kid: int): Log {
    if ps == [] then []
    else
      var n := |ps|;
      Emit(ps[..n - 1], kid) + EmitOne(ps[n - 1], kid, n)
  }

  function EmitOne(p: Pair, kid: int, id: nat): Log {
    [KeyEntry(id, p.key)] + (if p.id == kid then [] else [ValueEntry(id, p.value)])
  }

  function Compacted(log: Log, kid: int): Log { Emit(Pairs(log, |log|), kid) }

  // ------------------------------------------------------------ the pair list

  predicate Distinct(ps: seq<Pair>) {
    forall s, t :: 0 <= s < t < |ps| ==> ps[s].key != ps[t].key && ps[s].id < ps[t].id
  }

  /** Pair `t` comes from a used key among the first `p` entries, and its id is at least its rank. */
  predicate FromLog(log: Log, p: nat, pair: Pair, t: nat)
    requires p <= |log|
  {
    t + 1 <= pair.id && exists i :: 0 <= i < p && Used?(log, i) && pair == PairAt(log, i)
  }

  lemma {:induction false} PairsSound(log: Log, p: nat)
    requires Clean(log) && p <= |log|
    ensures forall t :: 0 <= t < |Pairs(log, p)| ==> FromLog(log, p, Pairs(log, p)[t], t)
  {
    if p > 0 {
      PairsSound(log, p - 1);
      var prev, ps := Pairs(log, p - 1), Pairs(log, p);
      forall t | 0 <= t < |ps| ensures FromLog(log, p, ps[t], t) {
        if t < |prev| {
          assert FromLog(log, p - 1, prev[t], t);
        } else if t > 0 {
          assert FromLog(log, p - 1, prev[t - 1], t - 1);
        }
      }
    }
  }

  lemma {:induction false} PairsDistinct(log: Log, p: nat)
    requires Clean(log) && p <= |log|
    ensures Distinct(Pairs(log, p))
  {
    if p > 0 {
      PairsDistinct(log, p - 1);
      PairsSound(log, p - 1);
      var prev, ps := Pairs(log, p - 1), Pairs(log, p);
      forall s, t | 0 <= s < t < |ps| ensures ps[s].key != ps[t].key && ps[s].id < ps[t].id {
        if t == |prev| {
          assert FromLog(log, p - 1, prev[s], s);
        }
      }
    }
  }

  lemma {:induction false} PairsComplete(log: Log, p: nat, i: nat) returns (t: nat)
    requires i < p <= |log| && Used?(log, i)
    ensures t < |Pairs(log, p)| && Pairs(log, p)[t] == PairAt(log, i)
  {
    if i == p - 1 {
      t := |Pairs(log, p - 1)|;
    } else {
      t := PairsComplete(log, p - 1, i);
    }
  }

  // -------------------------------------------------------- meaning preserved

  /** `log` has pair `p` under `id`; the value of `kid` is the one left out. */
  predicate Placed(log: Log, p: Pair, id: nat, kid: int) {
    var i := KeyAt(log, p.key, 0);
    && i < |log| && log[i].id == id
    && Get(log, p.key) == if p.id == kid then None else Some(p.value)
  }

  predicate Absent(ps: seq<Pair>, key: Image) {
    forall t :: 0 <= t < |ps| ==> ps[t].key != key
  }

  /** `log` says exactly what `ps` says, keys numbered 1..n in order, less the value of `kid`. */
  ghost predicate Tells(log: Log, ps: seq<Pair>, kid: int) {
    && (forall t :: 0 <= t < |ps| ==> Placed(log, ps[t], t + 1, kid))
    && (forall key :: Absent(ps, key) ==> KeyAt(log, key, 0) == |log|)
    && (forall i :: 0 <= i < |log| ==> log[i].id <= |ps|)
  }

  lemma {:induction false} EmitTells(ps: seq<Pair>, kid: int)
    requires Distinct(ps) && |ps| <= MAX_KEY_ID
    ensures Clean(Emit(ps, kid)) && Tells(Emit(ps, kid), ps, kid)
  {
    if ps != [] {
      var n := |ps|;
      EmitTells(ps[..n - 1], kid);
      EmitStep(Emit(ps[..n - 1], kid), ps, kid);
    }
  }

  lemma {:induction false} EmitStep(log: Log, ps: seq<Pair>, kid: int)
    requires ps != [] && Distinct(ps) && |ps| <= MAX_KEY_ID
    requires Clean(log) && Tells(log, ps[..|ps| - 1], kid)
    ensures var log' := log + EmitOne(ps[|ps| - 1], kid, |ps|);
            Clean(log') && Tells(log', ps, kid)
  {
    var n := |ps|;
    var front, p, k := ps[..n - 1], ps[n - 1], KeyEntry(n, ps[n - 1].key);
    assert Absent(front, p.key);
    assert KeyAt(log, p.key, 0) == |log|;
    assert forall i :: 0 <= i < |log| ==> !NamedKey(log[i], p.key);
    PushKey(log, k);
    if p.id == kid {
      assert log + EmitOne(p, kid, n) == log + [k];
      TellsExtend(log, log + [k], [k], ps, kid);
    } else {
      var v, log' := ValueEntry(n, p.value), log + [k];
      assert log'[|log|] == k;
      PushValue(log', |log|, v);
      KeyAtPush(log', v, p.key);
      assert log + EmitOne(p, kid, n) == log' + [v];
      assert log' + [v] == log + [k, v];
      TellsExtend(log, log' + [v], [k, v], ps, kid);
    }
  }

  lemma {:induction false} KeyAtExtend(log: Log, es: Log, key: Image)
    requires forall i :: 0 <= i < |es| ==> !NamedKey(es[i], key)
    ensures var r := KeyAt(log, key, 0);
            KeyAt(log + es, key, 0) == if r < |log| then r else |log + es|
    decreases |es|
  {
    if es == [] {
      assert log + es == log;
    } else {
      var e, rest := es[|es| - 1], es[..|es| - 1];
      KeyAtExtend(log, rest, key);
      KeyAtPush(log + rest, e, key);
      assert log + rest + [e] == log + es;
    }
  }

  lemma {:induction false} TellsExtend(log: Log, log': Log, es: Log, ps: seq<Pair>, kid: int)
    requires ps != [] && Distinct(ps) && log' == log + es
    requires Tells(log, ps[..|ps| - 1], kid)
    requires forall i :: 0 <= i < |es| ==> es[i].id == |ps| && (es[i].IsKey() ==> es[i].data == ps[|ps| - 1].key)
    requires forall key :: key != ps[|ps| - 1].key ==> Get(log', key) == Get(log, key)
    requires Placed(log', ps[|ps| - 1], |ps|, kid)
    ensures Tells(log', ps, kid)
  {
    var n := |ps|;
    var front := ps[..n - 1];
    forall t | 0 <= t < n ensures Placed(log', ps[t], t + 1, kid) {
      if t < n - 1 {
        assert Placed(log, front[t], t + 1, kid);
        KeyAtExtend(log, es, ps[t].key);
      }
    }
    forall key | Absent(ps, key) ensures KeyAt(log', key, 0) == |log'| {
      assert Absent(front, key);
      KeyAtExtend(log, es, key);
    }
  }

  /** Compaction preserves the table, except that the key with id `kid` loses its value. */
  lemma {:induction false} CompactedMeaning(log: Log, kid: int)
    requires Clean(log) && |Pairs(log, |log|)| <= MAX_KEY_ID
    ensures Clean(Compacted(log, kid)) && Tells(Compacted(log, kid), Pairs(log, |log|), kid)
    ensures forall key :: Get(Compacted(log, kid), key) == AfterCompaction(log, kid, key)
  {
    PairsDistinct(log, |log|);
    EmitTells(Pairs(log, |log|), kid);
    forall key ensures Get(Compacted(log, kid), key) == AfterCompaction(log, kid, key) {
      CompactedGet(log, kid, key);
    }
  }

  /** What compaction leaves of `key`. */
  function AfterCompaction(log: Log, kid: int, key: Image): Option<Value> {
    var i := KeyAt(log, key, 0);
    if i < |log| && log[i].id == kid then None else Get(log, key)
  }

  lemma {:induction false} CompactedGet(log: Log, kid: int, key: Image)
    requires Clean(log) && Tells(Compacted(log, kid), Pairs(log, |log|), kid)
    ensures Get(Compacted(log, kid), key) == AfterCompaction(log, kid, key)
  {
    var ps, i := Pairs(log, |log|), KeyAt(log, key, 0);
    if i < |log| && Used?(log, i) {
      var t := PairsComplete(log, |log|, i);
      assert Placed(Compacted(log, kid), ps[t], t + 1, kid);
    } else {
      NotPaired(log, key);
    }
  }

  lemma {:induction false} NotPaired(log: Log, key: Image)
    requires Clean(log)
    requires var i := KeyAt(log, key, 0); i == |log| || !Used?(log, i)
    ensures Absent(Pairs(log, |log|), key)
  {
    var ps := Pairs(log, |log|);
    PairsSound(log, |log|);
    forall t | 0 <= t < |ps| ensures ps[t].key != key {
      assert FromLog(log, |log|, ps[t], t);
      var q :| 0 <= q < |log| && Used?(log, q) && ps[t] == PairAt(log, q);
      assert NamedKey(log[q], ps[t].key);
    }
  }

  // ------------------------------------------------------------ space used

  /** Space (or, for `unit`, number) of the dead entries, live keys and live values in log[p..q]. */
  function Weight(e: Entry, unit: bool): nat { if unit then 1 else e.Space() }

  function DeadWeight(log: Log, p: nat, q: nat, unit: bool): nat
    requires p <= q <= |log|
  {
    if p == q then 0 else DeadWeight(log, p, q - 1, unit) + (if log[q - 1].Live() then 0 else Weight(log[q - 1], unit))
  }

  function KeyWeight(log: Log, p: nat, q: nat, unit: bool): nat
    requires p <= q <= |log|
  {
    if p == q then 0 else KeyWeight(log, p, q - 1, unit) + (if log[q - 1].IsKey() then Weight(log[q - 1], unit) else 0)
  }

  function ValWeight(log: Log, p: nat, q: nat, unit: bool): nat
    requires p <= q <= |log|
  {
    if p == q then 0 else ValWeight(log, p, q - 1, unit) + (if log[q - 1].IsVal() then Weight(log[q - 1], unit) else 0)
  }

  lemma {:induction false} SpaceSplit(log: Log, q: nat)
    requires q <= |log|
    ensures Off(log, q) == DeadWeight(log, 0, q, false) + KeyWeight(log, 0, q, false) + ValWeight(log, 0, q, false)
  {
    if q > 0 {
      SpaceSplit(log, q - 1);
    }
  }

  predicate OwnedBelow(log: Log, j: nat, p: nat)
    requires j < |log| && p <= |log|
  {
    exists i :: 0 <= i < p && log[i].IsKey() && log[i].id == log[j].id
  }

  /** Weight of the live values in log[..q] whose key is among the first `p` entries. */
  function OwnedWeight(log: Log, p: nat, q: nat, unit: bool): nat
    requires p <= |log| && q <= |log|
  {
    if q == 0 then 0
    else OwnedWeight(log, p, q - 1, unit)
         + (if log[q - 1].IsVal() && OwnedBelow(log, q - 1, p) then Weight(log[q - 1], unit) else 0)
  }

  function PairValueWeight(ps: seq<Pair>, unit: bool): nat {
    if ps == [] then 0
    else PairValueWeight(ps[..|ps| - 1], unit) + (if unit then 1 else EntrySize(|ps[|ps| - 1].value.data|))
  }

  function PairKeySpace(ps: seq<Pair>): nat {
    if ps == [] then 0 else PairKeySpace(ps[..|ps| - 1]) + EntrySize(|ps[|ps| - 1].key|)
  }

  /** Space of the value left out. */
  function LeftOut(ps: seq<Pair>, kid: int): nat {
    if ps == [] then 0
    else LeftOut(ps[..|ps| - 1], kid) + (if ps[|ps| - 1].id == kid then EntrySize(|ps[|ps| - 1].value.data|) else 0)
  }

  lemma {:induction false} EmitSpace(ps: seq<Pair>, kid: int)
    ensures Used(Emit(ps, kid)) + LeftOut(ps, kid) == PairKeySpace(ps) + PairValueWeight(ps, false)
  {
    if ps != [] {
      var n := |ps|;
      var front, last := ps[..n - 1], ps[n - 1];
      EmitSpace(front, kid);
      var log, k, v := Emit(front, kid), KeyEntry(n, last.key), ValueEntry(n, last.value);
      UsedPush(log, k);
      UsedPush(log + [k], v);
      assert log + EmitOne(last, kid, n) == if last.id == kid then log + [k] else log + [k] + [v];
    }
  }

  lemma {:induction false} UsedPush(log: Log, e: Entry)
    ensures Used(log + [e]) == Used(log) + e.Space()
  {
    OffSame(log, log + [e], |log|);
  }

  /** The next key takes exactly its own value into account. */
  lemma {:induction false} OwnedStep(log: Log, p: nat, q: nat, unit: bool)
    requires Clean(log) && p < |log| && q <= |log|
    ensures OwnedWeight(log, p + 1, q, unit) == OwnedWeight(log, p, q, unit) +
            (if Used?(log, p) && ValAt(log, log[p].id, p + 1) < q then Weight(log[ValAt(log, log[p].id, p + 1)], unit)
             else 0)
  {
    if q > 0 {
      OwnedStep(log, p, q - 1, unit);
      var j := q - 1;
      if log[j].IsVal() {
        if OwnedBelow(log, j, p) {
          var i :| 0 <= i < p && log[i].IsKey() && log[i].id == log[j].id;
          assert OwnedBelow(log, j, p + 1);
          if Used?(log, p) {
            assert ValAt(log, log[p].id, p + 1) != j;
          }
        } else if log[p].IsKey() && log[p].id == log[j].id {
          GetIs(log, p, j);
          assert OwnedBelow(log, j, p + 1);
        } else {
          assert !OwnedBelow(log, j, p + 1);
        }
      }
    }
  }

  lemma {:induction false} PairsWeight(log: Log, p: nat, unit: bool)
    requires Clean(log) && p <= |log|
    ensures PairValueWeight(Pairs(log, p), unit) == OwnedWeight(log, p, |log|, unit)
  {
    if p == 0 {
      NoneOwned(log, |log|, unit);
    } else {
      PairsWeight(log, p - 1, unit);
      OwnedStep(log, p - 1, |log|, unit);
      PairsStep(log, p - 1);
    }
  }

  lemma {:induction false} PairsStep(log: Log, p: nat)
    requires p < |log|
    ensures var prev, ps := Pairs(log, p), Pairs(log, p + 1);
            if Used?(log, p) then ps[..|ps| - 1] == prev && ps[|ps| - 1] == PairAt(log, p) && |ps| == |prev| + 1
            else ps == prev
  {
  }

  lemma {:induction false} PairsKeys(log: Log, p: nat)
    requires p <= |log|
    ensures PairKeySpace(Pairs(log, p)) <= KeyWeight(log, 0, p, false)
    ensures |Pairs(log, p)| <= KeyWeight(log, 0, p, true)
    ensures forall i :: 0 <= i < p && log[i].IsKey() && !Used?(log, i) ==>
              && |Pairs(log, p)| < KeyWeight(log, 0, p, true)
              && PairKeySpace(Pairs(log, p)) + log[i].Space() <= KeyWeight(log, 0, p, false)
  {
    if p > 0 {
      PairsKeys(log, p - 1);
      PairsStep(log, p - 1);
    }
  }

  lemma {:induction false} PairsAllKeys(log: Log, p: nat)
    requires p <= |log| && forall i :: 0 <= i < p && log[i].IsKey() ==> Used?(log, i)
    ensures PairKeySpace(Pairs(log, p)) == KeyWeight(log, 0, p, false)
    ensures |Pairs(log, p)| == KeyWeight(log, 0, p, true)
  {
    if p > 0 {
      PairsAllKeys(log, p - 1);
      PairsStep(log, p - 1);
    }
  }

  lemma {:induction false} NoneOwned(log: Log, q: nat, unit: bool)
    requires q <= |log|
    ensures OwnedWeight(log, 0, q, unit) == 0
  {
    if q > 0 {
      NoneOwned(log, q - 1, unit);
    }
  }

  lemma {:induction false} AllOwned(log: Log, q: nat, unit: bool)
    requires ValuesOwned(log) && q <= |log|
    ensures OwnedWeight(log, |log|, q, unit) == ValWeight(log, 0, q, unit)
  {
    if q > 0 {
      AllOwned(log, q - 1, unit);
      if log[q - 1].IsVal() {
        assert HasOwner(log, q - 1);
        assert OwnedBelow(log, q - 1, |log|);
      }
    }
  }

  lemma {:induction false} PairCount(ps: seq<Pair>)
    ensures PairValueWeight(ps, true) == |ps|
  {
    if ps != [] {
      PairCount(ps[..|ps| - 1]);
    }
  }

  lemma {:induction false} LeftOutAtLeast(ps: seq<Pair>, t: nat)
    requires t < |ps|
    ensures LeftOut(ps, ps[t].id) >= EntrySize(|ps[t].value.data|)
  {
    if t < |ps| - 1 {
      LeftOutAtLeast(ps[..|ps| - 1], t);
    }
  }

  /** max_key_id after scanning log[p..q]: the id of the last live key seen. */
  function LastKeyId(log: Log, p: nat, q: nat, start: nat): nat
    requires p <= q <= |log|
  {
    if p == q then start else if log[q - 1].IsKey() then log[q - 1].id else LastKeyId(log, p, q - 1, start)
  }

  /** Ids increase along the log, so the last key seen has the largest id. */
  lemma {:induction false} LastIsLargest(log: Log, q: nat)
    requires KeysOrdered(log) && q <= |log|
    ensures forall i :: 0 <= i < q && log[i].IsKey() ==> log[i].id <= LastKeyId(log, 0, q, 0)
  {
    if q > 0 {
      LastIsLargest(log, q - 1);
    }
  }

  lemma {:induction false} LastBelow(log: Log, q: nat, r: nat)
    requires Clean(log) && q <= r < |log| && log[r].IsKey()
    ensures LastKeyId(log, 0, q, 0) < log[r].id
  {
    if q > 0 && !log[q - 1].IsKey() {
      LastBelow(log, q - 1, r);
    }
  }

  /** Keys in a clean log have ids at least as large as their rank. */
  lemma {:induction false} KeyRank(log: Log, p: nat)
    requires Clean(log) && p <= |log|
    ensures KeyWeight(log, 0, p, true) <= LastKeyId(log, 0, p, 0) <= MAX_KEY_ID
  {
    if p > 0 {
      KeyRank(log, p - 1);
      if log[p - 1].IsKey() {
        LastBelow(log, p - 1, p - 1);
      }
    }
  }

  /** Compaction gains at least the dead space plus the value left out. */
  lemma {:induction false} CompactedSpace(log: Log, kid: int)
    requires Clean(log)
    ensures |Pairs(log, |log|)| <= MAX_KEY_ID
    ensures Used(Compacted(log, kid)) + DeadWeight(log, 0, |log|, false) <= Used(log)
    ensures forall i :: 0 <= i < |log| && Used?(log, i) && log[i].id == kid ==>
              Used(Compacted(log, kid)) + DeadWeight(log, 0, |log|, false)
                + log[ValAt(log, kid, i + 1)].Space() <= Used(log)
  {
    var n, ps := |log|, Pairs(log, |log|);
    SpaceSplit(log, n);
    PairsWeight(log, n, false);
    PairsKeys(log, n);
    AllOwned(log, n, false);
    EmitSpace(ps, kid);
    KeyRank(log, n);
    forall i | 0 <= i < |log| && Used?(log, i) && log[i].id == kid
      ensures LeftOut(ps, kid) >= log[ValAt(log, kid, i + 1)].Space()
    {
      var t := PairsComplete(log, n, i);
      LeftOutAtLeast(ps, t);
    }
  }

  /** unused_keys is positive exactly when some live key has no value, and then
      compaction frees an id. */
  lemma {:induction false} UnusedKeys(log: Log)
    requires Clean(log)
    ensures var surplus := KeyWeight(log, 0, |log|, true) as int - ValWeight(log, 0, |log|, true);
            && surplus >= 0
            && |Pairs(log, |log|)| == KeyWeight(log, 0, |log|, true) - surplus
            && ((exists i :: 0 <= i < |log| && log[i].IsKey() && !Used?(log, i)) <==> surplus > 0)
            && (surplus > 0 ==> |Pairs(log, |log|)| < MAX_KEY_ID)
  {
    PairsWeight(log, |log|, true);
    PairsKeys(log, |log|);
    AllOwned(log, |log|, true);
    PairCount(Pairs(log, |log|));
    KeyRank(log, |log|);
    if forall i :: 0 <= i < |log| && log[i].IsKey() ==> Used?(log, i) {
      PairsAllKeys(log, |log|);
    }
  }

  // -------------------------------------------------- the copy loop, pair by pair

  /** The id of `kid`'s key in the compacted log; `kid` itself when that key was not copied. */
  function NewId(ps: seq<Pair>, kid: int): int {
    if ps == [] then kid
    else if ps[|ps| - 1].id == kid then |ps| else NewId(ps[..|ps| - 1], kid)
  }

  lemma {:induction false} NewIdIs(ps: seq<Pair>, kid: int)
    ensures NewId(ps, kid) == kid || (exists t :: 0 <= t < |ps| && ps[t].id == kid && NewId(ps, kid) == t + 1)
    ensures (forall t :: 0 <= t < |ps| ==> ps[t].id != kid) ==> NewId(ps, kid) == kid
  {
    if ps != [] && ps[|ps| - 1].id != kid {
      NewIdIs(ps[..|ps| - 1], kid);
    }
  }

  /** The id rewritten during the copy can never match a key that comes later. */
  lemma {:induction false} NeverMatchesLater(log: Log, p: nat, i: nat, kid: int)
    requires Clean(log) && p <= i < |log| && Used?(log, i)
    ensures log[i].id == NewId(Pairs(log, p), kid) <==> log[i].id == kid
    ensures log[i].id == kid ==> NewId(Pairs(log, p), kid) == kid
  {
    var ps := Pairs(log, p);
    NewIdIs(ps, kid);
    PairsSound(log, p);
    forall t | 0 <= t < |ps| ensures t + 1 <= ps[t].id < log[i].id {
      assert FromLog(log, p, ps[t], t);
    }
  }

  /** Entries between two used keys add no pair. */
  lemma {:induction false} PairsSkip(log: Log, p: nat, q: nat)
    requires p <= q <= |log| && forall k :: p <= k < q ==> !Used?(log, k)
    ensures Pairs(log, q) == Pairs(log, p)
    decreases q
  {
    if p < q {
      PairsSkip(log, p, q - 1);
    }
  }

  lemma {:induction false} EmitGrows(log: Log, p: nat, q: nat, kid: int)
    requires p <= q <= |log|
    ensures Used(Emit(Pairs(log, p), kid)) <= Used(Emit(Pairs(log, q), kid))
    decreases q
  {
    if p < q {
      EmitGrows(log, p, q - 1, kid);
      EmitGrowsOne(log, q - 1, kid);
    }
  }

  lemma {:induction false} EmitGrowsOne(log: Log, p: nat, kid: int)
    requires p < |log|
    ensures Used(Emit(Pairs(log, p), kid)) <= Used(Emit(Pairs(log, p + 1), kid))
  {
    PairsStep(log, p);
    if Used?(log, p) {
      EmitPush(Pairs(log, p), PairAt(log, p), kid);
    }
  }

  /** One more pair: its key entry, and its value entry unless it is the one left out. */
  lemma {:induction false} EmitPush(ps: seq<Pair>, p: Pair, kid: int)
    ensures var out, k, v := Emit(ps, kid), KeyEntry(|ps| + 1, p.key), ValueEntry(|ps| + 1, p.value);
            && Emit(ps + [p], kid) == (if p.id == kid then out + [k] else out + [k] + [v])
            && Used(out + [k]) == Used(out) + k.Space()
            && Used(out + [k] + [v]) == Used(out) + k.Space() + v.Space()
            && Used(out) <= Used(Emit(ps + [p], kid))
  {
    var out, k, v := Emit(ps, kid), KeyEntry(|ps| + 1, p.key), ValueEntry(|ps| + 1, p.value);
    assert (ps + [p])[..|ps|] == ps;
    UsedPush(out, k);
    UsedPush(out + [k], v);
    assert out + EmitOne(p, kid, |ps| + 1) == if p.id == kid then out + [k] else out + [k] + [v];
  }

  /** Every partial copy fits where the original log fits. */
  lemma {:induction false} CopyFits(log: Log, p: nat, kid: int)
    requires Clean(log) && p <= |log|
    ensures Used(Emit(Pairs(log, p), kid)) <= Used(log)
    ensures |Pairs(log, p)| <= MAX_KEY_ID
  {
    EmitGrows(log, p, |log|, kid);
    CompactedSpace(log, kid);
    PairsGrow(log, p, |log|);
  }

  lemma {:induction false} PairsGrow(log: Log, p: nat, q: nat)
    requires p <= q <= |log|
    ensures |Pairs(log, p)| <= |Pairs(log, q)|
    decreases q
  {
    if p < q {
      PairsGrow(log, p, q - 1);
    }
  }
}
