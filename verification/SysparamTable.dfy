/** What a sysparam log means as a key/value table, and what each change to
    the log does to that table. */
module SysparamTable {
  import opened Flash
  import opened SysparamLog

  type Log = seq<Entry>

  datatype Value = Value(data: Image, binary: bool)

  // ------------------------------------------------------------------ lookup

  /** The test _find_entry applies to an entry. */
  predicate Matches(e: Entry, matchId: nat, findValue: bool) {
    e.Live() && e.isValue == findValue && (matchId == ENTRY_ID_ANY || e.id == matchId)
  }

  /** The first matching entry at or after `i`, or |log|. */
  function Next(log: Log, matchId: nat, findValue: bool, i: nat): (r: nat)
    requires i <= |log|
    ensures i <= r <= |log|
    ensures r < |log| ==> Matches(log[r], matchId, findValue)
    ensures forall k :: i <= k < r ==> !Matches(log[k], matchId, findValue)
    decreases |log| - i
  {
    if i == |log| || Matches(log[i], matchId, findValue) then i else Next(log, matchId, findValue, i + 1)
  }

  predicate NamedKey(e: Entry, key: Image) { e.IsKey() && e.data == key }

  /** The first live key entry called `key` at or after `i`, or |log|. */
  function KeyAt(log: Log, key: Image, i: nat): (r: nat)
    requires i <= |log|
    ensures i <= r <= |log|
    ensures r < |log| ==> NamedKey(log[r], key)
    ensures forall k :: i <= k < r ==> !NamedKey(log[k], key)
    decreases |log| - i
  {
    if i == |log| || NamedKey(log[i], key) then i else KeyAt(log, key, i + 1)
  }

  function ValAt(log: Log, id: nat, i: nat): nat
    requires i <= |log|
  {
    Next(log, id, true, i)
  }

  /** The table a log stands for: the first live value after the first live key. */
  function Get(log: Log, key: Image): Option<Value> {
    var i := KeyAt(log, key, 0);
    if i == |log| then None
    else
      var j := ValAt(log, log[i].id, i + 1);
      if j == |log| then None else Some(Value(log[j].data, log[j].binary))
  }

  // -------------------------------------------------------------- invariant

  predicate HasOwner(log: Log, j: nat)
    requires j < |log|
  {
    exists i :: 0 <= i < j && log[i].IsKey() && log[i].id == log[j].id
  }

  predicate KeysOrdered(log: Log) {
    forall i, j {:trigger log[i].IsKey(), log[j].IsKey()} :: 0 <= i < j < |log| && log[i].IsKey() && log[j].IsKey() ==>
      log[i].id < log[j].id && log[i].data != log[j].data
  }

  predicate ValuesOwned(log: Log) {
    forall j {:trigger HasOwner(log, j)} :: 0 <= j < |log| && log[j].IsVal() ==> HasOwner(log, j)
  }

  predicate ValuesUnique(log: Log) {
    forall i, j {:trigger log[i].IsVal(), log[j].IsVal()} :: 0 <= i < j < |log| && log[i].IsVal() && log[j].IsVal() ==>
      log[i].id != log[j].id
  }

  predicate IdsInRange(log: Log) {
    forall i :: 0 <= i < |log| ==> 1 <= log[i].id <= MAX_KEY_ID
  }

  /** Live keys are distinct with strictly increasing ids; every live value follows
      its key; no key has two live values. */
  predicate Clean(log: Log) {
    KeysOrdered(log) && ValuesOwned(log) && ValuesUnique(log) && IdsInRange(log)
  }

  /** No live value carries `id`. */
  predicate Vacant(log: Log, id: nat) {
    forall j :: 0 <= j < |log| && log[j].IsVal() ==> log[j].id != id
  }

  /** In a clean log a key and a value with its id are exactly what lookup finds. */
  lemma {:induction false} GetIs(log: Log, i: nat, j: nat)
    requires Clean(log) && i < |log| && j < |log|
    requires log[i].IsKey() && log[j].IsVal() && log[i].id == log[j].id
    ensures i < j && KeyAt(log, log[i].data, 0) == i && ValAt(log, log[i].id, i + 1) == j
    ensures Get(log, log[i].data) == Some(Value(log[j].data, log[j].binary))
  {
    assert HasOwner(log, j);
    var o :| 0 <= o < j && log[o].IsKey() && log[o].id == log[j].id;
    assert o == i;
    assert NamedKey(log[i], log[i].data);
    assert Matches(log[j], log[i].id, true);
    var v := ValAt(log, log[i].id, i + 1);
    assert log[v].IsVal();
  }

  lemma {:induction false} GetVacant(log: Log, i: nat)
    requires Clean(log) && i < |log| && log[i].IsKey() && Vacant(log, log[i].id)
    ensures KeyAt(log, log[i].data, 0) == i
    ensures Get(log, log[i].data) == None
  {
    assert NamedKey(log[i], log[i].data);
  }

  /** Vacant is what a failed value search means. */
  lemma {:induction false} ValAtVacant(log: Log, i: nat)
    requires Clean(log) && i < |log| && log[i].IsKey()
    ensures ValAt(log, log[i].id, i + 1) == |log| <==> Vacant(log, log[i].id)
  {
    forall j | 0 <= j < |log| && log[j].IsVal() && log[j].id == log[i].id
      ensures ValAt(log, log[i].id, i + 1) == j
    {
      GetIs(log, i, j);
    }
  }

  // ------------------------------------------------------- changes to a log

  lemma {:induction false} KeyAtPush(log: Log, e: Entry, key: Image)
    ensures KeyAt(log + [e], key, 0) ==
            if KeyAt(log, key, 0) < |log| then KeyAt(log, key, 0)
            else if NamedKey(e, key) then |log| else |log| + 1
  {
    var log', r := log + [e], KeyAt(log, key, 0);
    var r' := KeyAt(log', key, 0);
    assert forall k :: 0 <= k < |log| ==> log'[k] == log[k];
    assert log'[|log|] == e;
    assert r < |log| ==> NamedKey(log'[r], key);
    assert r' < |log| ==> NamedKey(log[r'], key);
  }

  lemma {:induction false} ValAtPush(log: Log, e: Entry, id: nat, i: nat)
    requires i <= |log|
    ensures ValAt(log + [e], id, i) ==
            if ValAt(log, id, i) < |log| then ValAt(log, id, i)
            else if Matches(e, id, true) then |log| else |log| + 1
  {
    var log', r := log + [e], ValAt(log, id, i);
    var r' := ValAt(log', id, i);
    assert forall k :: 0 <= k < |log| ==> log'[k] == log[k];
    assert log'[|log|] == e;
    assert r < |log| ==> Matches(log'[r], id, true);
    assert r' < |log| ==> Matches(log[r'], id, true);
  }

  /** Pushing anything that is not a new value for `key`, nor a key called `key`,
      leaves `key` alone. */
  lemma {:induction false} GetPushOther(log: Log, e: Entry, key: Image)
    requires !NamedKey(e, key)
    requires var i := KeyAt(log, key, 0);
             i < |log| && e.IsVal() && e.id == log[i].id && e.id != ENTRY_ID_ANY ==>
                 ValAt(log, log[i].id, i + 1) < |log|
    requires IdsInRange(log)
    ensures Get(log + [e], key) == Get(log, key)
  {
    KeyAtPush(log, e, key);
    var i := KeyAt(log, key, 0);
    if i < |log| {
      ValAtPush(log, e, log[i].id, i + 1);
    }
  }

  /** Pushing a dead entry changes neither the table nor the invariant. */
  lemma {:induction false} PushDead(log: Log, e: Entry)
    requires Clean(log) && !e.Live() && 1 <= e.id <= MAX_KEY_ID
    ensures Clean(log + [e])
    ensures forall key :: Get(log + [e], key) == Get(log, key)
  {
    PushOwners(log, e);
    forall key ensures Get(log + [e], key) == Get(log, key) {
      GetPushOther(log, e, key);
    }
  }

  lemma {:induction false} PushOwners(log: Log, e: Entry)
    requires ValuesOwned(log)
    requires e.IsVal() ==> exists i :: 0 <= i < |log| && log[i].IsKey() && log[i].id == e.id
    ensures ValuesOwned(log + [e])
  {
    var log' := log + [e];
    forall j | 0 <= j < |log'| && log'[j].IsVal() ensures HasOwner(log', j) {
      if j < |log| {
        assert HasOwner(log, j);
        var i :| 0 <= i < j && log[i].IsKey() && log[i].id == log[j].id;
        assert log'[i] == log[i];
      } else {
        var i :| 0 <= i < |log| && log[i].IsKey() && log[i].id == e.id;
        assert log'[i] == log[i];
      }
    }
  }

  /** Pushing a fresh key: the table is unchanged, the new key has no value yet. */
  lemma {:induction false} PushKey(log: Log, e: Entry)
    requires Clean(log) && e.IsKey() && 1 <= e.id <= MAX_KEY_ID
    requires forall i :: 0 <= i < |log| && log[i].IsKey() ==> log[i].id < e.id && log[i].data != e.data
    ensures Clean(log + [e]) && Vacant(log + [e], e.id)
    ensures forall key :: Get(log + [e], key) == Get(log, key)
    ensures KeyAt(log + [e], e.data, 0) == |log|
  {
    var log' := log + [e];
    PushOwners(log, e);
    forall j | 0 <= j < |log'| && log'[j].IsVal() ensures log'[j].id != e.id {
      assert HasOwner(log, j);
    }
    forall key ensures Get(log', key) == Get(log, key) {
      if key == e.data {
        KeyAtPush(log, e, key);
        assert KeyAt(log, key, 0) == |log|;
      } else {
        GetPushOther(log, e, key);
      }
    }
    KeyAtPush(log, e, e.data);
  }

  /** Pushing the first value of key `i` sets that key and no other. */
  lemma {:induction false} PushValue(log: Log, i: nat, e: Entry)
    requires Clean(log) && i < |log| && log[i].IsKey() && e.IsVal() && e.id == log[i].id
    requires Vacant(log, e.id)
    ensures Clean(log + [e])
    ensures Get(log + [e], log[i].data) == Some(Value(e.data, e.binary))
    ensures forall key :: key != log[i].data ==> Get(log + [e], key) == Get(log, key)
  {
    var log' := log + [e];
    PushOwners(log, e);
    assert Clean(log');
    assert log'[i] == log[i] && log'[|log|] == e;
    GetIs(log', i, |log|);
    forall key | key != log[i].data ensures Get(log', key) == Get(log, key) {
      GetPushOther(log, e, key);
    }
  }

  /** Pushing a second live value changes nothing a reader can see. */
  lemma {:induction false} PushShadowed(log: Log, i: nat, j: nat, e: Entry)
    requires Clean(log) && i < |log| && j < |log|
    requires log[i].IsKey() && log[j].IsVal() && log[i].id == log[j].id
    requires e.IsVal() && e.id == log[i].id
    ensures forall key :: Get(log + [e], key) == Get(log, key)
  {
    forall key ensures Get(log + [e], key) == Get(log, key) {
      var k := KeyAt(log, key, 0);
      if k < |log| && log[k].id == e.id {
        assert k == i;
        GetIs(log, i, j);
      }
      GetPushOther(log, e, key);
    }
  }

  function Kill(log: Log, j: nat): Log
    requires j < |log|
  {
    log[j := log[j].(alive := false)]
  }

  /** Deleting the value of key `i` unsets that key and no other. */
  lemma {:induction false} KillValue(log: Log, i: nat, j: nat)
    requires Clean(log) && i < |log| && j < |log|
    requires log[i].IsKey() && log[j].IsVal() && log[i].id == log[j].id
    ensures Clean(Kill(log, j)) && Vacant(Kill(log, j), log[i].id)
    ensures Get(Kill(log, j), log[i].data) == None
    ensures forall key :: key != log[i].data ==> Get(Kill(log, j), key) == Get(log, key)
  {
    var log' := Kill(log, j);
    KillClean(log, j);
    assert log'[i] == log[i];
    GetVacant(log', i);
    forall key | key != log[i].data ensures Get(log', key) == Get(log, key) {
      KillOther(log, j, key);
    }
  }

  lemma {:induction false} KillClean(log: Log, j: nat)
    requires Clean(log) && j < |log| && log[j].IsVal()
    ensures Clean(Kill(log, j)) && Vacant(Kill(log, j), log[j].id)
  {
    var log' := Kill(log, j);
    assert forall k :: 0 <= k < |log| ==>
        log'[k].IsKey() == log[k].IsKey() && log'[k].id == log[k].id && log'[k].data == log[k].data;
    assert forall k :: 0 <= k < |log| ==> log'[k].IsVal() == (log[k].IsVal() && k != j);
    forall k | 0 <= k < |log'| && log'[k].IsVal() ensures HasOwner(log', k) {
      assert HasOwner(log, k);
      var o :| 0 <= o < k && log[o].IsKey() && log[o].id == log[k].id;
      assert log'[o].IsKey();
    }
  }

  lemma {:induction false} KillOther(log: Log, j: nat, key: Image)
    requires j < |log| && log[j].IsVal() && IdsInRange(log)
    requires var i := KeyAt(log, key, 0); i < |log| ==> log[i].id != log[j].id
    ensures Get(Kill(log, j), key) == Get(log, key)
  {
    var log', i := Kill(log, j), KeyAt(log, key, 0);
    assert forall k :: 0 <= k < |log| ==> NamedKey(log'[k], key) == NamedKey(log[k], key);
    var i' := KeyAt(log', key, 0);
    assert i' == i;
    if i < |log| {
      var id := log[i].id;
      assert forall k :: 0 <= k < |log| ==> Matches(log'[k], id, true) == Matches(log[k], id, true);
      var v, v' := ValAt(log, id, i + 1), ValAt(log', id, i + 1);
      assert v' == v;
    }
  }

  /** Replacing a value the way sysparam_set_data does: append, then delete the old one. */
  lemma {:induction false} ReplaceValue(log: Log, i: nat, j: nat, e: Entry)
    requires Clean(log) && i < |log| && j < |log|
    requires log[i].IsKey() && log[j].IsVal() && log[i].id == log[j].id
    requires e.IsVal() && e.id == log[i].id
    ensures Clean(Kill(log + [e], j))
    ensures Get(Kill(log + [e], j), log[i].data) == Some(Value(e.data, e.binary))
    ensures forall key :: key != log[i].data ==> Get(Kill(log + [e], j), key) == Get(log, key)
  {
    KillValue(log, i, j);
    var gone := Kill(log, j);
    assert gone[i] == log[i];
    PushValue(gone, i, e);
    assert Kill(log + [e], j) == gone + [e];
  }
}
