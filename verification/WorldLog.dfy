/** The world state as the log of every write ever committed: what each store has to answer from. */
module WorldLog {
  import opened Prelude
  import opened Records

  // A log is flat: the writes of all committed blocks, in order.

  /* ---- blocks ---- */

  datatype KeyWrite = KeyWrite(key: Bytes, value: Value, isDelete: bool)

  datatype NsWrites = NsWrites(namespace: Bytes, writes: seq<KeyWrite>)

  datatype Tx = Tx(number: U64, id: Bytes, valid: bool, sets: seq<NsWrites>)

  datatype Block = Block(number: U64, txs: seq<Tx>)

  const COLON: Byte := 58

  function FullKey(namespace: Bytes, key: Bytes): Key {
    namespace + [COLON] + key
  }

  function ToUpdate(block: U64, tx: Tx, namespace: Bytes, w: KeyWrite): Update {
    Update(FullKey(namespace, w.key), w.value, block, tx.number, tx.id, w.isDelete)
  }

  function NsUpdates(block: U64, tx: Tx, namespace: Bytes, writes: seq<KeyWrite>): seq<Update> {
    if writes == [] then []
    else
      var n := |writes| - 1;
      NsUpdates(block, tx, namespace, writes[..n]) + [ToUpdate(block, tx, namespace, writes[n])]
  }

  function SetUpdates(block: U64, tx: Tx, sets: seq<NsWrites>): seq<Update> {
    if sets == [] then []
    else
      var n := |sets| - 1;
      SetUpdates(block, tx, sets[..n]) + NsUpdates(block, tx, sets[n].namespace, sets[n].writes)
  }

  function TxUpdates(block: U64, txs: seq<Tx>): seq<Update> {
    if txs == [] then []
    else
      var n := |txs| - 1;
      TxUpdates(block, txs[..n]) + if txs[n].valid then SetUpdates(block, txs[n], txs[n].sets) else []
  }

  /** The writes of a block's valid transactions, in order. */
  function BlockUpdates(b: Block): seq<Update> {
    TxUpdates(b.number, b.txs)
  }

  ghost predicate AllAt(ups: seq<Update>, block: U64) {
    forall i :: 0 <= i < |ups| ==> ups[i].block == block
  }

  lemma {:induction false} NsUpdatesAt(block: U64, tx: Tx, namespace: Bytes, writes: seq<KeyWrite>)
    ensures AllAt(NsUpdates(block, tx, namespace, writes), block)
  {
    if writes != [] {
      NsUpdatesAt(block, tx, namespace, writes[..|writes| - 1]);
    }
  }

  lemma {:induction false} SetUpdatesAt(block: U64, tx: Tx, sets: seq<NsWrites>)
    ensures AllAt(SetUpdates(block, tx, sets), block)
  {
    if sets != [] {
      var n := |sets| - 1;
      SetUpdatesAt(block, tx, sets[..n]);
      NsUpdatesAt(block, tx, sets[n].namespace, sets[n].writes);
    }
  }

  lemma {:induction false} TxUpdatesAt(block: U64, txs: seq<Tx>)
    ensures AllAt(TxUpdates(block, txs), block)
  {
    if txs != [] {
      var n := |txs| - 1;
      TxUpdatesAt(block, txs[..n]);
      SetUpdatesAt(block, txs[n], txs[n].sets);
    }
  }

  /** Appends one transaction's writes to the updates of its block; an invalid one has none. */
  method CollectWrites(updates: seq<Update>, sets: seq<NsWrites>, block: U64, tx: Tx) returns (r: seq<Update>)
    ensures r == updates + if tx.valid then SetUpdates(block, tx, sets) else []
  {
    r := updates;
    if !tx.valid {
      return;
    }
    var i := 0;
    while i < |sets|
      invariant i <= |sets| && r == updates + SetUpdates(block, tx, sets[..i])
    {
      Append(sets[..i], sets[i]);
      TakeNext(sets, i);
      r := CollectSet(r, sets[i].namespace, sets[i].writes, block, tx);
      Associate(updates, SetUpdates(block, tx, sets[..i]), NsUpdates(block, tx, sets[i].namespace, sets[i].writes));
      i := i + 1;
    }
    assert sets[..i] == sets;
  }

  method CollectSet(updates: seq<Update>, namespace: Bytes, writes: seq<KeyWrite>, block: U64, tx: Tx)
    returns (r: seq<Update>)
    ensures r == updates + NsUpdates(block, tx, namespace, writes)
  {
    r := updates;
    var j := 0;
    while j < |writes|
      invariant j <= |writes| && r == updates + NsUpdates(block, tx, namespace, writes[..j])
    {
      Append(writes[..j], writes[j]);
      TakeNext(writes, j);
      Associate(updates, NsUpdates(block, tx, namespace, writes[..j]), [ToUpdate(block, tx, namespace, writes[j])]);
      r := r + [ToUpdate(block, tx, namespace, writes[j])];
      j := j + 1;
    }
    assert writes[..j] == writes;
  }

  /** All writes of a block. */
  method CollectBlock(b: Block) returns (r: seq<Update>)
    ensures r == BlockUpdates(b)
  {
    r := [];
    var i := 0;
    while i < |b.txs|
      invariant i <= |b.txs| && r == TxUpdates(b.number, b.txs[..i])
    {
      Append(b.txs[..i], b.txs[i]);
      TakeNext(b.txs, i);
      r := CollectWrites(r, b.txs[i].sets, b.number, b.txs[i]);
      i := i + 1;
    }
    assert b.txs[..i] == b.txs;
  }

  /* ---- what the log says ---- */

  /** How often k was written. */
  function WriteCount(log: seq<Update>, k: Key): nat {
    if log == [] then 0
    else var n := |log| - 1; WriteCount(log[..n], k) + if log[n].key == k then 1 else 0
  }

  /** The last write of k at or below block h; versions count the writes of k from 0. */
  function AsOf(log: seq<Update>, k: Key, h: U64): Option<Record> {
    if log == [] then None
    else
      var n := |log| - 1;
      if log[n].key == k && log[n].block <= h then Some(ToRecord(log[n], Wrap(WriteCount(log[..n], k))))
      else AsOf(log[..n], k, h)
  }

  function Latest(log: seq<Update>, k: Key): Option<Record> {
    AsOf(log, k, MAX_U64)
  }

  ghost predicate AllAbove(ups: seq<Update>, h: U64) {
    forall i :: 0 <= i < |ups| ==> ups[i].block > h
  }

  ghost predicate AllBelow(log: seq<Update>, h: U64) {
    forall i :: 0 <= i < |log| ==> log[i].block <= h
  }

  /** Later blocks do not change what the log says of an earlier height. */
  lemma {:induction false} AsOfEarlier(log: seq<Update>, ups: seq<Update>, k: Key, h: U64)
    requires AllAbove(ups, h)
    ensures AsOf(log + ups, k, h) == AsOf(log, k, h)
  {
    if ups == [] {
      assert log + ups == log;
    } else {
      var n := |ups| - 1;
      AsOfEarlier(log, ups[..n], k, h);
      assert (log + ups)[..|log + ups| - 1] == log + ups[..n];
    }
  }

  /** At or above the newest block, the height does not matter. */
  lemma {:induction false} AsOfTop(log: seq<Update>, k: Key, h: U64, h': U64)
    requires AllBelow(log, h) && AllBelow(log, h')
    ensures AsOf(log, k, h) == AsOf(log, k, h')
  {
    if log != [] {
      AsOfTop(log[..|log| - 1], k, h, h');
    }
  }

  lemma {:induction false} CountZero(log: seq<Update>, k: Key)
    ensures Latest(log, k) == None <==> WriteCount(log, k) == 0
  {
    if log != [] {
      CountZero(log[..|log| - 1], k);
    }
  }

  /** The version in force is the number of writes so far, less one. */
  lemma {:induction false} LatestVersion(log: seq<Update>, k: Key)
    requires Latest(log, k).Some?
    ensures WriteCount(log, k) > 0 && Latest(log, k).value.version == Wrap(WriteCount(log, k) - 1)
  {
    var n := |log| - 1;
    if log[n].key != k {
      LatestVersion(log[..n], k);
    }
  }

  /* ---- a map that follows the log ---- */

  function Lookup(data: map<Key, Record>, k: Key): Option<Record> {
    if k in data then Some(data[k]) else None
  }

  /** One write: the key's previous version plus one. */
  function ApplyOne(data: map<Key, Record>, u: Update): map<Key, Record> {
    data[u.key := ToRecord(u, if u.key in data then Inc(data[u.key].version) else 0)]
  }

  function ApplyAll(data: map<Key, Record>, ups: seq<Update>): map<Key, Record> {
    if ups == [] then data else var n := |ups| - 1; ApplyOne(ApplyAll(data, ups[..n]), ups[n])
  }

  ghost predicate Denotes(data: map<Key, Record>, log: seq<Update>) {
    forall k :: Lookup(data, k) == Latest(log, k)
  }

  lemma ApplyOneDenotes(data: map<Key, Record>, log: seq<Update>, u: Update)
    requires Denotes(data, log)
    ensures Denotes(ApplyOne(data, u), log + [u])
  {
    Append(log, u);
    CountZero(log, u.key);
    assert Lookup(data, u.key) == Latest(log, u.key);
    if u.key in data {
      LatestVersion(log, u.key);
      WrapInc(WriteCount(log, u.key) - 1);
    }
    forall k
      ensures Lookup(ApplyOne(data, u), k) == Latest(log + [u], k)
    {
      assert Lookup(data, k) == Latest(log, k);
    }
  }

  /** Applying a batch to the map is appending it to the log. */
  lemma {:induction false} ApplyDenotes(data: map<Key, Record>, log: seq<Update>, ups: seq<Update>)
    requires Denotes(data, log)
    ensures Denotes(ApplyAll(data, ups), log + ups)
  {
    if ups == [] {
      assert log + ups == log;
    } else {
      var n := |ups| - 1;
      ApplyDenotes(data, log, ups[..n]);
      ApplyOneDenotes(ApplyAll(data, ups[..n]), log + ups[..n], ups[n]);
      Snoc(ups);
      Associate(log, ups[..n], [ups[n]]);
    }
  }
}
