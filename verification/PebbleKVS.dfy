/** The persistent store as an object over a database of bytes, and its readers. */
module PebbleKVS {
  import opened Prelude
  import opened Words
  import opened Records
  import opened WorldLog
  import opened LightModel
  import opened LogTime
  import opened ByteOrder
  import opened KeyCodec
  import opened RecordCodec
  import opened PebbleModel
  import opened PebbleDb

  /** A write Go can encode. */
  predicate Storable(u: Update) {
    forall v: U64 :: |EncodeRecord(ToRecord(u, v))| < TWO_63
  }

  ghost predicate AllStorable(ups: seq<Update>) {
    forall i :: 0 <= i < |ups| ==> Storable(ups[i])
  }

  lemma {:induction false} Untouched(db: Db, block: U64, ups: seq<Update>, k: Key)
    requires !Wrote(ups, k)
    ensures Current(Staged(db, block, ups), k) == Current(db, k)
  {
    if ups != [] {
      Untouched(db, block, ups[..|ups| - 1], k);
    }
  }

  /** The record currently stored for a key, and its bytes. */
  method CurrentRecord(raw: Bytemap, ghost db: Db, k: Key) returns (r: Option<Record>, bytes: Bytes)
    requires Encodes(raw, db)
    ensures r == Current(db, k) && (r.Some? ==> bytes == EncodeRecord(r.value))
  {
    RecordThere(raw, db, DataKey(k));
    if KeyForState(TAG_DATA, k) !in raw {
      return None, [];
    }
    bytes := raw[KeyForState(TAG_DATA, k)];
    var d := DecodeRecord(bytes);
    return Some(d.r), bytes;
  }

  /** Copies the superseded record aside and indexes it. */
  method StageHistoryBytes(batch: Bytemap, ghost staged: Db, block: U64, k: Key, prev: Record, bytes: Bytes)
    returns (batch': Bytemap)
    requires Encodes(batch, staged) && bytes == EncodeRecord(prev) && |bytes| < TWO_63
    ensures Encodes(batch', StageHistory(staged, block, k, prev))
  {
    var histKey := HistoryBytes(k, prev.block, prev.tx);
    PutEncodes(batch, staged, HistKey(k, prev.block, prev.tx), Rec(prev));
    batch' := batch[histKey := bytes];
    ghost var staged' := staged[HistKey(k, prev.block, prev.tx) := Rec(prev)];
    PutEncodes(batch', staged', IndexKey(block, k, prev.block, prev.tx), Nothing);
    batch' := batch'[IndexBytes(block, histKey) := []];
  }

  /** What nextVersion holds: for each key this block wrote, the version after its last. */
  ghost predicate Versioned(next: map<Key, U64>, staged: Db, ups: seq<Update>) {
    forall k ::
      && (k in next <==> Wrote(ups, k))
      && (k in next ==> Current(staged, k).Some? && next[k] == Inc(Current(staged, k).value.version))
  }

  lemma VersionedNext(next: map<Key, U64>, db: Db, staged: Db, block: U64, first: bool, ups: seq<Update>, u: Update,
                      version: U64)
    requires Versioned(next, staged, ups)
    requires version == if Current(staged, u.key) == None then 0 else Inc(Current(staged, u.key).value.version)
    ensures Versioned(next[u.key := Inc(version)], StageOne(db, staged, block, first, u), ups + [u])
  {
    Append(ups, u);
  }

  /** The batch and the versions to come, after these writes of a block. */
  ghost predicate BatchOk(batch: Bytemap, next: map<Key, U64>, db: Db, block: U64, ups: seq<Update>) {
    Encodes(batch, Staged(db, block, ups)) && Versioned(next, Staged(db, block, ups), ups)
  }

  /** The records of one write. */
  method StageWrite(raw: Bytemap, ghost db: Db, batch: Bytemap, block: U64, ghost ups: seq<Update>,
                    next: map<Key, U64>, u: Update)
    returns (batch': Bytemap, next': map<Key, U64>)
    requires Encodes(raw, db) && BatchOk(batch, next, db, block, ups) && Storable(u)
    ensures BatchOk(batch', next', db, block, ups + [u])
  {
    Append(ups, u);
    ghost var staged := Staged(db, block, ups);
    ghost var mid := staged;
    var version: U64 := 0;
    batch' := batch;
    if u.key in next {
      version := next[u.key];
    } else {
      Untouched(db, block, ups, u.key);
      var prev, bytes := CurrentRecord(raw, db, u.key);
      if prev.Some? {
        assert Typed(DataKey(u.key), db[DataKey(u.key)]);
        version := Inc(prev.value.version);
        batch' := StageHistoryBytes(batch, staged, block, u.key, prev.value, bytes);
        mid := StageHistory(staged, block, u.key, prev.value);
      }
    }
    VersionedNext(next, db, staged, block, !Wrote(ups, u.key), ups, u, version);
    next' := next[u.key := Inc(version)];
    PutEncodes(batch', mid, DataKey(u.key), Rec(ToRecord(u, version)));
    batch' := batch'[KeyForState(TAG_DATA, u.key) := EncodeRecord(ToRecord(u, version))];
  }

  /** All writes of a block. */
  method StageWrites(raw: Bytemap, ghost db: Db, block: U64, updates: seq<Update>) returns (batch: Bytemap)
    requires Encodes(raw, db) && AllStorable(updates)
    ensures Encodes(batch, Staged(db, block, updates))
  {
    batch := raw;
    var next: map<Key, U64> := map[];
    var i := 0;
    while i < |updates|
      invariant i <= |updates| && BatchOk(batch, next, db, block, updates[..i])
    {
      TakeNext(updates, i);
      batch, next := StageWrite(raw, db, batch, block, updates[..i], next, updates[i]);
      i := i + 1;
    }
    assert updates[..i] == updates;
  }

  /* ---- pruning ---- */

  /** An index key and the history key it names. */
  ghost function Pair(x: DbKey): set<DbKey> {
    if x.IndexKey? then {x, HistKey(x.k, x.block, x.tx)} else {}
  }

  ghost function Pairs(xs: seq<DbKey>): set<DbKey> {
    if xs == [] then {} else Pairs(xs[..|xs| - 1]) + Pair(xs[|xs| - 1])
  }

  lemma {:induction false} InPairs(xs: seq<DbKey>, y: DbKey)
    ensures y in Pairs(xs) <==> exists i :: 0 <= i < |xs| && y in Pair(xs[i])
  {
    if xs != [] {
      var n := |xs| - 1;
      InPairs(xs[..n], y);
      if y in Pairs(xs[..n]) {
        var i :| 0 <= i < n && y in Pair(xs[..n][i]);
        assert y in Pair(xs[i]);
      }
      if i :| 0 <= i < |xs| && y in Pair(xs[i]) {
        if i < n {
          assert y in Pair(xs[..n][i]);
        }
      }
    }
  }

  /** The keys of an index scan, as database keys. */
  ghost predicate Scans(xs: seq<DbKey>, keys: seq<Bytes>, db: Db) {
    && |xs| == |keys|
    && (forall i :: 0 <= i < |xs| ==> xs[i].IndexKey? && xs[i] in db && KeyBytes(xs[i]) == keys[i])
    && (forall x: DbKey :: x in db && x.IndexKey? ==> x in xs)
    && (forall i, j :: 0 <= i < j < |xs| ==> xs[i].creator <= xs[j].creator)
  }

  lemma IndexScan(raw: Bytemap, db: Db, keys: seq<Bytes>) returns (xs: seq<DbKey>)
    requires Encodes(raw, db) && IsScan(keys, raw, [TAG_INDEX], [])
    ensures Scans(xs, keys, db)
  {
    assert forall i :: 0 <= i < |keys| ==> keys[i] in keys;
    xs := Decode(db, keys);
    forall i | 0 <= i < |xs|
      ensures xs[i].IndexKey?
    {
      assert keys[i] in keys;
      IndexPrefixOnly(xs[i]);
    }
    forall x: DbKey | x in db && x.IndexKey?
      ensures x in xs
    {
      assert Fetch(raw, KeyBytes(x)) == Encoded(CellAt(db, x));
      IndexPrefixOnly(x);
      assert [TAG_INDEX] + [] == [TAG_INDEX];
      assert !Less(KeyBytes(x), [TAG_INDEX]) by {
        assert KeyBytes(x)[0] == TAG_INDEX;
      }
      assert KeyBytes(x) in keys;
      var j :| 0 <= j < |keys| && keys[j] == KeyBytes(x);
      KeyBytesInjective(x, xs[j]);
    }
    forall i, j | 0 <= i < j < |xs|
      ensures xs[i].creator <= xs[j].creator
    {
      if xs[j].creator < xs[i].creator {
        var a, b := xs[j], xs[i];
        IndexOrder(a.creator, HistoryBytes(a.k, a.block, a.tx), b.creator, HistoryBytes(b.k, b.block, b.tx));
        NotBoth(keys[i], keys[j]);
      }
    }
  }

  lemma {:induction false} Decode(db: Db, keys: seq<Bytes>) returns (xs: seq<DbKey>)
    requires forall i :: 0 <= i < |keys| ==> Names(db, keys[i])
    ensures |xs| == |keys| && forall i :: 0 <= i < |xs| ==> xs[i] in db && KeyBytes(xs[i]) == keys[i]
  {
    if keys == [] {
      xs := [];
    } else {
      var n := |keys| - 1;
      var ys := Decode(db, keys[..n]);
      assert Names(db, keys[n]);
      var x: DbKey :| x in db && KeyBytes(x) == keys[n];
      xs := ys + [x];
      forall i | 0 <= i < |xs|
        ensures xs[i] in db && KeyBytes(xs[i]) == keys[i]
      {
        assert i < n ==> xs[i] == ys[i] && keys[..n][i] == keys[i];
      }
    }
  }

  /** The first n are those up to the cutoff. */
  ghost predicate Splits(xs: seq<DbKey>, keys: seq<Bytes>, db: Db, n: nat, cutoff: U64) {
    && Scans(xs, keys, db) && n <= |xs|
    && (forall i :: 0 <= i < n ==> xs[i].creator <= cutoff)
    && (n < |xs| ==> xs[n].creator > cutoff)
  }

  lemma PairsAged(xs: seq<DbKey>, keys: seq<Bytes>, db: Db, n: nat, cutoff: U64, x: DbKey)
    requires Splits(xs, keys, db, n, cutoff) && x in Pairs(xs[..n])
    ensures Aged(db, x, cutoff)
  {
    InPairs(xs[..n], x);
    var i :| 0 <= i < n && x in Pair(xs[..n][i]);
    var y := xs[i];
    assert IndexKey(y.creator, y.k, y.block, y.tx) == y;
  }

  lemma AgedPairs(xs: seq<DbKey>, keys: seq<Bytes>, db: Db, n: nat, cutoff: U64, x: DbKey)
    requires Splits(xs, keys, db, n, cutoff) && Aged(db, x, cutoff)
    ensures x in Pairs(xs[..n])
  {
    var c: U64 := if x.IndexKey? then x.creator else ChooseCreator(db, x, cutoff);
    var y := IndexKey(c, x.k, x.block, x.tx);
    var j := Position(xs, keys, db, n, cutoff, y);
    assert xs[..n][j] == y && x in Pair(y);
    InPairs(xs[..n], x);
  }

  lemma Position(xs: seq<DbKey>, keys: seq<Bytes>, db: Db, n: nat, cutoff: U64, y: DbKey) returns (j: nat)
    requires Splits(xs, keys, db, n, cutoff) && y in db && y.IndexKey? && y.creator <= cutoff
    ensures j < n && xs[j] == y
  {
    assert y in xs;
    j :| 0 <= j < |xs| && xs[j] == y;
  }

  ghost function ChooseCreator(db: Db, x: DbKey, cutoff: U64): (c: U64)
    requires x.HistKey? && Aged(db, x, cutoff)
    ensures c <= cutoff && IndexKey(c, x.k, x.block, x.tx) in db
  {
    var c: U64 :| c <= cutoff && IndexKey(c, x.k, x.block, x.tx) in db;
    c
  }

  /** Removing the scanned pairs up to the cutoff is pruning. */
  lemma PrunedIs(xs: seq<DbKey>, keys: seq<Bytes>, db: Db, staged: Db, n: nat, cutoff: U64)
    requires Splits(xs, keys, db, n, cutoff)
    ensures staged - Pairs(xs[..n]) == Pruned(db, staged, cutoff)
  {
    forall x: DbKey
      ensures x in Pairs(xs[..n]) <==> Aged(db, x, cutoff)
    {
      if x in Pairs(xs[..n]) {
        PairsAged(xs, keys, db, n, cutoff, x);
      } else if Aged(db, x, cutoff) {
        AgedPairs(xs, keys, db, n, cutoff, x);
      }
    }
  }

  /** The first i entries are at or below the cutoff and gone from the batch. */
  ghost predicate Gone(batch: Bytemap, staged: Db, xs: seq<DbKey>, i: nat, cutoff: U64) {
    && i <= |xs| && Encodes(batch, staged - Pairs(xs[..i]))
    && forall j :: 0 <= j < i ==> xs[j].IndexKey? && xs[j].creator <= cutoff
  }

  /** One index entry: deleted with the history it names, unless it is above the cutoff. */
  method PruneEntry(batch: Bytemap, ghost staged: Db, ghost xs: seq<DbKey>, ghost i: nat, key: Bytes, cutoff: U64)
    returns (batch': Bytemap, stop: bool)
    requires Gone(batch, staged, xs, i, cutoff) && i < |xs| && xs[i].IndexKey? && key == KeyBytes(xs[i])
    ensures stop <==> xs[i].creator > cutoff
    ensures !stop ==> Gone(batch', staged, xs, i + 1, cutoff)
  {
    ghost var x, db := xs[i], staged - Pairs(xs[..i]);
    ghost var y := HistKey(x.k, x.block, x.tx);
    assert db - {y} - {x} == staged - Pairs(xs[..i + 1]) by {
      TakeNext(xs, i);
      Append(xs[..i], x);
    }
    ParseIndexInverse(x.creator, KeyBytes(y));
    var entry := ParseIndexKey(key);
    if entry.value.0 > cutoff {
      return batch, true;
    }
    DeleteEncodes(batch, db, y);
    batch' := batch - {entry.value.1};
    DeleteEncodes(batch', db - {y}, x);
    batch' := batch' - {key};
    return batch', false;
  }

  lemma NoneGone(batch: Bytemap, staged: Db, xs: seq<DbKey>, cutoff: U64)
    requires Encodes(batch, staged)
    ensures Gone(batch, staged, xs, 0, cutoff)
  {
    assert staged - Pairs(xs[..0]) == staged;
  }

  lemma AllGone(batch: Bytemap, db: Db, staged: Db, xs: seq<DbKey>, keys: seq<Bytes>, i: nat, cutoff: U64)
    requires Gone(batch, staged, xs, i, cutoff) && Scans(xs, keys, db) && (i < |xs| ==> xs[i].creator > cutoff)
    ensures Encodes(batch, Pruned(db, staged, cutoff))
  {
    PrunedIs(xs, keys, db, staged, i, cutoff);
  }

  /** Walks the index in block order and deletes, from the batch, what aged out. */
  method PruneScan(batch: Bytemap, ghost db: Db, ghost staged: Db, keys: seq<Bytes>, ghost xs: seq<DbKey>, cutoff: U64)
    returns (batch': Bytemap)
    requires Encodes(batch, staged) && Scans(xs, keys, db)
    ensures Encodes(batch', Pruned(db, staged, cutoff))
  {
    batch' := batch;
    var i, stop := 0, false;
    NoneGone(batch, staged, xs, cutoff);
    while i < |keys| && !stop
      invariant i <= |keys| && Gone(batch', staged, xs, i, cutoff)
      invariant stop ==> i < |xs| && xs[i].creator > cutoff
      decreases |keys| - i, !stop
    {
      var next;
      next, stop := PruneEntry(batch', staged, xs, i, keys[i], cutoff);
      if !stop {
        batch' := next;
        i := i + 1;
      }
    }
    AllGone(batch', db, staged, xs, keys, i, cutoff);
  }

  /** The iterator sees the committed database; the deletes go to the batch. */
  method PruneTo(raw: Bytemap, ghost db: Db, batch: Bytemap, ghost staged: Db, cutoff: U64) returns (batch': Bytemap)
    requires Encodes(raw, db) && Encodes(batch, staged)
    ensures Encodes(batch', Pruned(db, staged, cutoff))
  {
    var keys := NewIterator(raw, [TAG_INDEX], []);
    ghost var xs := IndexScan(raw, db, keys);
    batch' := PruneScan(batch, db, staged, keys, xs, cutoff);
  }

  /* ---- the store ---- */

  method LowestPinned(pins: map<U64, nat>) returns (low: U64)
    ensures low == Lowest(pins.Keys)
  {
    low := MAX_U64;
    var rest := pins.Keys;
    while rest != {}
      invariant rest <= pins.Keys && (low in pins || low == MAX_U64)
      invariant forall h :: h in pins && h !in rest ==> low <= h
      decreases rest
    {
      var h :| h in rest;
      if h < low {
        low := h;
      }
      rest := rest - {h};
    }
    LowestUnique(pins.Keys, low);
  }

  /** Checks a redelivery of the tip: the last write of each key must be the stored one. */
  method VerifyTipReplay(raw: Bytemap, ghost db: Db, updates: seq<Update>) returns (ok: bool)
    requires Encodes(raw, db)
    ensures ok <==> TipReplayOk(db, updates)
  {
    var final: map<Key, Update> := map[];
    var i := 0;
    while i < |updates|
      invariant i <= |updates| && final == Final(updates[..i])
    {
      TakeNext(updates, i);
      Append(updates[..i], updates[i]);
      final := final[updates[i].key := updates[i]];
      i := i + 1;
    }
    assert updates[..i] == updates;
    ok := AllStored(raw, db, final);
  }

  method AllStored(raw: Bytemap, ghost db: Db, final: map<Key, Update>) returns (ok: bool)
    requires Encodes(raw, db)
    ensures ok <==> forall k :: k in final ==> Stored(db, final[k])
  {
    var keys := final.Keys;
    while keys != {}
      invariant keys <= final.Keys
      invariant forall k :: k in final && k !in keys ==> Stored(db, final[k])
      decreases keys
    {
      var key :| key in keys;
      var u := final[key];
      var stored, _ := CurrentRecord(raw, db, u.key);
      if stored == None || stored.value.block != u.block {
        return false;
      }
      if stored.value.isDelete != u.isDelete || Raw(stored.value.value) != Raw(u.value) || stored.value.txId != u.txId {
        return false;
      }
      keys := keys - {key};
    }
    return true;
  }

  class PebbleKVS {
    var db: Bytemap
    const historySize: nat
    var currentBlock: U64
    var hasCheckpoint: bool
    var oldestRetained: U64
    var openReaders: map<U64, nat>
    /** What the database denotes. */
    ghost var cells: Db

    ghost function View(): Pebble
      reads this
    {
      Pebble(cells, historySize, currentBlock, hasCheckpoint, oldestRetained, openReaders)
    }

    ghost predicate Valid()
      reads this`db, this`cells
    {
      Encodes(db, cells)
    }

    /** Resumes from the last committed block. */
    constructor (db: Bytemap, size: int, ghost cells: Db)
      requires Encodes(db, cells)
      ensures Valid() && View() == Open(cells, size) && this.db == db
    {
      NumberThere(db, cells, MetaBlock);
      NumberThere(db, cells, MetaOldest);
      this.db, this.cells := db, cells;
      historySize := if size <= 0 then DEFAULT_SIZE else size;
      var block := ReadMeta(db, KeyBytes(MetaBlock));
      currentBlock := if block.Some? then block.value else 0;
      hasCheckpoint := block.Some?;
      var oldest := ReadMeta(db, KeyBytes(MetaOldest));
      oldestRetained := if oldest.Some? then oldest.value else 0;
      openReaders := map[];
    }

    /** An absent value reads as None; one that is not eight bytes would be an error. */
    static method ReadMeta(db: Bytemap, key: Bytes) returns (v: Option<U64>)
      requires key in db ==> DecodeNumber(db[key]).Some?
      ensures v == if key in db then DecodeNumber(db[key]) else None
    {
      if key !in db {
        return None;
      }
      return DecodeNumber(db[key]);
    }

    /** What leaves the window when this block is committed, never cutting into what a reader needs. */
    method ChooseCutoff(block: U64) returns (c: Option<U64>)
      ensures c == Cutoff(View(), block) && (c.Some? ==> c.value < MAX_U64)
    {
      if block < historySize + 1 {
        return None;
      }
      var cutoff: U64 := block - historySize - 1;
      var pin := LowestPinned(openReaders);
      if pin < cutoff {
        cutoff := pin;
      }
      return Some(cutoff);
    }

    /** Stages the deletes of what leaves the window; None leaves the lower bound as it is. */
    method PruneLocked(batch: Bytemap, ghost staged: Db, block: U64) returns (batch': Bytemap, oldest: Option<U64>)
      requires Valid() && Encodes(batch, staged)
      ensures Encodes(batch', PrunedBatch(View(), staged, block))
      ensures var o := NewOldest(oldestRetained, Cutoff(View(), block));
              oldest == if o > oldestRetained then Some(o) else None
    {
      var c := ChooseCutoff(block);
      if c == None {
        return batch, None;
      }
      batch' := PruneTo(db, cells, batch, staged, c.value);
      ghost var pruned := Pruned(cells, staged, c.value);
      var low: U64 := c.value + 1;
      if low <= oldestRetained {
        assert PrunedBatch(View(), staged, block) == pruned;
        return batch', None;
      }
      assert PrunedBatch(View(), staged, block) == pruned[MetaOldest := Num(low)];
      PutEncodes(batch', pruned, MetaOldest, Num(low));
      batch' := batch'[KeyBytes(MetaOldest) := Fixed(low, 8)];
      return batch', Some(low);
    }

    /** One atomic batch: the writes, what they supersede, the prune and the checkpoint. */
    method CommitBlock(block: U64, updates: seq<Update>) returns (ok: bool)
      requires Valid() && AllStorable(updates)
      modifies this
      ensures Valid() && (View(), ok) == PebbleModel.CommitBlock(old(View()), block, updates)
    {
      if hasCheckpoint && block <= currentBlock {
        if block < currentBlock {
          return true;
        }
        ok := VerifyTipReplay(db, cells, updates);
        return;
      }
      Apply(block, updates);
      return true;
    }

    method Apply(block: U64, updates: seq<Update>)
      requires Valid() && AllStorable(updates)
      modifies this
      ensures Valid() && View() == Commit(old(View()), block, updates)
    {
      var batch := StageWrites(db, cells, block, updates);
      ghost var staged := Staged(cells, block, updates);
      var oldest;
      batch, oldest := PruneLocked(batch, staged, block);
      ghost var dated := PrunedBatch(View(), staged, block);
      PutEncodes(batch, dated, MetaBlock, Num(block));
      batch := batch[KeyBytes(MetaBlock) := Fixed(block, 8)];
      db, cells := batch, dated[MetaBlock := Num(block)];
      currentBlock, hasCheckpoint := block, true;
      if oldest.Some? {
        oldestRetained := oldest.value;
      }
    }

    method Handle(b: Block) returns (ok: bool)
      requires Valid() && AllStorable(BlockUpdates(b))
      modifies this
      ensures Valid() && (View(), ok) == PebbleModel.CommitBlock(old(View()), b.number, BlockUpdates(b))
    {
      var updates := CollectBlock(b);
      ok := CommitBlock(b.number, updates);
    }

    /** Pins a height, or refuses one below the window. */
    method NewSnapshot(block: Option<U64>) returns (r: Option<PebbleSnapshot>)
      requires Valid()
      modifies this`openReaders
      ensures r.Some? <==> PebbleModel.NewSnapshot(old(View()), block).Some?
      ensures View() == if r.Some? then PebbleModel.NewSnapshot(old(View()), block).value else old(View())
      ensures r.Some? ==> fresh(r.value) && r.value.owner == this && !r.value.closed
                          && r.value.lastBlock == Height(old(View()), block)
    {
      var bn := currentBlock;
      if block.Some? && block.value < currentBlock {
        bn := block.value;
      }
      if bn < oldestRetained {
        return None;
      }
      openReaders := openReaders[bn := PinCount(openReaders, bn) + 1];
      var s := new PebbleSnapshot(this, bn);
      return Some(s);
    }

    method ReleaseReader(bn: U64)
      modifies this`openReaders
      ensures View() == Release(old(View()), bn)
    {
      var n := PinCount(openReaders, bn);
      if n > 1 {
        openReaders := openReaders[bn := n - 1];
      } else {
        openReaders := openReaders - {bn};
      }
    }
  }

  /** A reader pinned to a height. */
  class PebbleSnapshot {
    const owner: PebbleKVS
    const lastBlock: U64
    var closed: bool

    constructor (owner: PebbleKVS, lastBlock: U64)
      ensures this.owner == owner && this.lastBlock == lastBlock && !closed
    {
      this.owner, this.lastBlock, closed := owner, lastBlock, false;
    }

    /** The current record, if not newer than this reader; else the newest kept one that is not.  None means
        the reader is closed. */
    method Get(k: Key) returns (r: Option<Option<Record>>)
      requires owner.Valid()
      ensures r == None <==> closed
      ensures r.Some? && Hit(owner.cells, k, lastBlock) ==> r.value == Current(owner.cells, k)
      ensures r.Some? && !Hit(owner.cells, k, lastBlock) ==>
                && Found(owner.cells, k, lastBlock, r.value)
                && (Unaliased(owner.cells, k) ==> Scanned(owner.cells, k, lastBlock, r.value))
    {
      if closed {
        return None;
      }
      var rec, _ := CurrentRecord(owner.db, owner.cells, k);
      if rec.Some? && rec.value.block <= lastBlock {
        return Some(rec);
      }
      var kept := ScanHistory(owner.db, owner.cells, k, lastBlock);
      return Some(kept);
    }

    /** Releases the pin, once. */
    method Close()
      modifies this`closed, owner`openReaders
      ensures closed && owner.View() == if old(closed) then old(owner.View()) else Release(old(owner.View()), lastBlock)
    {
      if !closed {
        closed := true;
        owner.ReleaseReader(lastBlock);
      }
    }
  }

  /** The first entry from the complement of the height. */
  method ScanHistory(raw: Bytemap, ghost db: Db, k: Key, h: U64) returns (r: Option<Record>)
    requires Encodes(raw, db)
    ensures Found(db, k, h, r) && (Unaliased(db, k) ==> Scanned(db, k, h, r))
  {
    var keys := NewIterator(raw, HistoryPrefix(k), Fixed(Complement(h), 8));
    if keys == [] {
      forall x: DbKey
        ensures !Met(db, k, h, x)
      {
        if x in db {
          MetInScan(raw, db, k, h, keys, x);
        }
      }
      r := None;
    } else {
      ghost var x := FirstIsMet(raw, db, k, h, keys);
      RecordThere(raw, db, x);
      var d := DecodeRecord(raw[keys[0]]);
      r := Some(d.r);
    }
    if Unaliased(db, k) {
      FoundScanned(db, k, h, r);
    }
  }
}
