/** What the database says about the log, and that every commit keeps it so. */
module PebbleSafety {
  import opened Prelude
  import opened Records
  import opened WorldLog
  import opened Ledger
  import opened LogTime
  import opened KeyCodec
  import opened PebbleModel

  /** A write that was the last of its block for k, superseded by a block from oldest on. */
  ghost predicate Kept(log: seq<Update>, oldest: U64, k: Key, b: U64, t: U64) {
    && AsOf(log, k, b).Some? && AsOf(log, k, b).value.block == b && AsOf(log, k, b).value.tx == t
    && NextBlock(log, k, b).Some? && NextBlock(log, k, b).value >= oldest
  }

  /** The current record of every key is the log's latest. */
  ghost predicate DataOk(db: Db, log: seq<Update>) {
    forall k :: CellAt(db, DataKey(k)) == RecOf(Latest(log, k))
  }

  function RecOf(r: Option<Record>): Option<Cell> {
    if r == None then None else Some(Rec(r.value))
  }

  /** The history is exactly the superseded writes from oldest on. */
  ghost predicate HistOk(db: Db, log: seq<Update>, oldest: U64) {
    forall k: Key, b: U64, t: U64 ::
      CellAt(db, HistKey(k, b, t)) == if Kept(log, oldest, k, b, t) then Some(Rec(AsOf(log, k, b).value)) else None
  }

  /** The index names each of them once, under the block that superseded it. */
  ghost predicate IndexOk(db: Db, log: seq<Update>, oldest: U64) {
    forall c: U64, k: Key, b: U64, t: U64 ::
      CellAt(db, IndexKey(c, k, b, t)) ==
        if Kept(log, oldest, k, b, t) && NextBlock(log, k, b) == Some(c) then Some(Nothing) else None
  }

  /** The reserved keys hold what is in memory. */
  ghost predicate MetaOk(p: Pebble) {
    && (p.started <==> MetaBlock in p.db) && (p.started ==> p.db[MetaBlock] == Num(p.head))
    && (!p.started ==> p.head == 0 && p.oldest == 0)
    && (MetaOldest in p.db ==> p.db[MetaOldest] == Num(p.oldest)) && (MetaOldest !in p.db ==> p.oldest == 0)
    && p.oldest <= p.head && p.size > 0
  }

  /** A pinned height is still answerable. */
  ghost predicate PinsOk(p: Pebble) {
    forall h :: h in p.pins ==> p.pins[h] > 0 && h <= p.head && p.oldest <= h + 1
  }

  ghost predicate StoreOk(p: Pebble, l: Ledger) {
    && LedgerOk(l) && Sorted(l.log) && p.started == l.started && p.head == l.tip
    && DataOk(p.db, l.log) && HistOk(p.db, l.log, p.oldest) && IndexOk(p.db, l.log, p.oldest) && MetaOk(p)
  }

  /* ---- staging ---- */

  /** The latest record of a key these writes touch. */
  ghost predicate Fresh(log: seq<Update>, ups: seq<Update>, k: Key, b: U64, t: U64) {
    Wrote(ups, k) && IsLatest(log, k, b, t)
  }

  predicate IsLatest(log: seq<Update>, k: Key, b: U64, t: U64) {
    Latest(log, k).Some? && Latest(log, k).value.block == b && Latest(log, k).value.tx == t
  }

  ghost predicate StagedHist(db: Db, batch: Db, log: seq<Update>, ups: seq<Update>) {
    forall k: Key, b: U64, t: U64 ::
      CellAt(batch, HistKey(k, b, t)) ==
        if Fresh(log, ups, k, b, t) then Some(Rec(Latest(log, k).value)) else CellAt(db, HistKey(k, b, t))
  }

  ghost predicate StagedIndex(db: Db, batch: Db, log: seq<Update>, block: U64, ups: seq<Update>) {
    forall c: U64, k: Key, b: U64, t: U64 ::
      CellAt(batch, IndexKey(c, k, b, t)) ==
        if c == block && Fresh(log, ups, k, b, t) then Some(Nothing) else CellAt(db, IndexKey(c, k, b, t))
  }

  ghost predicate SameMeta(db: Db, batch: Db) {
    CellAt(batch, MetaBlock) == CellAt(db, MetaBlock) && CellAt(batch, MetaOldest) == CellAt(db, MetaOldest)
  }

  lemma DataNext(batch: Db, log: seq<Update>, u: Update)
    requires DataOk(batch, log)
    ensures var last := Current(batch, u.key);
            var v := if last == None then 0 else Inc(last.value.version);
            DataOk(batch[DataKey(u.key) := Rec(ToRecord(u, v))], log + [u])
  {
    Append(log, u);
    CountZero(log, u.key);
    assert CellAt(batch, DataKey(u.key)) == RecOf(Latest(log, u.key));
    if Latest(log, u.key).Some? {
      LatestVersion(log, u.key);
      WrapInc(WriteCount(log, u.key) - 1);
    }
    forall k
      ensures Latest(log + [u], k) == if k == u.key then Some(ToRecord(u, Wrap(WriteCount(log, k)))) else Latest(log, k)
    {
    }
  }

  lemma StageData(db: Db, batch: Db, log: seq<Update>, block: U64, first: bool, u: Update)
    requires DataOk(batch, log)
    ensures DataOk(StageOne(db, batch, block, first, u), log + [u])
  {
    DataNext(batch, log, u);
    var batch' := StageOne(db, batch, block, first, u);
    var plain := batch[DataKey(u.key) := batch'[DataKey(u.key)]];
    assert forall k :: CellAt(batch', DataKey(k)) == CellAt(plain, DataKey(k));
  }

  /** One more write of the block. */
  lemma StageNext(db: Db, batch: Db, log: seq<Update>, block: U64, ups: seq<Update>, u: Update)
    requires DataOk(db, log)
    requires StagedHist(db, batch, log, ups) && StagedIndex(db, batch, log, block, ups) && SameMeta(db, batch)
    ensures var batch' := StageOne(db, batch, block, !Wrote(ups, u.key), u);
            && StagedHist(db, batch', log, ups + [u]) && StagedIndex(db, batch', log, block, ups + [u])
            && SameMeta(db, batch')
  {
    Append(ups, u);
    assert CellAt(db, DataKey(u.key)) == RecOf(Latest(log, u.key));
    forall k: Key, b: U64, t: U64
      ensures Fresh(log, ups + [u], k, b, t) <==> Fresh(log, ups, k, b, t) || (k == u.key && IsLatest(log, k, b, t))
    {
    }
  }

  lemma {:induction false} StagedIs(db: Db, log: seq<Update>, block: U64, ups: seq<Update>)
    requires DataOk(db, log)
    ensures var batch := Staged(db, block, ups);
            DataOk(batch, log + ups) && StagedHist(db, batch, log, ups) && StagedIndex(db, batch, log, block, ups)
            && SameMeta(db, batch)
  {
    if ups == [] {
      assert log + ups == log;
    } else {
      var n := |ups| - 1;
      Snoc(ups);
      Associate(log, ups[..n], [ups[n]]);
      StagedIs(db, log, block, ups[..n]);
      StageData(db, Staged(db, block, ups[..n]), log + ups[..n], block, !Wrote(ups[..n], ups[n].key), ups[n]);
      StageNext(db, Staged(db, block, ups[..n]), log, block, ups[..n], ups[n]);
    }
  }

  /* ---- one more block ---- */

  ghost predicate AllUnder(log: seq<Update>, block: U64) {
    forall i :: 0 <= i < |log| ==> log[i].block < block
  }

  lemma {:induction false} LatestUnder(log: seq<Update>, k: Key, block: U64)
    requires AllUnder(log, block)
    ensures Latest(log, k).Some? ==> Latest(log, k).value.block < block
  {
    if log != [] {
      LatestUnder(log[..|log| - 1], k, block);
    }
  }

  /** The writes kept after one more block: those kept before, and what the block supersedes. */
  lemma {:induction false} KeptNext(log: seq<Update>, ups: seq<Update>, block: U64, oldest: U64, k: Key, b: U64, t: U64)
    requires Sorted(log) && AllUnder(log, block) && AllAt(ups, block) && oldest <= block
    ensures Kept(log + ups, oldest, k, b, t) <==> Kept(log, oldest, k, b, t) || Fresh(log, ups, k, b, t)
    ensures Fresh(log, ups, k, b, t) ==>
              AsOf(log + ups, k, b) == Latest(log, k) && NextBlock(log + ups, k, b) == Some(block)
    ensures Kept(log, oldest, k, b, t) ==>
              AsOf(log + ups, k, b) == AsOf(log, k, b) && NextBlock(log + ups, k, b) == NextBlock(log, k, b)
    ensures !(Kept(log, oldest, k, b, t) && Fresh(log, ups, k, b, t))
  {
    NextExtend(log, ups, block, k, b);
    NextIff(log, k, b);
    LatestUnder(log, k, block);
    if b < block {
      AsOfEarlier(log, ups, k, b);
      AsOfBlock(log, k, MAX_U64);
      if AsOf(log, k, b).Some? && NextBlock(log, k, b) == None {
        LatestIs(log, k, b);
      }
    }
  }

  lemma HistNext(db: Db, batch: Db, log: seq<Update>, ups: seq<Update>, block: U64, oldest: U64)
    requires Sorted(log) && AllUnder(log, block) && AllAt(ups, block) && oldest <= block
    requires HistOk(db, log, oldest) && StagedHist(db, batch, log, ups)
    ensures HistOk(batch, log + ups, oldest)
  {
    forall k: Key, b: U64, t: U64
      ensures CellAt(batch, HistKey(k, b, t)) ==
                if Kept(log + ups, oldest, k, b, t) then Some(Rec(AsOf(log + ups, k, b).value)) else None
    {
      KeptNext(log, ups, block, oldest, k, b, t);
      assert CellAt(db, HistKey(k, b, t)) ==
        if Kept(log, oldest, k, b, t) then Some(Rec(AsOf(log, k, b).value)) else None;
    }
  }

  lemma IndexNext(db: Db, batch: Db, log: seq<Update>, ups: seq<Update>, block: U64, oldest: U64)
    requires Sorted(log) && AllUnder(log, block) && AllAt(ups, block) && oldest <= block
    requires IndexOk(db, log, oldest) && StagedIndex(db, batch, log, block, ups)
    ensures IndexOk(batch, log + ups, oldest)
  {
    forall c: U64, k: Key, b: U64, t: U64
      ensures CellAt(batch, IndexKey(c, k, b, t)) ==
                if Kept(log + ups, oldest, k, b, t) && NextBlock(log + ups, k, b) == Some(c) then Some(Nothing)
                else None
    {
      KeptNext(log, ups, block, oldest, k, b, t);
      assert CellAt(db, IndexKey(c, k, b, t)) ==
        if Kept(log, oldest, k, b, t) && NextBlock(log, k, b) == Some(c) then Some(Nothing) else None;
    }
  }

  /* ---- pruning ---- */

  /** Raising the bound drops exactly the writes superseded at or below the cutoff. */
  lemma {:induction false} KeptRaise(log: seq<Update>, oldest: U64, cutoff: U64, k: Key, b: U64, t: U64)
    requires cutoff < MAX_U64
    ensures Kept(log, NewOldest(oldest, Some(cutoff)), k, b, t) <==>
              Kept(log, oldest, k, b, t) && NextBlock(log, k, b).value > cutoff
  {
  }

  /** The committed index dates a kept write just as the log does, up to the cutoff. */
  lemma {:induction false} AgedIff(db: Db, log: seq<Update>, ups: seq<Update>, block: U64, oldest: U64, cutoff: U64,
                                   k: Key, b: U64, t: U64)
    requires Sorted(log) && AllUnder(log, block) && AllAt(ups, block) && oldest <= block && cutoff < block
    requires IndexOk(db, log, oldest)
    ensures Kept(log + ups, oldest, k, b, t) ==>
              (Aged(db, HistKey(k, b, t), cutoff) <==> NextBlock(log + ups, k, b).value <= cutoff)
    ensures !Kept(log + ups, oldest, k, b, t) ==> !Aged(db, HistKey(k, b, t), cutoff)
  {
    KeptNext(log, ups, block, oldest, k, b, t);
    forall c: U64
      ensures IndexKey(c, k, b, t) in db <==> Kept(log, oldest, k, b, t) && NextBlock(log, k, b) == Some(c)
    {
      assert CellAt(db, IndexKey(c, k, b, t)) ==
        if Kept(log, oldest, k, b, t) && NextBlock(log, k, b) == Some(c) then Some(Nothing) else None;
    }
  }

  lemma HistPruned(db: Db, batch: Db, log: seq<Update>, ups: seq<Update>, block: U64, oldest: U64, cutoff: U64)
    requires Sorted(log) && AllUnder(log, block) && AllAt(ups, block) && oldest <= block && cutoff < block
    requires IndexOk(db, log, oldest) && HistOk(batch, log + ups, oldest)
    ensures HistOk(Pruned(db, batch, cutoff), log + ups, NewOldest(oldest, Some(cutoff)))
  {
    var log', oldest', pruned := log + ups, NewOldest(oldest, Some(cutoff)), Pruned(db, batch, cutoff);
    forall k: Key, b: U64, t: U64
      ensures CellAt(pruned, HistKey(k, b, t)) ==
                if Kept(log', oldest', k, b, t) then Some(Rec(AsOf(log', k, b).value)) else None
    {
      KeptRaise(log', oldest, cutoff, k, b, t);
      AgedIff(db, log, ups, block, oldest, cutoff, k, b, t);
      assert CellAt(batch, HistKey(k, b, t)) ==
        if Kept(log', oldest, k, b, t) then Some(Rec(AsOf(log', k, b).value)) else None;
    }
  }

  lemma IndexPruned(db: Db, batch: Db, log: seq<Update>, ups: seq<Update>, block: U64, oldest: U64, cutoff: U64)
    requires Sorted(log) && AllUnder(log, block) && AllAt(ups, block) && oldest <= block && cutoff < block
    requires IndexOk(db, log, oldest) && IndexOk(batch, log + ups, oldest)
    ensures IndexOk(Pruned(db, batch, cutoff), log + ups, NewOldest(oldest, Some(cutoff)))
  {
    var log', oldest', pruned := log + ups, NewOldest(oldest, Some(cutoff)), Pruned(db, batch, cutoff);
    forall c: U64, k: Key, b: U64, t: U64
      ensures CellAt(pruned, IndexKey(c, k, b, t)) ==
                if Kept(log', oldest', k, b, t) && NextBlock(log', k, b) == Some(c) then Some(Nothing) else None
    {
      KeptRaise(log', oldest, cutoff, k, b, t);
      KeptNext(log, ups, block, oldest, k, b, t);
      assert CellAt(batch, IndexKey(c, k, b, t)) ==
        if Kept(log', oldest, k, b, t) && NextBlock(log', k, b) == Some(c) then Some(Nothing) else None;
      assert CellAt(db, IndexKey(c, k, b, t)) ==
        if Kept(log, oldest, k, b, t) && NextBlock(log, k, b) == Some(c) then Some(Nothing) else None;
    }
  }

  lemma OtherPruned(db: Db, batch: Db, cutoff: U64)
    ensures SameMeta(batch, Pruned(db, batch, cutoff))
    ensures forall k :: CellAt(Pruned(db, batch, cutoff), DataKey(k)) == CellAt(batch, DataKey(k))
  {
  }
}
