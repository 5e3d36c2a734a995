/** What one commit keeps, and what each half of a read finds. */
module PebbleRuns {
  import opened Prelude
  import opened Records
  import opened WorldLog
  import opened Ledger
  import opened LogTime
  import opened KeyCodec
  import opened PebbleModel
  import opened PebbleSafety

  /* ---- commits ---- */

  lemma CutoffIs(p: Pebble, block: U64)
    requires p.size > 0
    ensures Cutoff(p, block).Some? ==>
              && Cutoff(p, block).value < block && Cutoff(p, block).value < MAX_U64
              && forall h :: h in p.pins ==> Cutoff(p, block).value <= h
  {
    LowestIs(p.pins.Keys);
  }

  lemma UnderNew(l: Ledger, b: Block)
    requires LedgerOk(l) && IsNew(l, b)
    ensures AllUnder(l.log, b.number)
  {
  }

  /** The database after a commit, before the reserved keys are written. */
  ghost function CommitDb(p: Pebble, block: U64, ups: seq<Update>): Db {
    var batch, cutoff := Staged(p.db, block, ups), Cutoff(p, block);
    if cutoff.Some? then Pruned(p.db, batch, cutoff.value) else batch
  }

  lemma CommitDbOk(p: Pebble, l: Ledger, b: Block)
    requires StoreOk(p, l) && IsNew(l, b)
    ensures var db := CommitDb(p, b.number, BlockUpdates(b));
            var log', oldest' := l.log + BlockUpdates(b), NewOldest(p.oldest, Cutoff(p, b.number));
            DataOk(db, log') && HistOk(db, log', oldest') && IndexOk(db, log', oldest') && SameMeta(p.db, db)
  {
    var ups, block := BlockUpdates(b), b.number;
    TxUpdatesAt(block, b.txs);
    UnderNew(l, b);
    var batch := Staged(p.db, block, ups);
    StagedIs(p.db, l.log, block, ups);
    HistNext(p.db, batch, l.log, ups, block, p.oldest);
    IndexNext(p.db, batch, l.log, ups, block, p.oldest);
    CutoffIs(p, block);
    if Cutoff(p, block).Some? {
      var cutoff := Cutoff(p, block).value;
      HistPruned(p.db, batch, l.log, ups, block, p.oldest, cutoff);
      IndexPruned(p.db, batch, l.log, ups, block, p.oldest, cutoff);
      OtherPruned(p.db, batch, cutoff);
    }
  }

  /** Writing reserved keys changes nothing else. */
  lemma MetaApart(db: Db, x: DbKey, cell: Cell, log: seq<Update>, oldest: U64)
    requires x.MetaBlock? || x.MetaOldest?
    requires DataOk(db, log) && HistOk(db, log, oldest) && IndexOk(db, log, oldest)
    ensures var db' := db[x := cell]; DataOk(db', log) && HistOk(db', log, oldest) && IndexOk(db', log, oldest)
  {
    var db' := db[x := cell];
    assert forall k :: CellAt(db', DataKey(k)) == CellAt(db, DataKey(k));
    assert forall k: Key, b: U64, t: U64 :: CellAt(db', HistKey(k, b, t)) == CellAt(db, HistKey(k, b, t));
    assert forall c: U64, k: Key, b: U64, t: U64 ::
        CellAt(db', IndexKey(c, k, b, t)) == CellAt(db, IndexKey(c, k, b, t));
  }

  /** A commit keeps the database in step with the log; the lower bound never falls and never passes a pin. */
  lemma CommitOk(p: Pebble, l: Ledger, b: Block)
    requires StoreOk(p, l) && PinsOk(p) && IsNew(l, b)
    ensures var p' := Commit(p, b.number, BlockUpdates(b));
            StoreOk(p', Extend(l, b)) && PinsOk(p') && p'.oldest >= p.oldest && p'.pins == p.pins && p'.size == p.size
  {
    var ups, block := BlockUpdates(b), b.number;
    var db, oldest' := CommitDb(p, block, ups), NewOldest(p.oldest, Cutoff(p, block));
    var log' := l.log + ups;
    CommitDbOk(p, l, b);
    CutoffIs(p, block);
    UnderNew(l, b);
    TxUpdatesAt(block, b.txs);
    SortedExtend(l.log, ups, block);
    var dated := if oldest' > p.oldest then db[MetaOldest := Num(oldest')] else db;
    if oldest' > p.oldest {
      MetaApart(db, MetaOldest, Num(oldest'), log', oldest');
    }
    MetaApart(dated, MetaBlock, Num(block), log', oldest');
    assert LedgerOk(Extend(l, b));
  }

  /* ---- reading ---- */

  /** The first read settles it rightly. */
  lemma {:induction false} HitRight(p: Pebble, l: Ledger, k: Key, h: U64)
    requires StoreOk(p, l) && Hit(p.db, k, h)
    ensures Current(p.db, k) == AsOf(l.log, k, h)
  {
    assert CellAt(p.db, DataKey(k)) == RecOf(Latest(l.log, k));
    var r := Latest(l.log, k).value;
    AsOfBlock(l.log, k, MAX_U64);
    AsOfMono(l.log, k, r.block, h);
    AsOfMono(l.log, k, h, MAX_U64);
    AsOfBlock(l.log, k, h);
  }

  /** The key was unwritten, or written above h, when last looked at. */
  ghost predicate Missed(log: seq<Update>, k: Key, h: U64) {
    Latest(log, k) == None || Latest(log, k).value.block > h
  }

  lemma MissIs(p: Pebble, l: Ledger, k: Key, h: U64)
    requires StoreOk(p, l) && !Hit(p.db, k, h)
    ensures Missed(l.log, k, h)
  {
    assert CellAt(p.db, DataKey(k)) == RecOf(Latest(l.log, k));
  }

  /** The write in force at h, if any, is superseded in no block below the lower bound. */
  ghost predicate StillKept(log: seq<Update>, oldest: U64, k: Key, h: U64) {
    AsOf(log, k, h).Some? && Missed(log, k, h) ==>
      var next := NextBlock(log, k, AsOf(log, k, h).value.block);
      next.Some? && next.value >= oldest
  }

  /** At an answerable height it is. */
  lemma {:induction false} AnswerableKept(log: seq<Update>, oldest: U64, k: Key, h: U64)
    requires Sorted(log) && oldest <= h + 1
    ensures StillKept(log, oldest, k, h)
  {
    if AsOf(log, k, h).Some? && Missed(log, k, h) {
      AsOfMono(log, k, h, MAX_U64);
      AsOfBlock(log, k, h);
      NextIff(log, k, AsOf(log, k, h).value.block);
      NextAbove(log, k, h);
    }
  }

  /** Then it is the newest kept record. */
  lemma {:induction false} KeptAt(p: Pebble, l: Ledger, k: Key, h: U64)
    requires StoreOk(p, l) && StillKept(l.log, p.oldest, k, h) && Missed(l.log, k, h) && AsOf(l.log, k, h).Some?
    ensures var r := AsOf(l.log, k, h).value;
            Newest(p.db, k, h, r.block, r.tx) && RecordAt(p.db, HistKey(k, r.block, r.tx)) == Some(r)
  {
    var r := AsOf(l.log, k, h).value;
    AsOfBlock(l.log, k, h);
    assert Kept(l.log, p.oldest, k, r.block, r.tx);
    assert CellAt(p.db, HistKey(k, r.block, r.tx)) == Some(Rec(r));
    forall b: U64, t: U64 | HistKey(k, b, t) in p.db && b <= h
      ensures b < r.block || (b == r.block && t <= r.tx)
    {
      assert CellAt(p.db, HistKey(k, b, t)).Some?;
      assert Kept(l.log, p.oldest, k, b, t);
      AsOfMono(l.log, k, b, h);
    }
  }

  lemma {:induction false} NothingKept(p: Pebble, l: Ledger, k: Key, h: U64, b: U64, t: U64)
    requires StoreOk(p, l) && AsOf(l.log, k, h) == None && HistKey(k, b, t) in p.db
    ensures b > h
  {
    assert CellAt(p.db, HistKey(k, b, t)).Some?;
    assert Kept(l.log, p.oldest, k, b, t);
    if b <= h {
      AsOfMono(l.log, k, b, h);
    }
  }

  /** What the scan of the history finds while the write in force is kept. */
  lemma {:induction false} ScanKept(p: Pebble, l: Ledger, k: Key, h: U64, r: Option<Record>)
    requires StoreOk(p, l) && StillKept(l.log, p.oldest, k, h) && Missed(l.log, k, h) && Scanned(p.db, k, h, r)
    ensures r == AsOf(l.log, k, h)
  {
    if AsOf(l.log, k, h).Some? {
      KeptAt(p, l, k, h);
      var x := AsOf(l.log, k, h).value;
      if r.Some? {
        var b: U64, t: U64 :| Newest(p.db, k, h, b, t) && RecordAt(p.db, HistKey(k, b, t)) == r;
        assert b == x.block && t == x.tx;
      }
    } else if r.Some? {
      var b: U64, t: U64 :| Newest(p.db, k, h, b, t) && RecordAt(p.db, HistKey(k, b, t)) == r;
      NothingKept(p, l, k, h, b, t);
    }
  }

  /** A scan finds kept records only. */
  lemma {:induction false} FoundKept(p: Pebble, l: Ledger, k: Key, h: U64, r: Option<Record>)
    requires StoreOk(p, l) && Missed(l.log, k, h) && Scanned(p.db, k, h, r)
    requires r == AsOf(l.log, k, h)
    ensures StillKept(l.log, p.oldest, k, h)
  {
    if r.Some? {
      var b: U64, t: U64 :| Newest(p.db, k, h, b, t) && RecordAt(p.db, HistKey(k, b, t)) == r;
      assert CellAt(p.db, HistKey(k, b, t)).Some?;
      assert Kept(l.log, p.oldest, k, b, t);
      assert CellAt(p.db, HistKey(k, b, t)) == Some(Rec(AsOf(l.log, k, b).value));
    }
  }

  /** A scan is right, however late it runs, if and only if the write in force at its height is still kept. */
  lemma {:induction false} ScanRightIff(p: Pebble, l: Ledger, k: Key, h: U64, r: Option<Record>)
    requires StoreOk(p, l) && Missed(l.log, k, h) && Scanned(p.db, k, h, r)
    ensures r == AsOf(l.log, k, h) <==> StillKept(l.log, p.oldest, k, h)
  {
    if StillKept(l.log, p.oldest, k, h) {
      ScanKept(p, l, k, h, r);
    } else if r == AsOf(l.log, k, h) {
      FoundKept(p, l, k, h, r);
    }
  }

  /** The scan of the history settles it rightly, whenever it runs while the height is answerable. */
  lemma {:induction false} ScanRight(p: Pebble, l: Ledger, k: Key, h: U64, r: Option<Record>)
    requires StoreOk(p, l) && p.oldest <= h + 1 && Missed(l.log, k, h) && Scanned(p.db, k, h, r)
    ensures r == AsOf(l.log, k, h)
  {
    AnswerableKept(l.log, p.oldest, k, h);
    ScanKept(p, l, k, h, r);
  }
}
