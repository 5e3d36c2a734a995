/** The persistent store and the in-memory store answer alike, and both take a block more than once. */
module Parity {
  import opened Prelude
  import opened Records
  import opened WorldLog
  import opened Ledger
  import opened LightModel
  import opened KeyCodec
  import opened PebbleModel
  import opened PebbleSafety
  import opened PebbleRuns
  import LightRuns
  import PebbleSystem

  /** The persistent store after these deliveries, no reader ever open. */
  ghost function PebbleRun(size: int, bs: seq<Block>): Pebble {
    if bs == [] then PebbleModel.Open(map[], size)
    else var n := |bs| - 1; CommitBlock(PebbleRun(size, bs[..n]), bs[n].number, BlockUpdates(bs[n])).0
  }

  lemma {:induction false} RunOk(size: int, bs: seq<Block>)
    ensures var p := PebbleRun(size, bs);
            StoreOk(p, Of(bs)) && p.pins == map[] && p.size == if size <= 0 then 128 else size
  {
    if bs == [] {
      PebbleSystem.FreshInv(size);
    } else {
      var n := |bs| - 1;
      RunOk(size, bs[..n]);
      if IsNew(Of(bs[..n]), bs[n]) {
        CommitOk(PebbleRun(size, bs[..n]), Of(bs[..n]), bs[n]);
      }
    }
  }

  /* ---- at-least-once delivery ---- */

  lemma {:induction false} FinalLatest(log: seq<Update>, ups: seq<Update>, k: Key)
    requires k in Final(ups)
    ensures Latest(log + ups, k).Some?
    ensures var r := Latest(log + ups, k).value; ToRecord(Final(ups)[k], r.version) == r
  {
    var n := |ups| - 1;
    assert (log + ups)[..|log + ups| - 1] == log + ups[..n];
    if ups[n].key != k {
      FinalLatest(log, ups[..n], k);
    }
  }

  lemma CommitReplays(p: Pebble, l: Ledger, b: Block)
    requires StoreOk(p, l) && PinsOk(p) && IsNew(l, b)
    ensures TipReplayOk(Commit(p, b.number, BlockUpdates(b)).db, BlockUpdates(b))
  {
    var ups := BlockUpdates(b);
    var db := Commit(p, b.number, ups).db;
    CommitOk(p, l, b);
    forall k | k in Final(ups)
      ensures Stored(db, Final(ups)[k])
    {
      FinalKey(ups, k);
      FinalLatest(l.log, ups, k);
      assert CellAt(db, DataKey(k)) == RecOf(Latest(l.log + ups, k));
    }
  }

  lemma {:induction false} TipReplays(size: int, bs: seq<Block>) returns (t: Block)
    requires bs != [] && Faithful(bs)
    ensures TipIs(bs, t) && TipReplayOk(PebbleRun(size, bs).db, BlockUpdates(t))
  {
    var n := |bs| - 1;
    var before := bs[..n];
    RunOk(size, before);
    Snoc(bs);
    t := bs[n];
    if n > 0 {
      FaithfulPrefix(bs);
      t := TipReplays(size, before);
      TipNext(before, t, bs[n]);
    }
    if IsNew(Of(before), bs[n]) {
      CommitReplays(PebbleRun(size, before), Of(before), bs[n]);
      t := bs[n];
    }
  }

  lemma {:induction false} RunDedup(size: int, bs: seq<Block>)
    ensures PebbleRun(size, Dedup(bs)) == PebbleRun(size, bs)
  {
    if bs != [] {
      var n := |bs| - 1;
      RunDedup(size, bs[..n]);
      RunOk(size, bs[..n]);
      Append(Dedup(bs[..n]), bs[n]);
      assert Dedup(bs[..n]) + [] == Dedup(bs[..n]);
    }
  }

  /** New blocks mixed with exact repeats: every delivery succeeds, and the store ends as if each block had
      been delivered once. */
  lemma {:induction false} AtLeastOnce(size: int, bs: seq<Block>, b: Block)
    requires Faithful(bs) && (IsNew(Of(bs), b) || b in bs)
    ensures CommitBlock(PebbleRun(size, bs), b.number, BlockUpdates(b)).1
    ensures PebbleRun(size, Dedup(bs)) == PebbleRun(size, bs)
  {
    RunDedup(size, bs);
    RunOk(size, bs);
    if bs != [] {
      var t := TipReplays(size, bs);
    }
  }

  /* ---- the same answers ---- */

  /** What a reader of the persistent store at this height may get for a key. */
  ghost predicate Reads(p: Pebble, block: Option<U64>, k: Key, r: Option<Record>) {
    var h := Height(p, block);
    if Hit(p.db, k, h) then r == Current(p.db, k) else Scanned(p.db, k, h, r)
  }

  lemma {:induction false} PebbleAnswers(p: Pebble, l: Ledger, block: Option<U64>, k: Key, r: Option<Record>)
    requires StoreOk(p, l) && PebbleModel.NewSnapshot(p, block).Some? && Reads(p, block, k, r)
    ensures r == AsOf(l.log, k, if block == None then MAX_U64 else block.value)
  {
    var h := Height(p, block);
    if Hit(p.db, k, h) {
      HitRight(p, l, k, h);
    } else {
      MissIs(p, l, k, h);
      ScanRight(p, l, k, h, r);
    }
    if block == None || block.value >= p.head {
      AsOfTop(l.log, k, h, if block == None then MAX_U64 else block.value);
    }
  }

  /** Whatever was delivered: where both answer a height, they answer alike. */
  lemma {:induction false} SameRecord(size: nat, bs: seq<Block>, block: Option<U64>, k: Key, r: Option<Record>)
    requires size > 0 && (LightRuns.ZeroFree(LightRuns.States(bs)) || block != Some(0))
    requires LightModel.NewSnapshot(Run(NewLight(size), bs), block).Some?
    requires PebbleModel.NewSnapshot(PebbleRun(size, bs), block).Some? && Reads(PebbleRun(size, bs), block, k, r)
    ensures r == Lookup(LightModel.NewSnapshot(Run(NewLight(size), bs), block).value.data, k)
  {
    RunOk(size, bs);
    PebbleAnswers(PebbleRun(size, bs), Of(bs), block, k, r);
    LightRuns.RunAnswers(size, bs, block, k);
  }

  /* ---- the same heights ---- */

  /** Blocks 1, 2, 3 and so on. */
  ghost predicate Contiguous(bs: seq<Block>) {
    forall i :: 0 <= i < |bs| ==> bs[i].number == i + 1
  }

  lemma {:induction false} ContiguousStates(bs: seq<Block>)
    requires Contiguous(bs)
    ensures Of(bs).tip == |bs| && Of(bs).started == (bs != []) && |LightRuns.States(bs)| == |bs| + 1
    ensures forall i :: 0 <= i <= |bs| ==> LightRuns.States(bs)[i].block == i
  {
    if bs != [] {
      ContiguousStates(bs[..|bs| - 1]);
    }
  }

  /** The lower bound after one more block, no reader open. */
  lemma OldestNext(p: Pebble, b: Block)
    requires p.pins == map[] && p.size > 0 && (p.started ==> b.number > p.head)
    requires b.number == 0 || p.oldest == if b.number - 1 > p.size then b.number - 1 - p.size else 0
    requires b.number == 0 ==> p.oldest == 0
    ensures CommitBlock(p, b.number, BlockUpdates(b)).0.oldest == if b.number > p.size then b.number - p.size else 0
  {
  }

  lemma {:induction false} ContiguousOldest(size: nat, bs: seq<Block>)
    requires size > 0 && Contiguous(bs)
    ensures PebbleRun(size, bs).oldest == if |bs| > size then |bs| - size else 0
  {
    if bs != [] {
      var n := |bs| - 1;
      ContiguousOldest(size, bs[..n]);
      RunOk(size, bs[..n]);
      ContiguousStates(bs[..n]);
      OldestNext(PebbleRun(size, bs[..n]), bs[n]);
    }
  }

  lemma {:induction false} LightHeights(size: nat, bs: seq<Block>, block: U64)
    requires size > 0 && Contiguous(bs)
    ensures LightModel.NewSnapshot(Run(NewLight(size), bs), Some(block)).Some? <==>
              block >= |bs| || block + size >= |bs|
  {
    var s, T := Run(NewLight(size), bs), LightRuns.States(bs);
    ContiguousStates(bs);
    LightRuns.RunInv(size, bs);
    LightRuns.RunAnswers(size, bs, Some(block), []);
    if block < |bs| && block + size >= |bs| {
      assert LightRuns.Retained(s, T, block) && T[block].block == block;
    }
  }

  /** Blocks from 1 on without gaps, equal history sizes, no readers: both stores accept the same heights and give the
      same record for every key. */
  lemma {:induction false} SameAnswers(size: nat, bs: seq<Block>, block: Option<U64>, k: Key, r: Option<Record>)
    requires size > 0 && Contiguous(bs)
    ensures var s, p := Run(NewLight(size), bs), PebbleRun(size, bs);
            && (LightModel.NewSnapshot(s, block).Some? <==> PebbleModel.NewSnapshot(p, block).Some?)
            && (PebbleModel.NewSnapshot(p, block).Some? && Reads(p, block, k, r) ==>
                  r == Lookup(LightModel.NewSnapshot(s, block).value.data, k))
  {
    var s, p := Run(NewLight(size), bs), PebbleRun(size, bs);
    ContiguousStates(bs);
    ContiguousOldest(size, bs);
    RunOk(size, bs);
    if block.Some? {
      LightHeights(size, bs, block.value);
    }
    if PebbleModel.NewSnapshot(p, block).Some? && Reads(p, block, k, r) {
      SameRecord(size, bs, block, k, r);
    }
  }

  /* ---- with readers between the commits ---- */

  /** No reader is open at a commit, and a restart keeps the history size. */
  ghost predicate Quiet(size: int, s: PebbleSystem.System, os: seq<PebbleSystem.Occurrence>)
    decreases |os|
  {
    os == [] ||
      (&& (os[0].e.Deliver? ==> s.readers == map[]) && (os[0].e.Restart? ==> os[0].e.size == size)
       && Quiet(size, os[0].after, os[1..]))
  }

  function Delivered(os: seq<PebbleSystem.Occurrence>): seq<Block> {
    if os == [] then [] else (if os[0].e.Deliver? then [os[0].e.b] else []) + Delivered(os[1..])
  }

  function Reached(s: PebbleSystem.System, os: seq<PebbleSystem.Occurrence>): PebbleSystem.System {
    if os == [] then s else os[|os| - 1].after
  }

  lemma ReachedTail(s: PebbleSystem.System, os: seq<PebbleSystem.Occurrence>)
    requires os != []
    ensures Reached(s, os) == Reached(os[0].after, os[1..])
  {
  }

  /** Without readers there are no pins. */
  lemma NoPins(s: PebbleSystem.System)
    requires PebbleSystem.Inv(s) && s.readers == map[]
    ensures s.p.pins == map[]
  {
    forall h: U64
      ensures h !in s.p.pins
    {
      assert PinCount(s.p.pins, h) == |PebbleSystem.ReadersAt(s.readers, h)|;
      assert PebbleSystem.ReadersAt(s.readers, h) == {};
    }
  }

  /** One event: but for pins, only a delivery changes the store. */
  lemma {:induction false} QuietStep(size: int, s: PebbleSystem.System, bs: seq<Block>, o: PebbleSystem.Occurrence)
    requires PebbleSystem.Inv(s) && PebbleSystem.Next(s, o.e, o.after, o.out)
    requires (o.e.Deliver? ==> s.readers == map[]) && (o.e.Restart? ==> o.e.size == size)
    requires s.p.(pins := map[]) == PebbleRun(size, bs)
    ensures o.after.p.(pins := map[]) == PebbleRun(size, bs + if o.e.Deliver? then [o.e.b] else [])
  {
    if o.e.Deliver? {
      NoPins(s);
      Append(bs, o.e.b);
      assert s.p == s.p.(pins := map[]);
    } else {
      assert bs + [] == bs;
      if o.e.Restart? {
        RunOk(size, bs);
        PebbleSystem.RestartInv(s, size);
      }
    }
  }

  lemma {:induction false} QuietRun(size: int, s: PebbleSystem.System, bs: seq<Block>,
                                    os: seq<PebbleSystem.Occurrence>)
    requires PebbleSystem.Inv(s) && PebbleSystem.Trace(s, os) && Quiet(size, s, os)
    requires s.p.(pins := map[]) == PebbleRun(size, bs)
    ensures Reached(s, os).p.(pins := map[]) == PebbleRun(size, bs + Delivered(os))
    decreases |os|
  {
    if os == [] {
      assert bs + [] == bs;
    } else {
      var o := os[0];
      var b := if o.e.Deliver? then [o.e.b] else [];
      assert PebbleSystem.Inv(o.after) by {
        PebbleSystem.OccurrenceRight(s, o);
      }
      assert o.after.p.(pins := map[]) == PebbleRun(size, bs + b) by {
        QuietStep(size, s, bs, o);
      }
      QuietRun(size, o.after, bs + b, os[1..]);
      Associate(bs, b, Delivered(os[1..]));
      ReachedTail(s, os);
    }
  }

  /** What is answered does not depend on the pins. */
  lemma PinsAside(p: Pebble, block: Option<U64>, k: Key, r: Option<Record>)
    ensures PebbleModel.NewSnapshot(p, block).Some? <==> PebbleModel.NewSnapshot(p.(pins := map[]), block).Some?
    ensures Reads(p, block, k, r) <==> Reads(p.(pins := map[]), block, k, r)
  {
  }

  /** Readers, restarts and reads in any order between commits of blocks from 1 on without gaps, equal history sizes,
      no reader open at a commit: both stores accept the same heights and give the same record for every key. */
  lemma {:induction false} SameAnswersBetween(size: nat, os: seq<PebbleSystem.Occurrence>, block: Option<U64>, k: Key,
                                              r: Option<Record>)
    requires size > 0 && PebbleSystem.Trace(PebbleSystem.NewSystem(size), os)
    requires Quiet(size, PebbleSystem.NewSystem(size), os) && Contiguous(Delivered(os))
    ensures var s, p := Run(NewLight(size), Delivered(os)), Reached(PebbleSystem.NewSystem(size), os).p;
            && (LightModel.NewSnapshot(s, block).Some? <==> PebbleModel.NewSnapshot(p, block).Some?)
            && (PebbleModel.NewSnapshot(p, block).Some? && Reads(p, block, k, r) ==>
                  r == Lookup(LightModel.NewSnapshot(s, block).value.data, k))
  {
    var s := PebbleSystem.NewSystem(size);
    PebbleSystem.FreshInv(size);
    assert s.p.(pins := map[]) == PebbleRun(size, []);
    QuietRun(size, s, [], os);
    assert [] + Delivered(os) == Delivered(os);
    PinsAside(Reached(s, os).p, block, k, r);
    SameAnswers(size, Delivered(os), block, k, r);
  }
}
