/** The ring of snapshots answers every retained height as the full log does. */
module LightRuns {
  import opened Prelude
  import opened Records
  import opened WorldLog
  import opened Ledger
  import opened LightModel

  /** The snapshot holds, for every key, the last write at or below its height. */
  ghost predicate At(sn: Snapshot, log: seq<Update>) {
    forall k :: Lookup(sn.data, k) == AsOf(log, k, sn.block)
  }

  /** Every state the store went through, the placeholder first. */
  ghost predicate Timeline(T: seq<Snapshot>, l: Ledger) {
    && T != [] && T[0] == Before && (l.started <==> |T| > 1) && T[|T| - 1].block == l.tip
    && (forall i :: 1 <= i < |T| ==> !T[i].placeholder && At(T[i], l.log))
    && (forall i, j :: 1 <= i < j < |T| ==> T[i].block < T[j].block)
    && (ZeroFree(T) ==> At(T[0], l.log))
    && Denotes(T[|T| - 1].data, l.log)
  }

  /** The first block was not block 0, whose height the placeholder has too. */
  predicate ZeroFree(T: seq<Snapshot>) {
    |T| > 1 ==> T[1].block > 0
  }

  lemma StaysAt(sn: Snapshot, log: seq<Update>, ups: seq<Update>)
    requires At(sn, log) && AllAbove(ups, sn.block)
    ensures At(sn, log + ups)
  {
    forall k
      ensures Lookup(sn.data, k) == AsOf(log + ups, k, sn.block)
    {
      AsOfEarlier(log, ups, k, sn.block);
    }
  }

  lemma NewAt(data: map<Key, Record>, log: seq<Update>, block: U64)
    requires Denotes(data, log) && AllBelow(log, block)
    ensures At(Snapshot(block, data, false), log)
  {
    forall k
      ensures Lookup(data, k) == AsOf(log, k, block)
    {
      AsOfTop(log, k, MAX_U64, block);
    }
  }

  function Next(T: seq<Snapshot>, b: Block): Snapshot
    requires T != []
  {
    Snapshot(b.number, ApplyAll(T[|T| - 1].data, BlockUpdates(b)), false)
  }

  /** A new block extends the timeline. */
  lemma TimelineNext(T: seq<Snapshot>, l: Ledger, b: Block)
    requires Timeline(T, l) && LedgerOk(l) && IsNew(l, b)
    ensures Timeline(T + [Next(T, b)], Extend(l, b))
  {
    var ups, T' := BlockUpdates(b), T + [Next(T, b)];
    TxUpdatesAt(b.number, b.txs);
    ApplyDenotes(T[|T| - 1].data, l.log, ups);
    NewAt(Next(T, b).data, l.log + ups, b.number);
    forall i | 0 <= i < |T| && (i == 0 ==> ZeroFree(T'))
      ensures At(T'[i], l.log + ups)
    {
      assert T'[i] == T[i] && T[i].block < b.number by {
        assert i > 0 ==> T[i].block <= T[|T| - 1].block;
        assert i == 0 ==> |T| > 1 ==> T'[1] == T[1];
      }
      StaysAt(T[i], l.log, ups);
    }
  }

  /* ---- the ring ---- */

  /** The slot written d blocks ago, r being the next one. */
  function Back(r: nat, d: nat, size: nat): int {
    if d <= r then r - d else r - d + size
  }

  /** The slots hold the snapshots before the tip, newest behind the next index; unused slots are empty. */
  ghost predicate Ring(history: seq<Option<Snapshot>>, r: nat, T: seq<Snapshot>) {
    && T != [] && r < |history| && (|T| <= |history| ==> r == |T| - 1) && (|T| == |history| + 1 ==> r == 0)
    && forall d :: 1 <= d <= |history| ==>
         history[Back(r, d, |history|)] == if d < |T| then Some(T[|T| - 1 - d]) else None
  }

  lemma RingNext(history: seq<Option<Snapshot>>, r: nat, T: seq<Snapshot>, sn: Snapshot)
    requires Ring(history, r, T)
    ensures Ring(history[r := Some(T[|T| - 1])], if r + 1 == |history| then 0 else r + 1, T + [sn])
  {
    var h := |history|;
    var history', r', T' := history[r := Some(T[|T| - 1])], if r + 1 == h then 0 else r + 1, T + [sn];
    forall d | 1 <= d <= h
      ensures history'[Back(r', d, h)] == if d < |T'| then Some(T'[|T'| - 1 - d]) else None
    {
      if d > 1 {
        assert Back(r', d, h) == Back(r, d - 1, h) != r;
      }
    }
  }

  ghost predicate Inv(s: Light, T: seq<Snapshot>, l: Ledger) {
    Timeline(T, l) && LedgerOk(l) && Ring(s.history, s.nextIndex, T) && s.current == T[|T| - 1]
  }

  lemma NewInv(size: nat)
    requires size > 0
    ensures Inv(NewLight(size), [Before], NoBlocks)
  {
  }

  lemma HandleInv(s: Light, T: seq<Snapshot>, l: Ledger, b: Block)
    requires Inv(s, T, l)
    ensures Inv(Handle(s, b).0, if IsNew(l, b) then T + [Next(T, b)] else T, Extend(l, b))
  {
    TxUpdatesAt(b.number, b.txs);
    if IsNew(l, b) {
      TimelineNext(T, l, b);
      RingNext(s.history, s.nextIndex, T, Next(T, b));
    }
  }

  /** The states reached by the new blocks among these deliveries. */
  function States(bs: seq<Block>): (T: seq<Snapshot>)
    ensures T != []
  {
    if bs == [] then [Before]
    else
      var n := |bs| - 1;
      var T := States(bs[..n]);
      if IsNew(Of(bs[..n]), bs[n]) then T + [Next(T, bs[n])] else T
  }

  /** Any deliveries, in any order, repeated or not. */
  lemma {:induction false} RunInv(size: nat, bs: seq<Block>)
    requires size > 0
    ensures Inv(Run(NewLight(size), bs), States(bs), Of(bs))
  {
    if bs == [] {
      NewInv(size);
    } else {
      var n := |bs| - 1;
      RunInv(size, bs[..n]);
      HandleInv(Run(NewLight(size), bs[..n]), States(bs[..n]), Of(bs[..n]), bs[n]);
    }
  }

  /* ---- reading ---- */

  lemma {:induction false} FindExactFirst(history: seq<Option<Snapshot>>, block: U64) returns (j: nat)
    ensures j <= |history|
    ensures forall i :: 0 <= i < j && history[i].Some? ==> history[i].value.block != block
    ensures FindExact(history, block) == if j < |history| then history[j] else None
    ensures j < |history| ==> history[j].Some? && history[j].value.block == block
  {
    j := 0;
    if history != [] && !(history[0].Some? && history[0].value.block == block) {
      var i := FindExactFirst(history[1..], block);
      j := i + 1;
    }
  }

  /** How far behind the tip a slot's snapshot is. */
  function Age(r: nat, j: nat, size: nat): int {
    if j < r then r - j else r - j + size
  }

  lemma SlotHolds(s: Light, T: seq<Snapshot>, j: nat)
    requires Ring(s.history, s.nextIndex, T) && j < |s.history|
    ensures var d := Age(s.nextIndex, j, |s.history|);
            1 <= d <= |s.history| && s.history[j] == if d < |T| then Some(T[|T| - 1 - d]) else None
  {
    var d := Age(s.nextIndex, j, |s.history|);
    assert Back(s.nextIndex, d, |s.history|) == j;
  }

  /** T[i] is one of the snapshots still in the ring. */
  ghost predicate Retained(s: Light, T: seq<Snapshot>, i: int) {
    0 <= i < |T| - 1 && i >= |T| - 1 - |s.history|
  }

  ghost predicate HasBlock(s: Light, T: seq<Snapshot>, block: U64) {
    exists i :: Retained(s, T, i) && T[i].block == block
  }

  lemma {:induction false} FoundRetained(s: Light, T: seq<Snapshot>, block: U64)
    requires Ring(s.history, s.nextIndex, T)
    ensures FindExact(s.history, block).Some? ==>
              exists i :: Retained(s, T, i) && T[i].block == block && FindExact(s.history, block) == Some(T[i])
    ensures FindExact(s.history, block) == None ==> forall i :: Retained(s, T, i) ==> T[i].block != block
  {
    var h := |s.history|;
    var j := FindExactFirst(s.history, block);
    if j < h {
      SlotHolds(s, T, j);
      var i := |T| - 1 - Age(s.nextIndex, j, h);
      assert Retained(s, T, i);
    } else {
      forall i | Retained(s, T, i)
        ensures T[i].block != block
      {
        var j' := Back(s.nextIndex, |T| - 1 - i, h);
        assert s.history[j'] == Some(T[i]);
      }
    }
  }

  /** A height below the tip is answered exactly when a block of that height is retained, and then as the log
      says; the tip, and any height past it, is answered always. */
  lemma {:induction false} Answers(s: Light, T: seq<Snapshot>, l: Ledger, block: Option<U64>, k: Key)
    requires Inv(s, T, l) && (ZeroFree(T) || block != Some(0))
    ensures NewSnapshot(s, block).Some? <==>
              block == None || block.value >= l.tip || HasBlock(s, T, block.value)
    ensures NewSnapshot(s, block).Some? ==>
              Lookup(NewSnapshot(s, block).value.data, k)
              == AsOf(l.log, k, if block == None then MAX_U64 else block.value)
  {
    if block.Some? && block.value < l.tip {
      FoundRetained(s, T, block.value);
      if NewSnapshot(s, block).Some? {
        var i :| Retained(s, T, i) && T[i].block == block.value && FindExact(s.history, block.value) == Some(T[i]);
        assert At(T[i], l.log);
      }
    } else {
      assert Lookup(s.current.data, k) == Latest(l.log, k);
      if block.Some? {
        AsOfTop(l.log, k, block.value, MAX_U64);
      }
    }
  }

  /** The same, for every run. */
  lemma {:induction false} RunAnswers(size: nat, bs: seq<Block>, block: Option<U64>, k: Key)
    requires size > 0 && (ZeroFree(States(bs)) || block != Some(0))
    ensures var s, T, l := Run(NewLight(size), bs), States(bs), Of(bs);
            && (NewSnapshot(s, block).Some? <==>
                  block == None || block.value >= l.tip || HasBlock(s, T, block.value))
            && (NewSnapshot(s, block).Some? ==>
                  Lookup(NewSnapshot(s, block).value.data, k)
                  == AsOf(l.log, k, if block == None then MAX_U64 else block.value))
  {
    RunInv(size, bs);
    Answers(Run(NewLight(size), bs), States(bs), Of(bs), block, k);
  }

  /** When the first block is block 0 and more follow, height 0 gives the placeholder as long as that is still
      in the ring, then block 0, then nothing. */
  lemma BlockZeroShadowed(s: Light, T: seq<Snapshot>, l: Ledger)
    requires Inv(s, T, l) && |T| > 2 && T[1].block == 0
    ensures NewSnapshot(s, Some(0)) ==
              if |T| - 1 <= |s.history| then Some(Before) else if |T| - 2 <= |s.history| then Some(T[1]) else None
  {
    var h := |s.history|;
    assert T[1].block < T[|T| - 1].block;
    FoundRetained(s, T, 0);
    if |T| - 1 <= h {
      SlotHolds(s, T, 0);
    } else if |T| - 2 <= h {
      assert Retained(s, T, 1);
      assert forall i :: Retained(s, T, i) && T[i].block == 0 ==> i == 1;
    } else {
      assert forall i :: Retained(s, T, i) ==> i > 1 && T[1].block < T[i].block;
    }
  }

  /** Height 0 is then answered wrongly as soon as block 0 wrote something. */
  lemma {:induction false} BlockZeroWrong(s: Light, T: seq<Snapshot>, l: Ledger, k: Key)
    requires Inv(s, T, l) && |T| > 2 && T[1].block == 0 && |T| - 1 <= |s.history|
    ensures NewSnapshot(s, Some(0)).Some?
    ensures Lookup(NewSnapshot(s, Some(0)).value.data, k) == AsOf(l.log, k, 0) <==> k !in T[1].data
  {
    BlockZeroShadowed(s, T, l);
    assert Lookup(T[1].data, k) == AsOf(l.log, k, 0);
  }

  /* ---- at-least-once delivery ---- */

  lemma {:induction false} RunDedup(size: nat, bs: seq<Block>)
    requires size > 0
    ensures Run(NewLight(size), Dedup(bs)) == Run(NewLight(size), bs) && States(Dedup(bs)) == States(bs)
  {
    if bs != [] {
      var n := |bs| - 1;
      RunDedup(size, bs[..n]);
      RunInv(size, bs[..n]);
      DedupSame(bs[..n]);
      Append(Dedup(bs[..n]), bs[n]);
      assert Dedup(bs[..n]) + [] == Dedup(bs[..n]);
    }
  }

  lemma HandleReplays(s: Light, T: seq<Snapshot>, l: Ledger, b: Block, t: Block)
    requires Inv(s, T, l) && (!IsNew(l, b) ==> ReplayOk(s.current.data, BlockUpdates(t)))
    ensures ReplayOk(Handle(s, b).0.current.data, BlockUpdates(if IsNew(l, b) then b else t))
  {
    if IsNew(l, b) {
      AppliedReplays(s.current.data, BlockUpdates(b));
    }
  }

  /** The tip block can be delivered again. */
  lemma {:induction false} TipReplays(size: nat, bs: seq<Block>) returns (t: Block)
    requires size > 0 && bs != [] && Faithful(bs)
    ensures TipIs(bs, t) && ReplayOk(Run(NewLight(size), bs).current.data, BlockUpdates(t))
  {
    var n := |bs| - 1;
    var before := bs[..n];
    RunInv(size, before);
    Snoc(bs);
    t := bs[n];
    if n > 0 {
      FaithfulPrefix(bs);
      t := TipReplays(size, before);
      TipNext(before, t, bs[n]);
    }
    HandleReplays(Run(NewLight(size), before), States(before), Of(before), bs[n], t);
    t := if IsNew(Of(before), bs[n]) then bs[n] else t;
  }

  /** New blocks mixed with exact repeats: every delivery succeeds, and the store ends as if each block had
      been delivered once. */
  lemma {:induction false} AtLeastOnce(size: nat, bs: seq<Block>, b: Block)
    requires size > 0 && Faithful(bs) && (IsNew(Of(bs), b) || b in bs)
    ensures Handle(Run(NewLight(size), bs), b).1
    ensures Run(NewLight(size), Dedup(bs)) == Run(NewLight(size), bs)
  {
    RunDedup(size, bs);
    RunInv(size, bs);
    if bs != [] {
      var t := TipReplays(size, bs);
    }
  }
}
