/** A block delivered again: accepted exactly when its last writes are the ones in place. */
module Replays {
  import opened Prelude
  import opened Records
  import opened WorldLog
  import opened Ledger
  import opened LightModel
  import opened KeyCodec
  import opened PebbleModel
  import opened PebbleSafety
  import LightRuns
  import RevertModel
  import RevertRuns
  import Parity

  /** No later write of the batch has this one's key. */
  ghost predicate LastIn(ups: seq<Update>, i: nat) {
    i < |ups| && forall j :: i < j < |ups| ==> ups[j].key != ups[i].key
  }

  lemma {:induction false} FinalIs(ups: seq<Update>, i: nat)
    requires LastIn(ups, i)
    ensures ups[i].key in Final(ups) && Final(ups)[ups[i].key] == ups[i]
  {
    var n := |ups| - 1;
    if i < n {
      assert LastIn(ups[..n], i);
      FinalIs(ups[..n], i);
    }
  }

  lemma {:induction false} FinalFrom(ups: seq<Update>, k: Key) returns (i: nat)
    requires k in Final(ups)
    ensures LastIn(ups, i) && ups[i].key == k && Final(ups)[k] == ups[i]
  {
    var n := |ups| - 1;
    if ups[n].key == k {
      i := n;
    } else {
      i := FinalFrom(ups[..n], k);
    }
  }

  /** A stored record is what this write would leave: deleted or not alike, of the same transaction, and with the same
      bytes unless deleted. */
  predicate Leaves(r: Option<Record>, u: Update) {
    && r.Some? && r.value.isDelete == u.isDelete && r.value.txId == u.txId
    && (u.isDelete || Raw(r.value.value) == Raw(u.value))
  }

  /** The in-memory check passes exactly when every last write is in place. */
  lemma {:induction false} ReplayIff(data: map<Key, Record>, ups: seq<Update>)
    ensures ReplayOk(data, ups) <==> forall i: nat :: LastIn(ups, i) ==> Leaves(Lookup(data, ups[i].key), ups[i])
  {
    if forall i: nat :: LastIn(ups, i) ==> Leaves(Lookup(data, ups[i].key), ups[i]) {
      forall k | k in Final(ups)
        ensures InPlace(data, Final(ups)[k])
      {
        var i := FinalFrom(ups, k);
      }
    } else {
      var i: nat :| LastIn(ups, i) && !Leaves(Lookup(data, ups[i].key), ups[i]);
      FinalIs(ups, i);
    }
  }

  /** After any deliveries another one is refused exactly when it is of the tip's number and one of its last writes is
      not the ledger's. */
  lemma {:induction false} LightRefusesIff(size: nat, bs: seq<Block>, b: Block)
    requires size > 0
    ensures var l, ups := Of(bs), BlockUpdates(b);
            Handle(Run(NewLight(size), bs), b).1 <==>
              (l.started && b.number == l.tip ==>
                 forall i: nat :: LastIn(ups, i) ==> Leaves(Latest(l.log, ups[i].key), ups[i]))
  {
    var s, l, ups := Run(NewLight(size), bs), Of(bs), BlockUpdates(b);
    LightRuns.RunInv(size, bs);
    ReplayIff(s.current.data, ups);
    assert forall i: nat :: LastIn(ups, i) ==> Lookup(s.current.data, ups[i].key) == Latest(l.log, ups[i].key);
  }

  /** The same for the store that can be rewound, against its tip. */
  lemma {:induction false} RevertibleRefusesIff(size: nat, cs: seq<RevertRuns.Command>, b: Block)
    ensures var tip, ups := RevertRuns.Reached(size, cs).current, BlockUpdates(b);
            RevertModel.HandleSequential(RevertRuns.Reached(size, cs), b).1 <==>
              (!tip.placeholder && b.number == tip.block ==>
                 forall i: nat :: LastIn(ups, i) ==> Leaves(Lookup(tip.data, ups[i].key), ups[i]))
  {
    ReplayIff(RevertRuns.Reached(size, cs).current.data, BlockUpdates(b));
  }

  /** The persistent store also compares the block, and the bytes of deletes. */
  predicate LeavesExactly(r: Option<Record>, u: Update) {
    && r.Some? && r.value.block == u.block && r.value.isDelete == u.isDelete && r.value.txId == u.txId
    && Raw(r.value.value) == Raw(u.value)
  }

  lemma {:induction false} TipReplayIff(db: Db, ups: seq<Update>)
    ensures TipReplayOk(db, ups) <==>
              forall i: nat :: LastIn(ups, i) ==> LeavesExactly(Current(db, ups[i].key), ups[i])
  {
    if forall i: nat :: LastIn(ups, i) ==> LeavesExactly(Current(db, ups[i].key), ups[i]) {
      forall k | k in Final(ups)
        ensures Stored(db, Final(ups)[k])
      {
        var i := FinalFrom(ups, k);
      }
    } else {
      var i: nat :| LastIn(ups, i) && !LeavesExactly(Current(db, ups[i].key), ups[i]);
      FinalIs(ups, i);
    }
  }

  lemma CurrentIs(p: Pebble, l: Ledger, k: Key)
    requires StoreOk(p, l)
    ensures Current(p.db, k) == Latest(l.log, k)
  {
    assert CellAt(p.db, DataKey(k)) == RecOf(Latest(l.log, k));
  }

  lemma {:induction false} PebbleRefusesIff(size: int, bs: seq<Block>, b: Block)
    ensures var l, ups := Of(bs), BlockUpdates(b);
            CommitBlock(Parity.PebbleRun(size, bs), b.number, ups).1 <==>
              (l.started && b.number == l.tip ==>
                 forall i: nat :: LastIn(ups, i) ==> LeavesExactly(Latest(l.log, ups[i].key), ups[i]))
  {
    var p, l, ups := Parity.PebbleRun(size, bs), Of(bs), BlockUpdates(b);
    Parity.RunOk(size, bs);
    TipReplayIff(p.db, ups);
    forall i: nat | LastIn(ups, i)
      ensures Current(p.db, ups[i].key) == Latest(l.log, ups[i].key)
    {
      CurrentIs(p, l, ups[i].key);
    }
  }
}
