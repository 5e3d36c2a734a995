/** Wrapping a plain store that was used before: what the slots it keeps answer, at once and after later blocks. */
module WrapRuns {
  import opened Prelude
  import opened WorldLog
  import opened LightModel
  import opened RevertModel
  import opened RevertRuns
  import Ledger
  import LightRuns

  /** Only the index is reset. */
  function Wrapped(s: Light): Light {
    s.(nextIndex := 0)
  }

  lemma {:induction false} NoneBelow(history: seq<Option<Snapshot>>, tip: U64, h: U64)
    requires h < tip && forall i :: 0 <= i < |history| ==> !IsBelow(history[i], tip)
    ensures Scan(history, h) == (None, None)
  {
    ScanExact(history, h);
    ScanBest(history, h);
    forall i | 0 <= i < |history|
      ensures !IsAt(history[i], h) && !IsBelow(history[i], h)
    {
      assert !IsBelow(history[i], tip);
    }
  }

  /** A wrapped store forgets every past height exactly when no slot is below the tip. */
  lemma {:induction false} WrapFreshIff(s: Light)
    ensures (forall h: U64 :: h < s.current.block ==> NearestSnapshot(Wrapped(s), Some(h)) == None) <==>
              forall i :: 0 <= i < |s.history| ==> !IsBelow(s.history[i], s.current.block)
  {
    forall i | 0 <= i < |s.history| && IsBelow(s.history[i], s.current.block)
      ensures NearestSnapshot(Wrapped(s), Some(s.history[i].value.block)) != None
    {
      ScanExact(s.history, s.history[i].value.block);
      assert IsAt(s.history[i], s.history[i].value.block);
    }
    if forall i :: 0 <= i < |s.history| ==> !IsBelow(s.history[i], s.current.block) {
      forall h: U64 | h < s.current.block
        ensures NearestSnapshot(Wrapped(s), Some(h)) == None
      {
        NoneBelow(s.history, s.current.block, h);
      }
    }
  }

  /* ---- right answers ---- */

  /** a is a snapshot of the timeline at or below h, and none of those is higher. */
  ghost predicate Nearest(T: seq<Snapshot>, h: U64, a: Snapshot) {
    a in T && a.block <= h && forall i :: 0 <= i < |T| && T[i].block <= h ==> T[i].block <= a.block
  }

  ghost predicate RightAt(s: Light, T: seq<Snapshot>, h: U64) {
    NearestSnapshot(s, Some(h)).Some? ==> Nearest(T, h, NearestSnapshot(s, Some(h)).value)
  }

  /** Every past height is refused or answered with its nearest snapshot. */
  ghost predicate Right(s: Light, T: seq<Snapshot>) {
    forall h: U64 :: h < s.current.block ==> RightAt(s, T, h)
  }

  ghost predicate Holds(s: Light, sn: Snapshot) {
    exists i :: 0 <= i < |s.history| && s.history[i] == Some(sn)
  }

  ghost predicate Within(slot: Option<Snapshot>, T: seq<Snapshot>, lo: nat) {
    slot == None || exists j :: lo <= j < |T| - 1 && slot == Some(T[j])
  }

  /** The slots hold the timeline from lo to just before the tip, in any order. */
  ghost predicate HoldsFrom(s: Light, T: seq<Snapshot>, lo: nat) {
    && T != [] && s.current == T[|T| - 1]
    && (forall i :: 0 <= i < |s.history| ==> Within(s.history[i], T, lo))
    && (forall j :: lo <= j < |T| - 1 ==> Holds(s, T[j]))
  }

  /** A gapless stretch up to the tip answers rightly, wherever it lies in the slots. */
  lemma {:induction false} GaplessRight(s: Light, T: seq<Snapshot>, lo: nat)
    requires Ordered(T) && HoldsFrom(s, T, lo)
    ensures Right(s, T)
  {
    forall h: U64 | h < s.current.block && NearestSnapshot(s, Some(h)).Some?
      ensures Nearest(T, h, NearestSnapshot(s, Some(h)).value)
    {
      GaplessNearest(s, T, lo, h);
    }
  }

  lemma {:induction false} GaplessNearest(s: Light, T: seq<Snapshot>, lo: nat, h: U64)
    requires Ordered(T) && HoldsFrom(s, T, lo) && h < s.current.block && NearestSnapshot(s, Some(h)).Some?
    ensures Nearest(T, h, NearestSnapshot(s, Some(h)).value)
  {
    ScanExact(s.history, h);
    ScanBest(s.history, h);
    var found := Scan(s.history, h);
    var b := if found.0.Some? then found.0.value else found.1.value;
    assert Within(s.history[b], T, lo);
    var j :| lo <= j < |T| - 1 && s.history[b] == Some(T[j]);
    forall i | 0 <= i < |T| && T[i].block <= h && found.0 == None
      ensures T[i].block <= T[j].block
    {
      if i < j {
        assert Lower(T, i, j);
      } else {
        assert Holds(s, T[i]);
        var x :| 0 <= x < |s.history| && s.history[x] == Some(T[i]);
        assert !IsAt(s.history[x], h) && IsBelow(s.history[x], h);
      }
    }
  }

  /* ---- later blocks ---- */

  ghost function Later(s: Light, ds: seq<Block>): (s': Light)
    requires WindowOk(s)
    ensures WindowOk(s') && |s'.history| == |s.history|
  {
    if ds == [] then s else var n := |ds| - 1; HandleSequential(Later(s, ds[..n]), ds[n]).0
  }

  /** New snapshots, from m on, in front; behind them what is left of the e slots that were in use, which end
      just before m. */
  ghost predicate Layout(s: Light, T: seq<Snapshot>, m: nat, e: nat) {
    var c := s.nextIndex;
    && c <= |s.history| && e <= m && e <= |s.history| && |T| == m + c + 1 && s.current == T[m + c]
    && (forall i :: 0 <= i < c ==> s.history[i] == Some(T[m + i]))
    && (forall i :: c <= i < |s.history| ==> s.history[i] == if i < e then Some(T[m - e + i]) else None)
  }

  lemma LayoutGapless(s: Light, T: seq<Snapshot>, m: nat, e: nat)
    requires Layout(s, T, m, e)
    ensures HoldsFrom(s, T, if s.nextIndex < e then m - e + s.nextIndex else m)
  {
    var c := s.nextIndex;
    var lo := if c < e then m - e + c else m;
    forall j | lo <= j < |T| - 1
      ensures Holds(s, T[j])
    {
      var i := if j < m then j - m + e else j - m;
      assert s.history[i] == Some(T[j]);
    }
    forall i | 0 <= i < |s.history|
      ensures Within(s.history[i], T, lo)
    {
      if i < c {
        assert s.history[i] == Some(T[m + i]);
      } else if i < e {
        assert s.history[i] == Some(T[m - e + i]);
      }
    }
  }

  lemma LayoutNext(s: Light, T: seq<Snapshot>, m: nat, e: nat, b: Block) returns (m': nat)
    requires Layout(s, T, m, e)
    ensures Layout(HandleSequential(s, b).0, if IsNew(T, b) then T + [LightRuns.Next(T, b)] else T, m', e)
  {
    m' := if IsNew(T, b) && s.nextIndex == |s.history| then m + 1 else m;
  }

  lemma TimelineOrdered(T: seq<Snapshot>, l: Ledger.Ledger)
    requires LightRuns.Timeline(T, l)
    ensures Ordered(T)
  {
    forall i, j | 0 <= i < j < |T|
      ensures Lower(T, i, j)
    {
      assert i == 0 && j > 1 ==> T[1].block < T[j].block;
    }
  }

  /** The timeline one delivery later, as the wrapped store sees it. */
  lemma {:induction false} StatesNext(bs: seq<Block>, b: Block)
    ensures var T := LightRuns.States(bs);
            && Ordered(T)
            && LightRuns.States(bs + [b]) == if IsNew(T, b) then T + [LightRuns.Next(T, b)] else T
  {
    LightRuns.RunInv(1, bs);
    TimelineOrdered(LightRuns.States(bs), Ledger.Of(bs));
    Append(bs, b);
  }

  lemma {:induction false} LaterLayout(s: Light, bs: seq<Block>, ds: seq<Block>, m: nat, e: nat) returns (m': nat)
    requires Layout(s, LightRuns.States(bs), m, e)
    ensures Layout(Later(s, ds), LightRuns.States(bs + ds), m', e)
  {
    if ds == [] {
      assert bs + ds == bs;
      m' := m;
    } else {
      var n := |ds| - 1;
      m' := LaterLayout(s, bs, ds[..n], m, e);
      Snoc(ds);
      Associate(bs, ds[..n], [ds[n]]);
      StatesNext(bs + ds[..n], ds[n]);
      m' := LayoutNext(Later(s, ds[..n]), LightRuns.States(bs + ds[..n]), m', e, ds[n]);
    }
  }

  /** At the highest block number nothing can follow. */
  lemma NothingFollows(s: Light, T: seq<Snapshot>, b: Block)
    requires WindowOk(s) && Ordered(T) && s.current == T[|T| - 1] && s.current.block == MAX_U64
    ensures !IsNew(T, b) && HandleSequential(s, b).0 == s
  {
  }

  lemma {:induction false} LaterNothing(s: Light, bs: seq<Block>, ds: seq<Block>)
    requires WindowOk(s) && s.current == LightRuns.States(bs)[|LightRuns.States(bs)| - 1] && s.current.block == MAX_U64
    ensures Later(s, ds) == s && LightRuns.States(bs + ds) == LightRuns.States(bs)
  {
    if ds == [] {
      assert bs + ds == bs;
    } else {
      var n := |ds| - 1;
      LaterNothing(s, bs, ds[..n]);
      Snoc(ds);
      Associate(bs, ds[..n], [ds[n]]);
      StatesNext(bs + ds[..n], ds[n]);
      NothingFollows(s, LightRuns.States(bs), ds[n]);
    }
  }

  /* ---- a used store ---- */

  lemma RingGapless(s: Light, T: seq<Snapshot>)
    requires LightRuns.Ring(s.history, s.nextIndex, T) && s.current == T[|T| - 1]
    ensures HoldsFrom(Wrapped(s), T, if |T| <= |s.history| then 0 else |T| - 1 - |s.history|)
  {
    var lo := if |T| <= |s.history| then 0 else |T| - 1 - |s.history|;
    forall j | lo <= j < |T| - 1
      ensures Holds(Wrapped(s), T[j])
    {
      assert s.history[LightRuns.Back(s.nextIndex, |T| - 1 - j, |s.history|)] == Some(T[j]);
    }
    forall i | 0 <= i < |s.history|
      ensures Within(Wrapped(s).history[i], T, lo)
    {
      LightRuns.SlotHolds(s, T, i);
    }
  }

  /** A ring that lies oldest first from slot 0. */
  predicate FromZero(s: Light)
    requires RingOk(s)
  {
    s.nextIndex == 0 || s.history[s.nextIndex] == None
  }

  lemma FromZeroLayout(s: Light, T: seq<Snapshot>)
    requires LightRuns.Ring(s.history, s.nextIndex, T) && s.current == T[|T| - 1] && FromZero(s)
    ensures var m := |T| - 1; Layout(Wrapped(s), T, m, if m < |s.history| then m else |s.history|)
  {
    var h, r, m := |s.history|, s.nextIndex, |T| - 1;
    LightRuns.SlotHolds(s, T, r);
    forall i | 0 <= i < h
      ensures s.history[i] == if i < m then Some(T[if m < h then i else m - h + i]) else None
    {
      LightRuns.SlotHolds(s, T, i);
    }
  }

  lemma Distinct(T: seq<Snapshot>, i: nat, j: nat)
    requires Ordered(T) && i < |T| && 1 < j < |T| && i != j
    ensures T[i].block != T[j].block
  {
    assert if i < j then Lower(T, i, j) else Lower(T, j, i);
  }

  /** The snapshot in slot 0 is overwritten first; when the one before it lies in the last slot, that one then
      answers in its place. */
  lemma {:induction false} NotFromZeroWrong(s: Light, T: seq<Snapshot>, T': seq<Snapshot>, b: Block)
    requires Ordered(T) && LightRuns.Ring(s.history, s.nextIndex, T) && s.current == T[|T| - 1] && !FromZero(s)
    requires T' == T + [LightRuns.Next(T, b)] && b.number > s.current.block
    ensures !Right(HandleSequential(Wrapped(s), b).0, T')
  {
    var size, r, m := |s.history|, s.nextIndex, |T| - 1;
    LightRuns.SlotHolds(s, T, r);
    var g, h := m - r, T[m - r].block;
    assert size > r > 0 && g > 1;
    var s' := HandleSequential(Wrapped(s), b).0;
    assert s'.history == s.history[0 := Some(T[m])];
    assert Lower(T, g, m) && h < s'.current.block;
    forall i | 0 <= i < size
      ensures !IsAt(s'.history[i], h)
    {
      LightRuns.SlotHolds(s, T, i);
      var d := LightRuns.Age(r, i, size);
      if i > 0 && d <= m {
        Distinct(T, m - d, g);
      }
    }
    LightRuns.SlotHolds(s, T, size - 1);
    assert Lower(T, g - 1, g) && IsBelow(s'.history[size - 1], h);
    ScanExact(s'.history, h);
    ScanBest(s'.history, h);
    assert T'[g] == T[g];
    assert !RightAt(s', T', h);
  }

  ghost predicate StaysRight(size: nat, bs: seq<Block>)
    requires size > 0
  {
    forall ds: seq<Block> ::
      Right(Later(Wrapped(Run(NewLight(size), bs)), ds), LightRuns.States(bs + ds))
  }

  /** A store used for any deliveries and then wrapped answers every past height rightly after all later blocks
      exactly when its ring lay oldest first from slot 0, or no block can follow. */
  lemma {:induction false} WrapRightIff(size: nat, bs: seq<Block>)
    requires size > 0
    ensures var s := Run(NewLight(size), bs); StaysRight(size, bs) <==> FromZero(s) || s.current.block == MAX_U64
  {
    var s, T := Run(NewLight(size), bs), LightRuns.States(bs);
    LightRuns.RunInv(size, bs);
    TimelineOrdered(T, Ledger.Of(bs));
    if FromZero(s) || s.current.block == MAX_U64 {
      forall ds: seq<Block>
        ensures Right(Later(Wrapped(s), ds), LightRuns.States(bs + ds))
      {
        LaterRight(s, bs, ds);
      }
    } else {
      var b := Block(s.current.block + 1, []);
      StatesNext(bs, b);
      NotFromZeroWrong(s, T, LightRuns.States(bs + [b]), b);
      assert [b][..0] == [];
      assert Later(Wrapped(s), [b]) == HandleSequential(Wrapped(s), b).0;
    }
  }

  lemma {:induction false} LaterRight(s: Light, bs: seq<Block>, ds: seq<Block>)
    requires LightRuns.Ring(s.history, s.nextIndex, LightRuns.States(bs))
    requires s.current == LightRuns.States(bs)[|LightRuns.States(bs)| - 1]
    requires FromZero(s) || s.current.block == MAX_U64
    ensures Right(Later(Wrapped(s), ds), LightRuns.States(bs + ds))
  {
    var T, m := LightRuns.States(bs), |LightRuns.States(bs)| - 1;
    StatesNext(bs + ds, Block(0, []));
    if FromZero(s) {
      FromZeroLayout(s, T);
      var e := if m < |s.history| then m else |s.history|;
      var m' := LaterLayout(Wrapped(s), bs, ds, m, e);
      var s' := Later(Wrapped(s), ds);
      LayoutGapless(s', LightRuns.States(bs + ds), m', e);
      GaplessRight(s', LightRuns.States(bs + ds), if s'.nextIndex < e then m' - e + s'.nextIndex else m');
    } else {
      LaterNothing(Wrapped(s), bs, ds);
      RingGapless(s, T);
      GaplessRight(Wrapped(s), T, if |T| <= |s.history| then 0 else |T| - 1 - |s.history|);
    }
  }

  /** A new block delivered to a ring of two slots. */
  lemma {:induction false} RunNext(s: Light, bs: seq<Block>, b: Block, T: seq<Snapshot>, x: Option<Snapshot>,
                                   y: Option<Snapshot>)
    requires RingOk(s) && T != [] && IsNew(T, b) && Run(s, bs).current == T[|T| - 1] && Run(s, bs).history == [x, y]
    ensures var was, tip := Run(s, bs), LightRuns.Next(T, b);
            Run(s, bs + [b]) == if was.nextIndex == 0 then Light(tip, [Some(was.current), y], 1)
                                else Light(tip, [x, Some(was.current)], 0)
  {
    Append(bs, b);
  }

  lemma {:induction false} StatesOfThree(b1: Block, b2: Block, b3: Block)
    requires b1.number < b2.number < b3.number
    ensures var t1 := LightRuns.Next([Before], b1);
            var t2 := LightRuns.Next([Before, t1], b2);
            LightRuns.States([b1, b2, b3]) == [Before, t1, t2, LightRuns.Next([Before, t1, t2], b3)]
  {
    var t1 := LightRuns.Next([Before], b1);
    var t2 := LightRuns.Next([Before, t1], b2);
    assert LightRuns.States([b1]) == [Before, t1] by {
      StatesNext([], b1);
      assert [] + [b1] == [b1];
    }
    assert LightRuns.States([b1, b2]) == [Before, t1, t2] by {
      StatesNext([b1], b2);
      assert [b1] + [b2] == [b1, b2] && [Before, t1] + [t2] == [Before, t1, t2];
    }
    StatesNext([b1, b2], b3);
    assert [b1, b2] + [b3] == [b1, b2, b3];
  }

  /** Three deliveries to a new ring of two slots. */
  lemma {:induction false} ThreeDelivered(b1: Block, b2: Block, b3: Block)
    requires b1.number < b2.number < b3.number
    ensures var T := LightRuns.States([b1, b2, b3]);
            && |T| == 4 && T[1].block == b1.number && T[2].block == b2.number && T[3].block == b3.number
            && Run(NewLight(2), [b1, b2, b3]) == Light(T[3], [Some(T[2]), Some(T[1])], 1)
  {
    var s0 := NewLight(2);
    StatesOfThree(b1, b2, b3);
    var t1 := LightRuns.Next([Before], b1);
    var t2 := LightRuns.Next([Before, t1], b2);
    assert s0.history == [None, None];
    assert [] + [b1] == [b1] && [b1] + [b2] == [b1, b2] && [b1, b2] + [b3] == [b1, b2, b3];
    RunNext(s0, [], b1, [Before], None, None);
    RunNext(s0, [b1], b2, [Before, t1], Some(Before), None);
    RunNext(s0, [b1, b2], b3, [Before, t1, t2], Some(Before), Some(t1));
  }

  /** Wrapped after them, the store answers the second height rightly, and with the first block once a fourth has
      arrived. */
  lemma {:induction false} StaleSlotAnswers(b1: Block, b2: Block, b3: Block, b4: Block)
    requires b1.number < b2.number < b3.number < b4.number
    ensures var s, T := Wrapped(Run(NewLight(2), [b1, b2, b3])), LightRuns.States([b1, b2, b3]);
            && |T| == 4 && T[2].block == b2.number && T[1].block == b1.number
            && NearestSnapshot(s, Some(b2.number)) == Some(T[2])
            && NearestSnapshot(Later(s, [b4]), Some(b2.number)) == Some(T[1])
  {
    ThreeDelivered(b1, b2, b3);
    var s, T := Wrapped(Run(NewLight(2), [b1, b2, b3])), LightRuns.States([b1, b2, b3]);
    assert [b4][..0] == [];
    var h, h' := [Some(T[2]), Some(T[1])], [Some(T[3]), Some(T[1])];
    assert Later(s, [b4]).history == h';
    assert h[..1] == [Some(T[2])] && h'[..1] == [Some(T[3])];
    assert Scan([Some(T[2])], b2.number) == (Some(0), None);
    assert Scan([Some(T[3])], b2.number) == (None, None);
  }

  /* ---- rewinding a wrapped store ---- */

  /** Since s was rewound, a was its tip, or it is a kept snapshot at or below the height rewound to. */
  ghost predicate OnBranch(s: Light, ds: seq<Block>, a: Snapshot)
    requires WindowOk(s)
  {
    (a.block <= s.current.block && Holds(s, a)) || exists i :: 0 <= i <= |ds| && a == Later(s, ds[..i]).current
  }

  ghost predicate SlotsOnBranch(s: Light, ds: seq<Block>)
    requires WindowOk(s)
  {
    forall i :: 0 <= i < |s.history| && Later(s, ds).history[i].Some? ==>
      OnBranch(s, ds, Later(s, ds).history[i].value)
  }

  lemma OnBranchNext(s: Light, ds: seq<Block>, d: Block, a: Snapshot)
    requires WindowOk(s) && OnBranch(s, ds, a)
    ensures OnBranch(s, ds + [d], a)
  {
    if !(a.block <= s.current.block && Holds(s, a)) {
      var i :| 0 <= i <= |ds| && a == Later(s, ds[..i]).current;
      assert (ds + [d])[..i] == ds[..i];
    }
  }

  lemma {:induction false} TipOnBranch(s: Light, ds: seq<Block>)
    requires WindowOk(s)
    ensures OnBranch(s, ds, Later(s, ds).current)
  {
    assert ds[..|ds|] == ds;
  }

  ghost predicate NoneAbove(history: seq<Option<Snapshot>>, block: U64) {
    forall i :: 0 <= i < |history| && history[i].Some? ==> history[i].value.block <= block
  }

  /** A delivery fills slots with the old tip only. */
  lemma SlotFrom(s: Light, d: Block, i: nat)
    requires WindowOk(s) && i < |s.history|
    ensures var s' := HandleSequential(s, d).0;
            && |s'.history| == |s.history|
            && (s'.history[i].Some? ==> s'.history[i].value == s.current || Holds(s, s'.history[i].value))
  {
    var s' := HandleSequential(s, d).0;
    if s'.history[i] == s.history[i] {
      assert s'.history[i].Some? ==> s.history[i] == Some(s'.history[i].value);
    } else if s.nextIndex == |s.history| && i < |s.history| - 1 {
      assert s'.history[i] == s.history[i + 1];
    }
  }

  /** If no slot was above the height rewound to, every slot stays on the branch. */
  lemma {:induction false} SlotsStay(s: Light, ds: seq<Block>)
    requires WindowOk(s) && NoneAbove(s.history, s.current.block)
    ensures SlotsOnBranch(s, ds)
  {
    if ds != [] {
      var n := |ds| - 1;
      var before := ds[..n];
      SlotsStay(s, before);
      Snoc(ds);
      TipOnBranch(s, before);
      forall i | 0 <= i < |s.history| && Later(s, ds).history[i].Some?
        ensures OnBranch(s, ds, Later(s, ds).history[i].value)
      {
        SlotFrom(Later(s, before), ds[n], i);
        OnBranchNext(s, before, ds[n], Later(s, ds).history[i].value);
      }
    }
  }

  /** After a rewind, every answer, now and after all later blocks, is from the branch. */
  ghost predicate StaysOnBranch(s: Light)
    requires WindowOk(s)
  {
    forall ds: seq<Block>, at: Option<U64> :: AnswersOnBranch(s, ds, at)
  }

  ghost predicate AnswersOnBranch(s: Light, ds: seq<Block>, at: Option<U64>)
    requires WindowOk(s)
  {
    NearestSnapshot(Later(s, ds), at).Some? ==> OnBranch(s, ds, NearestSnapshot(Later(s, ds), at).value)
  }

  lemma {:induction false} CleanBranch(s: Light)
    requires WindowOk(s) && NoneAbove(s.history, s.current.block)
    ensures StaysOnBranch(s)
  {
    forall ds: seq<Block>, at: Option<U64>
      ensures AnswersOnBranch(s, ds, at)
    {
      SlotsStay(s, ds);
      TipOnBranch(s, ds);
    }
  }

  /** A slot above the height rewound to still answers its own height once a block above it has arrived. */
  lemma {:induction false} AbandonedAnswers(s: Light, high: nat)
    requires s.nextIndex < |s.history| && high < |s.history| && high != s.nextIndex && !s.current.placeholder
    requires s.history[high].Some? && s.current.block < s.history[high].value.block < MAX_U64
    ensures var y := s.history[high].value.block;
            !AnswersOnBranch(s, [Block(y + 1, [])], Some(y))
  {
    var y := s.history[high].value.block;
    var b := Block(y + 1, []);
    assert [b][..0] == [] && Later(s, []) == s;
    var s' := Later(s, [b]);
    assert s' == HandleSequential(Later(s, [b][..0]), b).0;
    assert s'.history == s.history[s.nextIndex := Some(s.current)] && s'.current.block == y + 1;
    ScanExact(s'.history, y);
    assert IsAt(s'.history[high], y);
    forall i | 0 <= i <= 1
      ensures Later(s, [b][..i]).current.block != y
    {
      assert [b][..i] == if i == 0 then [] else [b];
    }
  }

  lemma {:induction false} TargetBelow(s: Light, block: U64)
    requires TargetSlot(s, block).Some?
    ensures s.history[TargetSlot(s, block).value].value.block <= block
  {
    ScanExact(s.history, block);
    ScanBest(s.history, block);
  }

  lemma ClearedAt(history: seq<Option<Snapshot>>, t: nat, n: nat, i: nat)
    requires t <= n <= |history| && i < |history|
    ensures |Cleared(history, t, n)| == |history|
    ensures Cleared(history, t, n)[i] == if t <= i < n then None else history[i]
  {
  }

  /** A rewind clears the slots from the target up to the index, and no other. */
  lemma {:induction false} RewindLeaves(s: Light, block: U64)
    requires WindowOk(s) && RevertToBlock(s, block).1 && block != s.current.block
    ensures var t, s' := TargetSlot(s, block), RevertToBlock(s, block).0;
            && t.Some? && s.history[t.value].value.block <= block
            && |s'.history| == |s.history| && s'.nextIndex == t.value
            && s'.current.block == block && !s'.current.placeholder
            && forall i :: 0 <= i < |s.history| ==>
                 s'.history[i] == if t.value <= i < s.nextIndex then None else s.history[i]
  {
    TargetBelow(s, block);
    var t := TargetSlot(s, block).value;
    if t <= s.nextIndex {
      forall i | 0 <= i < |s.history|
        ensures Cleared(s.history, t, s.nextIndex)[i] == if t <= i < s.nextIndex then None else s.history[i]
      {
        ClearedAt(s.history, t, s.nextIndex, i);
      }
    }
  }

  /** No slot that a rewind to this height leaves is above it. */
  ghost predicate LeavesNoneAbove(s: Light, block: U64) {
    forall i :: 0 <= i < |s.history| && s.history[i].Some? && s.history[i].value.block > block ==>
      TargetSlot(s, block).Some? && TargetSlot(s, block).value <= i < s.nextIndex
  }

  /** A slot is filled when a higher block arrives, so none holds the last block number. */
  ghost predicate Followed(s: Light) {
    WindowOk(s) && forall i :: 0 <= i < |s.history| && s.history[i].Some? ==> s.history[i].value.block < MAX_U64
  }

  lemma {:induction false} StepFollowed(s: Light, c: Command)
    requires Followed(s) && (s.current.placeholder ==> s.current.block == 0)
    ensures var s' := Step(s, c).0; Followed(s') && (s'.current.placeholder ==> s'.current.block == 0)
  {
    match c
    case Deliver(b) =>
      forall i | 0 <= i < |s.history| && Step(s, c).0.history[i].Some? && Step(s, c).0 != s
        ensures Step(s, c).0.history[i].value.block < MAX_U64
      {
        SlotFrom(s, b, i);
      }
    case RevertTo(block) =>
      if RevertToBlock(s, block).1 && block != s.current.block {
        RewindLeaves(s, block);
      }
  }

  /** Deliveries and rewinds of a wrapped store. */
  ghost function After(s: Light, cs: seq<Command>): (s': Light)
    requires WindowOk(s)
    ensures WindowOk(s')
  {
    if cs == [] then s else var n := |cs| - 1; Step(After(s, cs[..n]), cs[n]).0
  }

  lemma {:induction false} AfterFollowed(size: nat, bs: seq<Block>, cs: seq<Command>)
    requires size > 0
    ensures var s := After(Wrapped(Run(NewLight(size), bs)), cs);
            Followed(s) && (s.current.placeholder ==> s.current.block == 0)
  {
    if cs == [] {
      var s, T := Run(NewLight(size), bs), LightRuns.States(bs);
      LightRuns.RunInv(size, bs);
      TimelineOrdered(T, Ledger.Of(bs));
      forall i | 0 <= i < size && s.history[i].Some?
        ensures s.history[i].value.block < MAX_U64
      {
        LightRuns.SlotHolds(s, T, i);
        assert Lower(T, |T| - 1 - LightRuns.Age(s.nextIndex, i, size), |T| - 1);
      }
    } else {
      var n := |cs| - 1;
      AfterFollowed(size, bs, cs[..n]);
      StepFollowed(After(Wrapped(Run(NewLight(size), bs)), cs[..n]), cs[n]);
    }
  }

  /** A store used for any deliveries, wrapped, and then used for any deliveries and rewinds: after one more rewind no
      later answer is from the branch it leaves if and only if it leaves no slot above its height. */
  lemma {:induction false} RewindCleanIff(size: nat, bs: seq<Block>, cs: seq<Command>, block: U64)
    requires size > 0
    requires var s := After(Wrapped(Run(NewLight(size), bs)), cs);
             block != s.current.block && RevertToBlock(s, block).1
    ensures var s := After(Wrapped(Run(NewLight(size), bs)), cs);
            && WindowOk(RevertToBlock(s, block).0)
            && (StaysOnBranch(RevertToBlock(s, block).0) <==> LeavesNoneAbove(s, block))
  {
    var s := After(Wrapped(Run(NewLight(size), bs)), cs);
    AfterFollowed(size, bs, cs);
    RewindBranchIff(s, block);
  }

  lemma {:induction false} RewindBranchIff(s: Light, block: U64)
    requires Followed(s) && RevertToBlock(s, block).1 && block != s.current.block
    ensures var s' := RevertToBlock(s, block).0;
            WindowOk(s') && (StaysOnBranch(s') <==> LeavesNoneAbove(s, block))
  {
    var s' := RevertToBlock(s, block).0;
    RewindLeaves(s, block);
    if LeavesNoneAbove(s, block) {
      CleanBranch(s');
    } else {
      var high :| 0 <= high < |s.history| && s.history[high].Some? && s.history[high].value.block > block
                  && !(s'.nextIndex <= high < s.nextIndex);
      AbandonedAnswers(s', high);
    }
  }

  /** A ring of two slots, wrapped after three blocks and rewound to the first: the second still answers. */
  lemma {:induction false} AbandonedRun(b1: Block, b2: Block, b3: Block)
    requires b1.number < b2.number < b3.number
    ensures var s := Wrapped(Run(NewLight(2), [b1, b2, b3]));
            RevertToBlock(s, b1.number).1 && !StaysOnBranch(RevertToBlock(s, b1.number).0)
  {
    ThreeDelivered(b1, b2, b3);
    var s := Run(NewLight(2), [b1, b2, b3]);
    ScanExact(s.history, b1.number);
    assert IsAt(s.history[1], b1.number) && IsAt(s.history[0], b2.number);
    assert After(Wrapped(s), []) == Wrapped(s);
    RewindCleanIff(2, [b1, b2, b3], [], b1.number);
  }
}
