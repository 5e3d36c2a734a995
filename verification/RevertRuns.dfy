/** The window against an unbounded timeline, over every run of deliveries and rewinds. */
module RevertRuns {
  import opened Prelude
  import opened Records
  import opened WorldLog
  import opened LightModel
  import opened RevertModel
  import Ledger
  import LightRuns

  /* ---- the timeline ---- */

  /** Heights rise, except that block 0 may follow the placeholder. */
  ghost predicate Ordered(T: seq<Snapshot>) {
    && T != [] && (T[0].placeholder ==> T[0] == Before)
    && (forall i :: 0 < i < |T| ==> !T[i].placeholder)
    && (forall i, j :: 0 <= i < j < |T| ==> Lower(T, i, j))
  }

  predicate Lower(T: seq<Snapshot>, i: int, j: int)
    requires 0 <= i < j < |T|
  {
    T[i].block < T[j].block || (i == 0 && j == 1 && T[0] == Before && T[1].block == 0)
  }

  /** Keys are never dropped. */
  ghost predicate Nested(T: seq<Snapshot>) {
    forall i, j :: 0 <= i <= j < |T| ==> KeysKept(T[i], T[j])
  }

  ghost predicate KeysKept(sn: Snapshot, sn': Snapshot) {
    sn.data.Keys <= sn'.data.Keys
  }

  /** The window holds the timeline from f to just before the tip, oldest first, and nothing else. */
  ghost predicate Window(s: Light, T: seq<Snapshot>, f: nat) {
    && f < |T| && s.current == T[|T| - 1] && s.nextIndex == |T| - 1 - f <= |s.history|
    && (forall i :: 0 <= i < s.nextIndex ==> s.history[i] == Some(T[f + i]))
    && (forall i :: s.nextIndex <= i < |s.history| ==> s.history[i] == None)
  }

  /** A key's version plus one is the number of writes ever applied to it. */
  ghost predicate Versions(data: map<Key, Record>, applied: seq<Update>) {
    forall k ::
      && (k in data <==> WriteCount(applied, k) > 0)
      && (k in data ==> data[k].version == Wrap(WriteCount(applied, k) - 1))
  }

  /** A timeline, how much of it is forgotten, and every write ever applied, rewound or not. */
  datatype Line = Line(T: seq<Snapshot>, f: nat, applied: seq<Update>)

  ghost predicate Inv(s: Light, l: Line) {
    Ordered(l.T) && Nested(l.T) && Window(s, l.T, l.f) && Versions(s.current.data, l.applied)
  }

  /** The last snapshot at or below a height, or -1. */
  function LastAtOrBelow(T: seq<Snapshot>, block: U64): (j: int)
    ensures -1 <= j < |T| && (j >= 0 ==> T[j].block <= block)
  {
    if T == [] then -1
    else
      var n := |T| - 1;
      if T[n].block <= block then n else LastAtOrBelow(T[..n], block)
  }

  lemma {:induction false} AboveLast(T: seq<Snapshot>, block: U64, i: nat)
    requires LastAtOrBelow(T, block) < i < |T|
    ensures T[i].block > block
  {
    var n := |T| - 1;
    if i < n {
      AboveLast(T[..n], block, i);
    }
  }

  /** The placeholder hides block 0: both are in the window and the height falls between block 0 and the next. */
  predicate Shadowed(T: seq<Snapshot>, f: nat, block: U64) {
    f == 0 && |T| > 2 && T[0] == Before && T[1].block == 0 && 0 < block < T[2].block
  }

  /* ---- one pass over the window ---- */

  ghost predicate IsAt(slot: Option<Snapshot>, block: U64) {
    slot.Some? && slot.value.block == block
  }

  ghost predicate IsBelow(slot: Option<Snapshot>, block: U64) {
    slot.Some? && slot.value.block < block
  }

  lemma {:induction false} ScanExact(history: seq<Option<Snapshot>>, block: U64)
    ensures var e := Scan(history, block).0;
            && (e.Some? ==>
                  IsAt(history[e.value], block) && forall i :: e.value < i < |history| ==> !IsAt(history[i], block))
            && (e == None ==> forall i :: 0 <= i < |history| ==> !IsAt(history[i], block))
  {
    if history != [] {
      ScanExact(history[..|history| - 1], block);
    }
  }

  lemma {:induction false} ScanBest(history: seq<Option<Snapshot>>, block: U64)
    ensures var b := Scan(history, block).1;
            && (b == None ==> forall i :: 0 <= i < |history| ==> !IsBelow(history[i], block))
            && (b.Some? ==>
                  && IsBelow(history[b.value], block)
                  && (forall i :: 0 <= i < |history| && IsBelow(history[i], block) ==>
                        history[i].value.block <= history[b.value].value.block)
                  && (forall i :: 0 <= i < b.value && IsBelow(history[i], block) ==>
                        history[i].value.block < history[b.value].value.block))
  {
    if history != [] {
      ScanBest(history[..|history| - 1], block);
    }
  }

  /** The position on the timeline a past height resolves to. */
  function Target(T: seq<Snapshot>, f: nat, block: U64): int {
    if Shadowed(T, f, block) then 0 else LastAtOrBelow(T, block)
  }

  lemma {:induction false} FoundNone(s: Light, T: seq<Snapshot>, f: nat, block: U64)
    requires Window(s, T, f) && LastAtOrBelow(T, block) < f
    ensures Scan(s.history, block) == (None, None)
  {
    ScanExact(s.history, block);
    ScanBest(s.history, block);
    forall i | 0 <= i < |s.history|
      ensures !IsAt(s.history[i], block) && !IsBelow(s.history[i], block)
    {
      if i < s.nextIndex {
        AboveLast(T, block, f + i);
      }
    }
  }

  lemma {:induction false} FoundExact(s: Light, T: seq<Snapshot>, f: nat, block: U64)
    requires Window(s, T, f) && f <= LastAtOrBelow(T, block) < |T| - 1 && T[LastAtOrBelow(T, block)].block == block
    ensures Scan(s.history, block).0 == Some(LastAtOrBelow(T, block) - f)
  {
    ScanExact(s.history, block);
    var j, e := LastAtOrBelow(T, block), Scan(s.history, block).0;
    assert s.history[j - f] == Some(T[j]) && IsAt(s.history[j - f], block);
    assert s.history[e.value] == Some(T[f + e.value]);
    if f + e.value > j {
      AboveLast(T, block, f + e.value);
    }
  }

  /** Around the last snapshot at or below a height. */
  lemma {:induction false} OrderAround(T: seq<Snapshot>, block: U64, i: nat)
    requires Ordered(T) && i < |T| && LastAtOrBelow(T, block) >= 0
    ensures var j := LastAtOrBelow(T, block);
            && (i > j ==> T[i].block > block)
            && (i < j ==> Lower(T, i, j) && T[i].block <= T[j].block)
  {
    var j := LastAtOrBelow(T, block);
    if i > j {
      AboveLast(T, block, i);
    } else if i < j {
      assert Lower(T, i, j);
    }
  }

  lemma {:induction false} ShadowedAt(T: seq<Snapshot>, f: nat, block: U64)
    requires Ordered(T) && Shadowed(T, f, block)
    ensures LastAtOrBelow(T, block) == 1
  {
    BelowTarget(T, 2, block);
    if LastAtOrBelow(T, block) < 1 {
      AboveLast(T, block, 1);
    }
  }

  lemma {:induction false} FoundBelow(s: Light, T: seq<Snapshot>, f: nat, block: U64)
    requires Ordered(T) && Window(s, T, f)
    requires f <= LastAtOrBelow(T, block) < |T| - 1 && T[LastAtOrBelow(T, block)].block < block
    ensures Scan(s.history, block) == (None, Some(Target(T, f, block) - f))
  {
    ScanExact(s.history, block);
    ScanBest(s.history, block);
    var j, b := LastAtOrBelow(T, block), Scan(s.history, block).1;
    forall i | 0 <= i < |s.history|
      ensures !IsAt(s.history[i], block)
    {
      if i < s.nextIndex {
        OrderAround(T, block, f + i);
      }
    }
    assert s.history[j - f] == Some(T[j]) && IsBelow(s.history[j - f], block);
    assert s.history[b.value] == Some(T[f + b.value]);
    OrderAround(T, block, f + b.value);
    if Shadowed(T, f, block) {
      ShadowedAt(T, f, block);
      assert s.history[0] == Some(T[0]) && IsBelow(s.history[0], block);
    } else if f + b.value < j {
      AboveLast(T, block, j + 1);
    }
  }

  /** What the pass finds, in terms of the timeline. */
  lemma {:induction false} TargetFound(s: Light, T: seq<Snapshot>, f: nat, block: U64)
    requires Ordered(T) && Window(s, T, f) && block < s.current.block
    ensures var t := Target(T, f, block);
            TargetSlot(s, block) == if t >= f then Some(t - f) else None
  {
    var j := LastAtOrBelow(T, block);
    if Shadowed(T, f, block) {
      ShadowedAt(T, f, block);
    }
    if j < f {
      FoundNone(s, T, f, block);
    } else if T[j].block == block {
      FoundExact(s, T, f, block);
    } else {
      FoundBelow(s, T, f, block);
    }
  }

  /** A read at a height gets the last snapshot at or below it on the timeline, and an error exactly when all
      of those are forgotten; only where the placeholder hides block 0 does it get the placeholder. */
  lemma {:induction false} SnapshotExact(s: Light, T: seq<Snapshot>, f: nat, block: U64)
    requires Ordered(T) && Window(s, T, f) && block < s.current.block
    ensures var j := LastAtOrBelow(T, block);
            NearestSnapshot(s, Some(block)) ==
              if Shadowed(T, f, block) then Some(Before) else if j >= f then Some(T[j]) else None
  {
    TargetFound(s, T, f, block);
  }

  /** So it is right exactly where nothing is hidden. */
  lemma {:induction false} SnapshotRightIff(s: Light, T: seq<Snapshot>, f: nat, block: U64)
    requires Ordered(T) && Window(s, T, f) && block < s.current.block
    ensures var j := LastAtOrBelow(T, block);
            NearestSnapshot(s, Some(block)) == (if j >= f then Some(T[j]) else None) <==> !Shadowed(T, f, block)
  {
    SnapshotExact(s, T, f, block);
    if Shadowed(T, f, block) {
      ShadowedAt(T, f, block);
    }
  }

  /* ---- deliveries ---- */

  lemma {:induction false} ApplyKeys(data: map<Key, Record>, ups: seq<Update>)
    ensures data.Keys <= ApplyAll(data, ups).Keys
  {
    if ups != [] {
      ApplyKeys(data, ups[..|ups| - 1]);
    }
  }

  lemma {:induction false} ApplyVersions(data: map<Key, Record>, applied: seq<Update>, ups: seq<Update>)
    requires Versions(data, applied)
    ensures Versions(ApplyAll(data, ups), applied + ups)
  {
    if ups == [] {
      assert applied + ups == applied;
    } else {
      var n := |ups| - 1;
      ApplyVersions(data, applied, ups[..n]);
      VersionsNext(ApplyAll(data, ups[..n]), applied + ups[..n], ups[n]);
      Snoc(ups);
      Associate(applied, ups[..n], [ups[n]]);
    }
  }

  lemma VersionsNext(data: map<Key, Record>, applied: seq<Update>, u: Update)
    requires Versions(data, applied)
    ensures Versions(ApplyOne(data, u), applied + [u])
  {
    Append(applied, u);
    if u.key in data {
      WrapInc(WriteCount(applied, u.key) - 1);
    }
  }

  predicate IsNew(T: seq<Snapshot>, b: Block)
    requires T != []
  {
    var tip := T[|T| - 1];
    tip.placeholder || b.number > tip.block
  }

  lemma OrderedNext(T: seq<Snapshot>, b: Block)
    requires Ordered(T) && Nested(T) && IsNew(T, b)
    ensures Ordered(T + [LightRuns.Next(T, b)]) && Nested(T + [LightRuns.Next(T, b)])
  {
    var n, T' := |T| - 1, T + [LightRuns.Next(T, b)];
    ApplyKeys(T[n].data, BlockUpdates(b));
    forall i, j | 0 <= i < j < |T'|
      ensures Lower(T', i, j)
    {
      if j <= n {
        assert Lower(T, i, j);
      } else if i < n {
        assert Lower(T, i, n);
      }
    }
    forall i, j | 0 <= i <= j < |T'|
      ensures KeysKept(T'[i], T'[j])
    {
      if j <= n {
        assert KeysKept(T[i], T[j]);
      } else if i <= n {
        assert KeysKept(T[i], T[n]);
      }
    }
  }

  /** What is forgotten once there are n snapshots. */
  function Forget(size: nat, f: nat, n: nat): nat {
    if n - 1 - f > size then n - 1 - size else f
  }

  lemma WindowNext(s: Light, T: seq<Snapshot>, f: nat, block: U64, ups: seq<Update>)
    requires Window(s, T, f)
    ensures var s' := ApplySequential(s, block, ups);
            |s'.history| == |s.history| && Window(s', T + [s'.current], Forget(|s.history|, f, |T| + 1))
  {
    if s.history != [] && s.nextIndex == |s.history| {
      var s' := ApplySequential(s, block, ups);
      assert forall i :: 0 <= i < |s.history| - 1 ==> s'.history[i] == s.history[i + 1];
    }
  }

  /* ---- rewinding ---- */

  function Merged(T: seq<Snapshot>, t: nat, block: U64): Snapshot
    requires t < |T|
  {
    Snapshot(block, Merge(T[|T| - 1].data, T[t].data), false)
  }

  lemma {:induction false} OrderedRewind(T: seq<Snapshot>, f: nat, block: U64)
    requires Ordered(T) && Nested(T) && block < T[|T| - 1].block && f <= Target(T, f, block)
    ensures var t := Target(T, f, block);
            Ordered(T[..t] + [Merged(T, t, block)]) && Nested(T[..t] + [Merged(T, t, block)])
  {
    var t := Target(T, f, block);
    var T' := T[..t] + [Merged(T, t, block)];
    forall i, j | 0 <= i < j < |T'|
      ensures Lower(T', i, j)
    {
      assert Lower(T, i, j);
      if Shadowed(T, f, block) {
      } else if j == t == 1 && f == 0 && T[1].block == 0 && T[0] == Before && block > 0 {
        AboveLast(T, block, 2);
      }
    }
    forall i, j | 0 <= i <= j < |T'|
      ensures KeysKept(T'[i], T'[j])
    {
      if j < t {
        assert KeysKept(T[i], T[j]);
      } else if i < t {
        assert KeysKept(T[i], T[|T| - 1]);
      }
    }
  }

  lemma WindowCut(s: Light, T: seq<Snapshot>, f: nat, t: nat, tip: Snapshot)
    requires Window(s, T, f) && f <= t < |T| - 1
    ensures Window(Light(tip, Cleared(s.history, t - f, s.nextIndex), t - f), T[..t] + [tip], f)
  {
    var h := Cleared(s.history, t - f, s.nextIndex);
    assert forall i :: 0 <= i < t - f ==> h[i] == s.history[i];
  }

  lemma {:induction false} RewindIs(s: Light, T: seq<Snapshot>, f: nat, block: U64)
    requires Ordered(T) && Window(s, T, f) && block < s.current.block && f <= Target(T, f, block)
    ensures var t := Target(T, f, block);
            && t < |T| - 1
            && RevertToBlock(s, block)
               == (Light(Merged(T, t, block), Cleared(s.history, t - f, s.nextIndex), t - f), true)
  {
    TargetFound(s, T, f, block);
  }

  lemma {:induction false} WindowRewind(s: Light, T: seq<Snapshot>, f: nat, block: U64)
    requires Ordered(T) && Window(s, T, f) && block < s.current.block && f <= Target(T, f, block)
    ensures var t := Target(T, f, block);
            RevertToBlock(s, block).1 && Window(RevertToBlock(s, block).0, T[..t] + [Merged(T, t, block)], f)
  {
    var t := Target(T, f, block);
    RewindIs(s, T, f, block);
    WindowCut(s, T, f, t, Merged(T, t, block));
  }

  lemma MergeVersions(current: map<Key, Record>, target: map<Key, Record>, applied: seq<Update>)
    requires Versions(current, applied)
    ensures Versions(Merge(current, target), applied)
  {
  }

  /** After a rewind every key of the target reads as it did there, and every later key as a tombstone; block,
      transaction, transaction id and version stored with a key stay those of the tip rewound from. */
  lemma {:induction false} RewindReads(s: Light, T: seq<Snapshot>, f: nat, block: U64, k: Key)
    requires Ordered(T) && Nested(T) && Window(s, T, f) && block < s.current.block && f <= Target(T, f, block)
    ensures var target, data := T[Target(T, f, block)].data, RevertToBlock(s, block).0.current.data;
            && (k in data <==> k in s.current.data)
            && (k in target ==> k in data && data[k].value == target[k].value && data[k].isDelete == target[k].isDelete)
            && (k in data && k !in target ==> data[k].value == None && data[k].isDelete)
            && (k in data ==>
                  var was := s.current.data[k];
                  && data[k].block == was.block && data[k].tx == was.tx
                  && data[k].txId == was.txId && data[k].version == was.version)
  {
    TargetFound(s, T, f, block);
    assert KeysKept(T[Target(T, f, block)], T[|T| - 1]);
  }

  /* ---- runs ---- */

  datatype Command = Deliver(b: Block) | RevertTo(block: U64)

  ghost function Step(s: Light, c: Command): (Light, bool)
    requires WindowOk(s)
  {
    match c
    case Deliver(b) => HandleSequential(s, b)
    case RevertTo(block) => RevertToBlock(s, block)
  }

  /** The same command on the unbounded timeline. */
  function LineStep(size: nat, l: Line, c: Command): Line
    requires l.T != []
  {
    match c
    case Deliver(b) =>
      if !IsNew(l.T, b) then l
      else Line(l.T + [LightRuns.Next(l.T, b)], Forget(size, l.f, |l.T| + 1), l.applied + BlockUpdates(b))
    case RevertTo(block) =>
      var t := Target(l.T, l.f, block);
      if block < l.T[|l.T| - 1].block && t >= l.f then l.(T := l.T[..t] + [Merged(l.T, t, block)]) else l
  }

  lemma DeliverInv(s: Light, l: Line, b: Block)
    requires Inv(s, l)
    ensures var s' := HandleSequential(s, b).0;
            |s'.history| == |s.history| && Inv(s', LineStep(|s.history|, l, Deliver(b)))
  {
    if IsNew(l.T, b) {
      OrderedNext(l.T, b);
      WindowNext(s, l.T, l.f, b.number, BlockUpdates(b));
      ApplyVersions(s.current.data, l.applied, BlockUpdates(b));
    }
  }

  lemma {:induction false} NothingPast(s: Light, T: seq<Snapshot>, f: nat, block: U64)
    requires Ordered(T) && Window(s, T, f) && block > s.current.block
    ensures Scan(s.history, block).0 == None
  {
    ScanExact(s.history, block);
    forall i | 0 <= i < |s.history|
      ensures !IsAt(s.history[i], block)
    {
      if i < s.nextIndex {
        assert Lower(T, f + i, |T| - 1);
      }
    }
  }

  /** A height past the tip is refused, and so is one whose snapshots are all forgotten. */
  lemma {:induction false} RevertRefused(s: Light, T: seq<Snapshot>, f: nat, block: U64)
    requires Ordered(T) && Window(s, T, f)
    requires block > s.current.block || (block < s.current.block && Target(T, f, block) < f)
    ensures RevertToBlock(s, block) == (s, false)
  {
    if block < s.current.block {
      TargetFound(s, T, f, block);
    } else {
      NothingPast(s, T, f, block);
    }
  }

  lemma {:induction false} RevertsIff(s: Light, T: seq<Snapshot>, f: nat, block: U64)
    requires Ordered(T) && Window(s, T, f)
    ensures RevertToBlock(s, block).1
       <==> block == s.current.block || (block < s.current.block && f <= Target(T, f, block))
    ensures block >= s.current.block || !RevertToBlock(s, block).1 ==> RevertToBlock(s, block).0 == s
  {
    if block < s.current.block && f <= Target(T, f, block) {
      RewindIs(s, T, f, block);
    } else if block != s.current.block {
      RevertRefused(s, T, f, block);
    }
  }

  lemma {:induction false} RewindInv(s: Light, l: Line, block: U64)
    requires Inv(s, l) && block < s.current.block && Target(l.T, l.f, block) >= l.f
    ensures var t := Target(l.T, l.f, block);
            Inv(RevertToBlock(s, block).0, l.(T := l.T[..t] + [Merged(l.T, t, block)]))
  {
    OrderedRewind(l.T, l.f, block);
    WindowRewind(s, l.T, l.f, block);
    MergeVersions(s.current.data, l.T[Target(l.T, l.f, block)].data, l.applied);
    RewindIs(s, l.T, l.f, block);
  }

  lemma {:induction false} RevertInv(s: Light, l: Line, block: U64)
    requires Inv(s, l)
    ensures var s' := RevertToBlock(s, block).0;
            |s'.history| == |s.history| && Inv(s', LineStep(|s.history|, l, RevertTo(block)))
  {
    if block < s.current.block && Target(l.T, l.f, block) >= l.f {
      RewindInv(s, l, block);
      RewindIs(s, l.T, l.f, block);
    } else if block != s.current.block {
      RevertRefused(s, l.T, l.f, block);
    }
  }

  const NewLine := Line([Before], 0, [])

  function LineRun(size: nat, cs: seq<Command>): (l: Line)
    ensures l.T != []
  {
    if cs == [] then NewLine else var n := |cs| - 1; LineStep(size, LineRun(size, cs[..n]), cs[n])
  }

  /** The store a run ends in. */
  ghost function Reached(size: nat, cs: seq<Command>): (s: Light)
    ensures WindowOk(s)
  {
    if cs == [] then NewLight(size) else var n := |cs| - 1; Step(Reached(size, cs[..n]), cs[n]).0
  }

  /** Over every run the store keeps its window of the timeline, keys are never dropped, and a key's version
      plus one is the number of writes ever applied to it. */
  lemma {:induction false} RunInv(size: nat, cs: seq<Command>)
    ensures |Reached(size, cs).history| == size && Inv(Reached(size, cs), LineRun(size, cs))
  {
    if cs != [] {
      var n := |cs| - 1;
      var s0 := Reached(size, cs[..n]);
      RunInv(size, cs[..n]);
      match cs[n] {
        case Deliver(b) => DeliverInv(s0, LineRun(size, cs[..n]), b);
        case RevertTo(block) => RevertInv(s0, LineRun(size, cs[..n]), block);
      }
    }
  }

  /** After every run a rewind succeeds exactly when its height is the tip's or is lower and still in the window, and
      only a lower height changes anything. */
  lemma {:induction false} RunRevertsIff(size: nat, cs: seq<Command>, block: U64)
    ensures var s, l := Reached(size, cs), LineRun(size, cs);
            var tip := l.T[|l.T| - 1].block;
            && (RevertToBlock(s, block).1 <==> block == tip || (block < tip && l.f <= Target(l.T, l.f, block)))
            && (block >= tip || !RevertToBlock(s, block).1 ==> RevertToBlock(s, block).0 == s)
  {
    RunInv(size, cs);
    RevertsIff(Reached(size, cs), LineRun(size, cs).T, LineRun(size, cs).f, block);
  }

  /** Over every run: a read at a past height gets the last snapshot at or below it on the timeline, or an error
      exactly when all of those are forgotten, but for heights where the placeholder hides block 0. */
  lemma {:induction false} RunSnapshotExact(size: nat, cs: seq<Command>, block: U64)
    requires block < Reached(size, cs).current.block
    ensures var T, f := LineRun(size, cs).T, LineRun(size, cs).f;
            var j := LastAtOrBelow(T, block);
            NearestSnapshot(Reached(size, cs), Some(block)) ==
              if Shadowed(T, f, block) then Some(Before) else if j >= f then Some(T[j]) else None
  {
    RunInv(size, cs);
    SnapshotExact(Reached(size, cs), LineRun(size, cs).T, LineRun(size, cs).f, block);
  }

  /** Over every run, rewinds included: a key's version plus one is the number of writes ever applied to it. */
  lemma {:induction false} RunVersions(size: nat, cs: seq<Command>, k: Key)
    ensures var data, applied := Reached(size, cs).current.data, LineRun(size, cs).applied;
            && (k in data <==> WriteCount(applied, k) > 0)
            && (k in data ==> data[k].version == Wrap(WriteCount(applied, k) - 1))
  {
    RunInv(size, cs);
    VersionsAt(Reached(size, cs).current.data, LineRun(size, cs).applied, k);
  }

  /* ---- where stored records come from ---- */

  /** The i-th write ever applied is the last one of k, and the record carries its block, transaction and id. */
  ghost predicate StampedBy(r: Record, applied: seq<Update>, k: Key, i: nat) {
    && i < |applied| && applied[i].key == k && (forall j :: i < j < |applied| ==> applied[j].key != k)
    && r.block == applied[i].block && r.tx == applied[i].tx && r.txId == applied[i].txId
  }

  ghost predicate Stamped(data: map<Key, Record>, applied: seq<Update>) {
    forall k :: k in data ==> exists i: nat :: StampedBy(data[k], applied, k, i)
  }

  lemma StampedNext(data: map<Key, Record>, applied: seq<Update>, u: Update)
    requires Stamped(data, applied)
    ensures Stamped(ApplyOne(data, u), applied + [u])
  {
    forall k | k in ApplyOne(data, u)
      ensures exists i: nat :: StampedBy(ApplyOne(data, u)[k], applied + [u], k, i)
    {
      if k == u.key {
        assert StampedBy(ApplyOne(data, u)[k], applied + [u], k, |applied|);
      } else {
        var i: nat :| StampedBy(data[k], applied, k, i);
        assert StampedBy(ApplyOne(data, u)[k], applied + [u], k, i);
      }
    }
  }

  lemma {:induction false} ApplyStamped(data: map<Key, Record>, applied: seq<Update>, ups: seq<Update>)
    requires Stamped(data, applied)
    ensures Stamped(ApplyAll(data, ups), applied + ups)
  {
    if ups == [] {
      assert applied + ups == applied;
    } else {
      var n := |ups| - 1;
      ApplyStamped(data, applied, ups[..n]);
      StampedNext(ApplyAll(data, ups[..n]), applied + ups[..n], ups[n]);
      Snoc(ups);
      Associate(applied, ups[..n], [ups[n]]);
    }
  }

  lemma MergeStamped(current: map<Key, Record>, target: map<Key, Record>, applied: seq<Update>)
    requires Stamped(current, applied)
    ensures Stamped(Merge(current, target), applied)
  {
    forall k | k in Merge(current, target)
      ensures exists i: nat :: StampedBy(Merge(current, target)[k], applied, k, i)
    {
      var i: nat :| StampedBy(current[k], applied, k, i);
      assert StampedBy(Merge(current, target)[k], applied, k, i);
    }
  }

  /** The tip of the timeline after a command. */
  lemma LineStamped(size: nat, l: Line, c: Command)
    requires l.T != [] && Stamped(l.T[|l.T| - 1].data, l.applied)
    ensures var l' := LineStep(size, l, c); l'.T != [] && Stamped(l'.T[|l'.T| - 1].data, l'.applied)
  {
    var data := l.T[|l.T| - 1].data;
    match c
    case Deliver(b) => ApplyStamped(data, l.applied, BlockUpdates(b));
    case RevertTo(block) =>
      var t := Target(l.T, l.f, block);
      if block < l.T[|l.T| - 1].block && t >= l.f {
        MergeStamped(data, l.T[t].data, l.applied);
      }
  }

  lemma {:induction false} LineRunStamped(size: nat, cs: seq<Command>)
    ensures var l := LineRun(size, cs); Stamped(l.T[|l.T| - 1].data, l.applied)
  {
    if cs != [] {
      var n := |cs| - 1;
      LineRunStamped(size, cs[..n]);
      LineStamped(size, LineRun(size, cs[..n]), cs[n]);
    }
  }

  /** Over every run, rewinds included, a stored record carries block, transaction and transaction id of the last write
      ever applied to its key, rewound or not. */
  lemma {:induction false} RunStamped(size: nat, cs: seq<Command>)
    ensures Stamped(Reached(size, cs).current.data, LineRun(size, cs).applied)
  {
    RunInv(size, cs);
    LineRunStamped(size, cs);
  }

  lemma {:induction false} VersionsAt(data: map<Key, Record>, applied: seq<Update>, k: Key)
    requires Versions(data, applied)
    ensures k in data <==> WriteCount(applied, k) > 0
    ensures k in data ==> data[k].version == Wrap(WriteCount(applied, k) - 1)
  {
  }

  /* ---- where a rewind is a clean truncation ---- */

  ghost predicate SameBelow(s: Light, s': Light, block: U64) {
    forall h: U64 :: h < block ==> NearestSnapshot(s', Some(h)) == NearestSnapshot(s, Some(h))
  }

  lemma {:induction false} LowerKept(T: seq<Snapshot>, t: nat, sn: Snapshot, h: U64)
    requires t < |T| && sn.block > h && LastAtOrBelow(T, h) < t
    ensures LastAtOrBelow(T[..t] + [sn], h) == LastAtOrBelow(T, h)
  {
    var T' := T[..t] + [sn];
    var j, j' := LastAtOrBelow(T, h), LastAtOrBelow(T', h);
    if j > j' {
      AboveLast(T', h, j);
    } else if j' > j {
      AboveLast(T, h, j');
    }
  }

  lemma {:induction false} ShadowKept(T: seq<Snapshot>, f: nat, t: nat, sn: Snapshot, h: U64)
    requires Ordered(T) && t < |T| && T[t].block == sn.block > h
    ensures Shadowed(T[..t] + [sn], f, h) <==> Shadowed(T, f, h)
  {
    var T' := T[..t] + [sn];
    assert t < 2 ==> !Shadowed(T', f, h);
    assert t == 2 ==> T'[2].block == T[2].block && T'[0] == T[0] && T'[1] == T[1];
    assert t > 2 ==> T'[2] == T[2] && T'[0] == T[0] && T'[1] == T[1];
  }

  /** A rewind to a height the timeline has leaves every lower height as it was. */
  lemma {:induction false} ExactTruncates(s: Light, l: Line, block: U64, h: U64)
    requires Inv(s, l) && h < block < s.current.block && Target(l.T, l.f, block) >= l.f
    requires l.T[Target(l.T, l.f, block)].block == block
    ensures NearestSnapshot(RevertToBlock(s, block).0, Some(h)) == NearestSnapshot(s, Some(h))
  {
    var s', t := RevertToBlock(s, block).0, Target(l.T, l.f, block);
    var sn := Merged(l.T, t, block);
    var T' := l.T[..t] + [sn];
    assert Ordered(T') && Window(s', T', l.f) by {
      OrderedRewind(l.T, l.f, block);
      WindowRewind(s, l.T, l.f, block);
    }
    BelowTarget(l.T, t, h);
    LowerKept(l.T, t, sn, h);
    ShadowKept(l.T, l.f, t, sn, h);
    SnapshotExact(s, l.T, l.f, h);
    SnapshotExact(s', T', l.f, h);
    var j := LastAtOrBelow(l.T, h);
    assert j >= 0 ==> T'[j] == l.T[j];
  }

  lemma {:induction false} BelowTarget(T: seq<Snapshot>, t: nat, h: U64)
    requires Ordered(T) && t < |T| && h < T[t].block
    ensures LastAtOrBelow(T, h) < t
  {
    forall i | t <= i < |T|
      ensures T[i].block > h
    {
      assert i > t ==> Lower(T, t, i);
    }
  }

  lemma {:induction false} AtItself(T: seq<Snapshot>, block: U64)
    requires Ordered(T) && LastAtOrBelow(T, block) >= 0
    ensures LastAtOrBelow(T, T[LastAtOrBelow(T, block)].block) == LastAtOrBelow(T, block)
  {
    var j := LastAtOrBelow(T, block);
    var j' := LastAtOrBelow(T, T[j].block);
    if j' < j {
      AboveLast(T, T[j].block, j);
    } else if j' > j {
      AboveLast(T, block, j');
    }
  }

  /** A rewind to a height between two snapshots falls back on the lower one and forgets it. */
  lemma {:induction false} FallbackForgets(s: Light, l: Line, block: U64)
    requires Inv(s, l) && block < s.current.block && Target(l.T, l.f, block) >= l.f
    requires l.T[Target(l.T, l.f, block)].block < block
    ensures var h := l.T[Target(l.T, l.f, block)].block;
            NearestSnapshot(RevertToBlock(s, block).0, Some(h)) != NearestSnapshot(s, Some(h))
  {
    var t := Target(l.T, l.f, block);
    var h := l.T[t].block;
    var s', T' := RevertToBlock(s, block).0, l.T[..t] + [Merged(l.T, t, block)];
    assert Ordered(T') && Window(s', T', l.f) by {
      OrderedRewind(l.T, l.f, block);
      WindowRewind(s, l.T, l.f, block);
    }
    StillThere(l.T, l.f, block);
    SnapshotExact(s, l.T, l.f, h);
    SnapshotExact(s', T', l.f, h);
    NoLonger(l.T, l.f, block);
  }

  /** The snapshot fallen back on answers for its own height before the rewind. */
  lemma {:induction false} StillThere(T: seq<Snapshot>, f: nat, block: U64)
    requires Ordered(T) && Target(T, f, block) >= f && T[Target(T, f, block)].block < block
    ensures var h := T[Target(T, f, block)].block;
            && LastAtOrBelow(T, h) == LastAtOrBelow(T, block) >= f
            && T[LastAtOrBelow(T, h)].block == h && !Shadowed(T, f, h)
  {
    if Shadowed(T, f, block) {
      ShadowedAt(T, f, block);
      AtItself(T, block);
    } else {
      AtItself(T, block);
      var t := LastAtOrBelow(T, block);
      if |T| > 2 && t > 2 {
        assert Lower(T, 2, t);
      }
    }
  }

  lemma {:induction false} NoLonger(T: seq<Snapshot>, f: nat, block: U64)
    requires Ordered(T) && Target(T, f, block) >= f && T[Target(T, f, block)].block < block
    ensures var t, j := Target(T, f, block), LastAtOrBelow(T, block);
            var h, T' := T[t].block, T[..t] + [Merged(T, t, block)];
            && j >= 0 && (Shadowed(T', f, h) ==> T[j] != Before)
            && (LastAtOrBelow(T', h) >= f ==> T'[LastAtOrBelow(T', h)] != T[j])
  {
    var t, j := Target(T, f, block), LastAtOrBelow(T, block);
    var h, T' := T[t].block, T[..t] + [Merged(T, t, block)];
    if Shadowed(T, f, block) {
      ShadowedAt(T, f, block);
    }
    var j' := LastAtOrBelow(T', h);
    assert T'[t].block > h;
    if f <= j' {
      assert j' < t <= j && T'[j'] == T[j'];
      assert Lower(T, j', j);
    }
  }

  /** Lower heights keep their answers exactly when the timeline has the height rewound to. */
  lemma {:induction false} CleanIff(s: Light, l: Line, block: U64)
    requires Inv(s, l) && block < s.current.block && Target(l.T, l.f, block) >= l.f
    ensures SameBelow(s, RevertToBlock(s, block).0, block) <==> l.T[Target(l.T, l.f, block)].block == block
  {
    var t := Target(l.T, l.f, block);
    if l.T[t].block == block {
      forall h: U64 | h < block
        ensures NearestSnapshot(RevertToBlock(s, block).0, Some(h)) == NearestSnapshot(s, Some(h))
      {
        ExactTruncates(s, l, block, h);
      }
    } else {
      FallbackForgets(s, l, block);
    }
  }

  /* ---- deliveries only ---- */

  /** Without rewinds the tip is that of the plain store. */
  lemma {:induction false} SameTip(size: nat, bs: seq<Block>)
    ensures Reached(size, Deliveries(bs)).current == Run(NewLight(1), bs).current
  {
    if bs != [] {
      DeliveriesLast(bs);
      SameTip(size, bs[..|bs| - 1]);
    }
  }

  function Deliveries(bs: seq<Block>): (cs: seq<Command>)
    ensures |cs| == |bs|
  {
    seq(|bs|, i requires 0 <= i < |bs| => Deliver(bs[i]))
  }

  lemma DeliveriesLast(bs: seq<Block>)
    requires bs != []
    ensures var n, cs := |bs| - 1, Deliveries(bs); cs[..n] == Deliveries(bs[..n]) && cs[n] == Deliver(bs[n])
  {
  }

  lemma {:induction false} RunDedup(size: nat, bs: seq<Block>)
    ensures Reached(size, Deliveries(Ledger.Dedup(bs))) == Reached(size, Deliveries(bs))
  {
    if bs != [] {
      var n := |bs| - 1;
      var before := bs[..n];
      DeliveriesLast(bs);
      RunDedup(size, before);
      SameTip(size, before);
      LightRuns.RunInv(1, before);
      if Ledger.IsNew(Ledger.Of(before), bs[n]) {
        var ds := Ledger.Dedup(before) + [bs[n]];
        Append(Ledger.Dedup(before), bs[n]);
        DeliveriesLast(ds);
        assert Ledger.Dedup(bs) == ds;
      } else {
        assert Ledger.Dedup(bs) == Ledger.Dedup(before) + [] == Ledger.Dedup(before);
      }
    }
  }

  /** New blocks mixed with exact repeats: every delivery succeeds, and the store ends as if each block had
      been delivered once. */
  lemma {:induction false} AtLeastOnce(size: nat, bs: seq<Block>, b: Block)
    requires Ledger.Faithful(bs) && (Ledger.IsNew(Ledger.Of(bs), b) || b in bs)
    ensures HandleSequential(Reached(size, Deliveries(bs)), b).1
    ensures Reached(size, Deliveries(Ledger.Dedup(bs))) == Reached(size, Deliveries(bs))
  {
    RunDedup(size, bs);
    SameTip(size, bs);
    LightRuns.AtLeastOnce(1, bs, b);
  }
}
