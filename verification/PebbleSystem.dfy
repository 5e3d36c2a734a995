/** The store, its ledger and its readers as one system. */
module PebbleSystem {
  import opened Prelude
  import opened Records
  import opened WorldLog
  import opened Ledger
  import opened LogTime
  import opened KeyCodec
  import opened PebbleModel
  import opened PebbleSafety
  import opened PebbleRuns

  // A read is two steps, a look at the current record and a scan of the history, with anything in between but the
  // closing of its reader; for a scan after that see LateScan. Several reads of one reader may be under way.

  /** A reader's height, the log when it was opened, whether there was a block by then, and the keys whose first look
      did not settle it. */
  datatype Reader = Reader(h: U64, seen: seq<Update>, late: bool, pending: set<Key>)

  /** A reader opened now: at the height asked for, or at the tip if that is lower or none is asked for. */
  function NewReader(l: Ledger, at: Option<U64>): Reader {
    Reader(if at == None || at.value > l.tip then l.tip else at.value, l.log, l.started, {})
  }

  datatype System = System(p: Pebble, l: Ledger, readers: map<nat, Reader>)

  datatype Event =
    | Deliver(b: Block)
    | OpenReader(id: nat, at: Option<U64>)
    | CloseReader(id: nat)
    | Look(id: nat, k: Key)
    | ScanHistory(id: nat, k: Key, r: Option<Record>)
    | Restart(size: int)

  /** An answer given to a reader. */
  datatype Answer = Answer(reader: Reader, k: Key, r: Option<Record>)

  ghost predicate Next(s: System, e: Event, s': System, out: Option<Answer>) {
    match e
    case Deliver(b) =>
      s' == s.(p := CommitBlock(s.p, b.number, BlockUpdates(b)).0, l := Extend(s.l, b)) && out == None
    case OpenReader(id, at) =>
      var p := PebbleModel.NewSnapshot(s.p, at);
      && out == None && id !in s.readers
      && s' == if p == None then s
               else s.(p := p.value, readers := s.readers[id := NewReader(s.l, at)])
    case CloseReader(id) =>
      id in s.readers && out == None && s' == s.(p := Release(s.p, s.readers[id].h), readers := s.readers - {id})
    case Look(id, k) =>
      && id in s.readers
      && var r := s.readers[id];
         if Hit(s.p.db, k, r.h) then s' == s && out == Some(Answer(r, k, Current(s.p.db, k)))
         else s' == s.(readers := s.readers[id := r.(pending := r.pending + {k})]) && out == None
    case ScanHistory(id, k, rec) =>
      && id in s.readers && s' == s
      && var r := s.readers[id];
         k in r.pending && Scanned(s.p.db, k, r.h, rec) && out == Some(Answer(r, k, rec))
    case Restart(size) => s' == System(PebbleModel.Open(s.p.db, size), s.l, map[]) && out == None
  }

  /* ---- what holds throughout ---- */

  ghost function ReadersAt(readers: map<nat, Reader>, h: U64): set<nat> {
    set id | id in readers && readers[id].h == h
  }

  /** Every open reader has its own pin. */
  ghost predicate Pinned(pins: map<U64, nat>, readers: map<nat, Reader>) {
    forall h: U64 :: PinCount(pins, h) == |ReadersAt(readers, h)|
  }

  /** Nothing at or below the reader's height was written since it was opened, and what it still has to scan for was
      written above it. */
  ghost predicate ReaderOk(l: Ledger, r: Reader) {
    && r.seen <= l.log && AllAbove(l.log[|r.seen|..], r.h)
    && forall k :: k in r.pending ==> Missed(l.log, k, r.h)
  }

  /** A reader opened before any block sees height 0 of an empty log; what block 0 does to it is another matter. */
  ghost predicate ReaderInv(l: Ledger, r: Reader) {
    if r.late then l.started && ReaderOk(l, r) else r.h == 0 && r.seen == []
  }

  ghost predicate Inv(s: System) {
    && StoreOk(s.p, s.l) && PinsOk(s.p) && Pinned(s.p.pins, s.readers)
    && forall id :: id in s.readers ==> ReaderInv(s.l, s.readers[id])
  }

  lemma PinnedOpen(p: Pebble, readers: map<nat, Reader>, id: nat)
    requires Pinned(p.pins, readers) && PinsOk(p) && id in readers
    ensures var h := readers[id].h; h in p.pins && h <= p.head && p.oldest <= h + 1
  {
    var h := readers[id].h;
    assert id in ReadersAt(readers, h);
    assert PinCount(p.pins, h) == |ReadersAt(readers, h)|;
  }

  /* ---- each event ---- */

  lemma MissedLater(log: seq<Update>, ups: seq<Update>, k: Key, h: U64)
    requires Missed(log, k, h) && AllAbove(ups, h)
    ensures Missed(log + ups, k, h)
  {
    if ups == [] {
      assert log + ups == log;
    } else {
      var n := |ups| - 1;
      MissedLater(log, ups[..n], k, h);
      assert (log + ups)[..|log + ups| - 1] == log + ups[..n];
    }
  }

  lemma ReaderLater(l: Ledger, b: Block, r: Reader)
    requires ReaderOk(l, r) && IsNew(l, b) && r.h < b.number
    ensures ReaderOk(Extend(l, b), r)
  {
    var ups := BlockUpdates(b);
    TxUpdatesAt(b.number, b.txs);
    var n := |r.seen|;
    assert (l.log + ups)[n..] == l.log[n..] + ups;
    forall k | k in r.pending
      ensures Missed(l.log + ups, k, r.h)
    {
      MissedLater(l.log, ups, k, r.h);
    }
  }

  lemma DeliverInv(s: System, b: Block)
    requires Inv(s)
    ensures Inv(s.(p := CommitBlock(s.p, b.number, BlockUpdates(b)).0, l := Extend(s.l, b)))
  {
    if IsNew(s.l, b) {
      CommitOk(s.p, s.l, b);
      forall id | id in s.readers
        ensures ReaderInv(Extend(s.l, b), s.readers[id])
      {
        if s.readers[id].late {
          PinnedOpen(s.p, s.readers, id);
          ReaderLater(s.l, b, s.readers[id]);
        }
      }
    }
  }

  lemma OpenInv(s: System, id: nat, at: Option<U64>)
    requires Inv(s) && id !in s.readers && PebbleModel.NewSnapshot(s.p, at).Some?
    ensures var p := PebbleModel.NewSnapshot(s.p, at).value;
            Inv(s.(p := p, readers := s.readers[id := NewReader(s.l, at)]))
  {
    OpenPinned(s.p.pins, s.readers, id, NewReader(s.l, at));
  }

  lemma OpenPinned(pins: map<U64, nat>, readers: map<nat, Reader>, id: nat, r: Reader)
    requires Pinned(pins, readers) && id !in readers
    ensures Pinned(pins[r.h := PinCount(pins, r.h) + 1], readers[id := r])
  {
    var pins', readers' := pins[r.h := PinCount(pins, r.h) + 1], readers[id := r];
    forall h: U64
      ensures PinCount(pins', h) == |ReadersAt(readers', h)|
    {
      assert PinCount(pins, h) == |ReadersAt(readers, h)|;
      assert ReadersAt(readers', h) == ReadersAt(readers, h) + if h == r.h then {id} else {};
    }
  }

  lemma CloseInv(s: System, id: nat)
    requires Inv(s) && id in s.readers
    ensures Inv(s.(p := Release(s.p, s.readers[id].h), readers := s.readers - {id}))
  {
    var h := s.readers[id].h;
    var p, readers' := Release(s.p, h), s.readers - {id};
    PinnedOpen(s.p, s.readers, id);
    forall h': U64
      ensures PinCount(p.pins, h') == |ReadersAt(readers', h')|
    {
      assert PinCount(s.p.pins, h') == |ReadersAt(s.readers, h')|;
      assert ReadersAt(readers', h') == ReadersAt(s.readers, h') - if h' == h then {id} else {};
      assert h' == h ==> id in ReadersAt(s.readers, h');
    }
  }

  lemma LookInv(s: System, id: nat, k: Key)
    requires Inv(s) && id in s.readers && !Hit(s.p.db, k, s.readers[id].h)
    ensures var r := s.readers[id]; Inv(s.(readers := s.readers[id := r.(pending := r.pending + {k})]))
  {
    var r := s.readers[id];
    var readers' := s.readers[id := r.(pending := r.pending + {k})];
    MissIs(s.p, s.l, k, r.h);
    forall h: U64
      ensures PinCount(s.p.pins, h) == |ReadersAt(readers', h)|
    {
      assert PinCount(s.p.pins, h) == |ReadersAt(s.readers, h)|;
      assert ReadersAt(readers', h) == ReadersAt(s.readers, h);
    }
  }

  /** Reopening, with whatever history size, loses nothing but the readers. */
  lemma RestartInv(s: System, size: int)
    requires Inv(s)
    ensures Inv(System(PebbleModel.Open(s.p.db, size), s.l, map[]))
    ensures var p := PebbleModel.Open(s.p.db, size);
            p.oldest == s.p.oldest && p.head == s.p.head && p.started == s.p.started
  {
    forall h: U64
      ensures ReadersAt(map[], h) == {}
    {
    }
  }

  lemma StepInv(s: System, e: Event, s': System, out: Option<Answer>)
    requires Inv(s) && Next(s, e, s', out)
    ensures Inv(s') && (s.p.oldest <= s'.p.oldest)
  {
    match e
    case Deliver(b) =>
      DeliverInv(s, b);
      if IsNew(s.l, b) { CommitOk(s.p, s.l, b); }
    case OpenReader(id, at) => if PebbleModel.NewSnapshot(s.p, at).Some? { OpenInv(s, id, at); }
    case CloseReader(id) => CloseInv(s, id);
    case Look(id, k) => if !Hit(s.p.db, k, s.readers[id].h) { LookInv(s, id, k); }
    case ScanHistory(_, _, _) =>
    case Restart(size) => RestartInv(s, size);
  }

  /* ---- answers ---- */

  /** The log at the reader's height, now and when it was opened. */
  ghost predicate Right(l: Ledger, a: Answer) {
    a.r == AsOf(l.log, a.k, a.reader.h) == AsOf(a.reader.seen, a.k, a.reader.h)
  }

  lemma {:induction false} SeenSame(l: Ledger, r: Reader, k: Key)
    requires ReaderOk(l, r)
    ensures AsOf(l.log, k, r.h) == AsOf(r.seen, k, r.h)
  {
    var n := |r.seen|;
    assert l.log == r.seen + l.log[n..];
    AsOfEarlier(r.seen, l.log[n..], k, r.h);
  }

  /** Whatever a scan at height 0 may find is the last write of block 0, and only once that is superseded. */
  lemma {:induction false} ScanAtZero(p: Pebble, l: Ledger, k: Key, rec: Option<Record>)
    requires StoreOk(p, l) && Scanned(p.db, k, 0, rec)
    ensures var next := NextBlock(l.log, k, 0);
            rec == if next.Some? && next.value >= p.oldest then AsOf(l.log, k, 0) else None
  {
    AsOfBlock(l.log, k, 0);
    if rec.Some? {
      var b: U64, t: U64 :| Newest(p.db, k, 0, b, t) && RecordAt(p.db, HistKey(k, b, t)) == rec;
      assert CellAt(p.db, HistKey(k, b, t)) ==
        if Kept(l.log, p.oldest, k, b, t) then Some(Rec(AsOf(l.log, k, b).value)) else None;
    } else if AsOf(l.log, k, 0).Some? {
      var t := AsOf(l.log, k, 0).value.tx;
      assert CellAt(p.db, HistKey(k, 0, t)) == None;
      assert !Kept(l.log, p.oldest, k, 0, t);
    }
  }

  /** What a reader opened before any block gets: the log at height 0, except from a scan while nothing supersedes what
      block 0 wrote. */
  ghost predicate EarlyAnswer(l: Ledger, e: Event, a: Answer) {
    a.r == if e.ScanHistory? && NextBlock(l.log, a.k, 0) == None then None else AsOf(l.log, a.k, 0)
  }

  lemma EarlyRight(s: System, e: Event, s': System, out: Option<Answer>)
    requires Inv(s) && Next(s, e, s', out) && out.Some? && !out.value.reader.late
    ensures EarlyAnswer(s.l, e, out.value)
  {
    if e.Look? {
      HitRight(s.p, s.l, e.k, 0);
    } else {
      PinnedOpen(s.p, s.readers, e.id);
      ScanAtZero(s.p, s.l, e.k, out.value.r);
      NextPositive(s.l.log, e.k);
    }
  }

  lemma {:induction false} NextPositive(log: seq<Update>, k: Key)
    ensures NextBlock(log, k, 0).Some? ==> NextBlock(log, k, 0).value > 0
  {
    if log != [] {
      NextPositive(log[..|log| - 1], k);
    }
  }

  lemma LateRight(s: System, e: Event, s': System, out: Option<Answer>)
    requires Inv(s) && Next(s, e, s', out) && out.Some? && out.value.reader.late
    ensures Right(s.l, out.value)
  {
    var id := e.id;
    var r := s.readers[id];
    SeenSame(s.l, r, e.k);
    if e.Look? {
      HitRight(s.p, s.l, e.k, r.h);
    } else {
      PinnedOpen(s.p, s.readers, id);
      ScanRight(s.p, s.l, e.k, r.h, out.value.r);
    }
  }

  /** Every answer is the last write at or below the reader's height, as it was when the reader was opened, if and only
      if there was a block by then or block 0 did not write the key. */
  lemma AnswerRight(s: System, e: Event, s': System, out: Option<Answer>)
    requires Inv(s) && Next(s, e, s', out) && out.Some?
    ensures Right(s.l, out.value) <==> out.value.reader.late || AsOf(s.l.log, out.value.k, 0) == None
    ensures !out.value.reader.late ==> EarlyAnswer(s.l, e, out.value)
  {
    if out.value.reader.late {
      LateRight(s, e, s', out);
    } else {
      EarlyRight(s, e, s', out);
      assert AsOf([], out.value.k, 0) == None;
    }
  }

  ghost function NewSystem(size: int): System {
    System(PebbleModel.Open(map[], size), NoBlocks, map[])
  }

  lemma FreshInv(size: int)
    ensures Inv(NewSystem(size))
  {
    forall h: U64
      ensures ReadersAt(map[], h) == {}
    {
    }
    forall k: Key, b: U64, t: U64
      ensures !Kept([], 0, k, b, t)
    {
    }
  }

  /** One event and its outcome. */
  datatype Occurrence = Occurrence(e: Event, after: System, out: Option<Answer>)

  ghost predicate Trace(s: System, os: seq<Occurrence>)
    decreases |os|
  {
    os == [] || (Next(s, os[0].e, os[0].after, os[0].out) && Trace(os[0].after, os[1..]))
  }

  /** An answer is right exactly when it should be. */
  ghost predicate Judged(o: Occurrence) {
    o.out.Some? ==>
      var a := o.out.value;
      && (Right(o.after.l, a) <==> a.reader.late || AsOf(o.after.l.log, a.k, 0) == None)
      && (!a.reader.late ==> a.reader.h == 0 && a.reader.seen == [] && EarlyAnswer(o.after.l, o.e, a))
  }

  lemma OccurrenceRight(s: System, o: Occurrence)
    requires Inv(s) && Next(s, o.e, o.after, o.out)
    ensures Inv(o.after) && s.p.oldest <= o.after.p.oldest && Judged(o)
  {
    StepInv(s, o.e, o.after, o.out);
    if o.out.Some? {
      AnswerRight(s, o.e, o.after, o.out);
    }
  }

  lemma {:induction false} TraceFrom(s: System, os: seq<Occurrence>, i: nat)
    requires Inv(s) && Trace(s, os) && i < |os|
    ensures Inv(os[i].after) && s.p.oldest <= os[i].after.p.oldest && Judged(os[i])
    decreases |os|
  {
    var o := os[0];
    OccurrenceRight(s, o);
    if i > 0 {
      TraceFrom(o.after, os[1..], i - 1);
      assert os[1..][i - 1] == os[i];
    }
  }

  lemma {:induction false} BoundRises(s: System, os: seq<Occurrence>, i: nat, j: nat)
    requires Inv(s) && Trace(s, os) && i < j < |os|
    ensures os[i].after.p.oldest <= os[j].after.p.oldest
    decreases i
  {
    var o, later := os[0], os[1..];
    OccurrenceRight(s, o);
    assert later[j - 1] == os[j];
    if i == 0 {
      TraceFrom(o.after, later, j - 1);
    } else {
      BoundRises(o.after, later, i - 1, j - 1);
      assert later[i - 1] == os[i];
    }
  }

  /** From a new store, over every interleaving: the invariant holds, the lower bound never falls, and every answer to a
      reader opened after a block was committed is right.  An answer to a reader opened before that is right if and only
      if block 0 did not write the key. */
  lemma {:induction false} Isolation(size: int, os: seq<Occurrence>, i: nat)
    requires Trace(NewSystem(size), os) && i < |os|
    ensures Inv(os[i].after)
    ensures os[i].out.Some? ==>
              var a := os[i].out.value;
              Right(os[i].after.l, a) <==> a.reader.late || AsOf(os[i].after.l.log, a.k, 0) == None
    ensures forall j :: i <= j < |os| ==> os[i].after.p.oldest <= os[j].after.p.oldest
  {
    FreshInv(size);
    TraceFrom(NewSystem(size), os, i);
    forall j | i < j < |os|
      ensures os[i].after.p.oldest <= os[j].after.p.oldest
    {
      BoundRises(NewSystem(size), os, i, j);
    }
  }

  /** Over every interleaving: what a reader opened before any block is answered, and when it still sees nothing, as it
      did when it was opened. */
  lemma {:induction false} BeforeAnyBlock(size: int, os: seq<Occurrence>, i: nat)
    requires Trace(NewSystem(size), os) && i < |os| && os[i].out.Some? && !os[i].out.value.reader.late
    ensures var log, a := os[i].after.l.log, os[i].out.value;
            && a.r == (if os[i].e.ScanHistory? && NextBlock(log, a.k, 0) == None then None else AsOf(log, a.k, 0))
            && (a.r == AsOf(a.reader.seen, a.k, a.reader.h) <==>
                  AsOf(log, a.k, 0) == None || (os[i].e.ScanHistory? && NextBlock(log, a.k, 0) == None))
  {
    FreshInv(size);
    TraceFrom(NewSystem(size), os, i);
    assert AsOf([], os[i].out.value.k, 0) == None;
  }

  /* ---- a scan that outlives its reader ---- */

  lemma ReaderStays(s: System, e: Event, s': System, out: Option<Answer>, r: Reader)
    requires Next(s, e, s', out) && s.l.started && ReaderOk(s.l, r) && r.h <= s.l.tip
    ensures s'.l.started && ReaderOk(s'.l, r) && r.h <= s'.l.tip
  {
    if e.Deliver? && IsNew(s.l, e.b) {
      ReaderLater(s.l, e.b, r);
    }
  }

  lemma {:induction false} ReaderThrough(s: System, os: seq<Occurrence>, i: nat, r: Reader)
    requires Inv(s) && Trace(s, os) && i < |os| && s.l.started && ReaderOk(s.l, r) && r.h <= s.l.tip
    ensures Inv(os[i].after) && ReaderOk(os[i].after.l, r)
    decreases |os|
  {
    var o := os[0];
    OccurrenceRight(s, o);
    ReaderStays(s, o.e, o.after, o.out, r);
    if i > 0 {
      ReaderThrough(o.after, os[1..], i - 1, r);
      assert os[1..][i - 1] == os[i];
    }
  }

  /** Get looks at whether its reader is closed only once, so a close and commits that prune can come between its two
      reads.  Whatever came between, the scan then gives what the reader saw if and only if the write in force at its
      height was not superseded below the lower bound.  For a reader opened before any block, ScanAtZero says at every
      moment what it gives. */
  lemma {:induction false} LateScan(s: System, os: seq<Occurrence>, i: nat, id: nat, k: Key, rec: Option<Record>)
    requires Inv(s) && Trace(s, os) && i < |os| && id in s.readers && s.readers[id].late
    requires k in s.readers[id].pending
    requires Scanned(os[i].after.p.db, k, s.readers[id].h, rec)
    ensures var s', r := os[i].after, s.readers[id];
            rec == AsOf(r.seen, k, r.h) <==> StillKept(s'.l.log, s'.p.oldest, k, r.h)
  {
    var r := s.readers[id];
    PinnedOpen(s.p, s.readers, id);
    ReaderThrough(s, os, i, r);
    SeenSame(os[i].after.l, r, k);
    ScanRightIff(os[i].after.p, os[i].after.l, k, r.h, rec);
  }

  /* ---- readers opened before any block ---- */

  /** A read that such a reader begins once block 0 wrote the key gives that record: at the first look, or by a scan
      however much later. */
  lemma {:induction false} EarlyReadBegun(s: System, os: seq<Occurrence>, i: nat, k: Key)
    requires Inv(s) && Trace(s, os) && i < |os| && s.l.started && AsOf(s.l.log, k, 0).Some?
    ensures Hit(s.p.db, k, 0) ==> Current(s.p.db, k) == AsOf(s.l.log, k, 0)
    ensures !Hit(s.p.db, k, 0) && os[i].out.Some? && os[i].out.value.k == k && !os[i].out.value.reader.late ==>
              os[i].out.value.r == AsOf(s.l.log, k, 0)
  {
    if Hit(s.p.db, k, 0) {
      HitRight(s.p, s.l, k, 0);
    } else {
      MissIs(s.p, s.l, k, 0);
      TraceFrom(s, os, i);
      SupersededStill(s, os, i, k);
    }
  }

  lemma {:induction false} SupersededStill(s: System, os: seq<Occurrence>, i: nat, k: Key)
    requires Inv(s) && Trace(s, os) && i < |os| && s.l.started && AsOf(s.l.log, k, 0).Some? && Missed(s.l.log, k, 0)
    ensures var log := os[i].after.l.log; AsOf(log, k, 0) == AsOf(s.l.log, k, 0) && NextBlock(log, k, 0).Some?
  {
    var r, l := Reader(0, s.l.log, true, {k}), os[i].after.l;
    ReaderThrough(s, os, i, r);
    SeenSame(l, r, k);
    assert Missed(l.log, k, 0);
    NextIff(l.log, k, 0);
    AsOfMono(l.log, k, 0, MAX_U64);
  }

  /** Right after block 0 the first look of such a reader settles exactly the keys that block wrote. */
  lemma BlockZeroVisible(p: Pebble, l: Ledger, b: Block, k: Key)
    requires StoreOk(p, l) && PinsOk(p) && !l.started && b.number == 0
    ensures Hit(CommitBlock(p, 0, BlockUpdates(b)).0.db, k, 0) <==> Wrote(BlockUpdates(b), k)
  {
    var ups := BlockUpdates(b);
    assert l.log == [] && [] + ups == ups;
    CommitOk(p, l, b);
    CountZero(ups, k);
    TxUpdatesAt(0, b.txs);
    AsOfBelow(ups, k, MAX_U64, 0);
    assert CellAt(Commit(p, 0, ups).db, DataKey(k)) == RecOf(Latest(ups, k));
  }

  /* ---- the window ---- */

  /** Each history entry has exactly one index entry, and each index entry its history entry. */
  lemma OneToOne(p: Pebble, l: Ledger, k: Key, b: U64, t: U64)
    requires StoreOk(p, l)
    ensures HistKey(k, b, t) in p.db <==> exists c: U64 :: IndexKey(c, k, b, t) in p.db
    ensures forall c: U64, c': U64 :: IndexKey(c, k, b, t) in p.db && IndexKey(c', k, b, t) in p.db ==> c == c'
  {
    assert CellAt(p.db, HistKey(k, b, t)) ==
      if Kept(l.log, p.oldest, k, b, t) then Some(Rec(AsOf(l.log, k, b).value)) else None;
    forall c: U64
      ensures IndexKey(c, k, b, t) in p.db <==> Kept(l.log, p.oldest, k, b, t) && NextBlock(l.log, k, b) == Some(c)
    {
      assert CellAt(p.db, IndexKey(c, k, b, t)) ==
        if Kept(l.log, p.oldest, k, b, t) && NextBlock(l.log, k, b) == Some(c) then Some(Nothing) else None;
    }
    if HistKey(k, b, t) in p.db {
      assert IndexKey(NextBlock(l.log, k, b).value, k, b, t) in p.db;
    }
  }

  /** A request is served exactly when its height is at or above the lower bound. */
  lemma OpensIff(s: System, at: Option<U64>)
    requires Inv(s)
    ensures PebbleModel.NewSnapshot(s.p, at).Some? <==> NewReader(s.l, at).h >= s.p.oldest
  {
  }

  /** What leaves the window with a block: nothing up to the history size; then everything created more than that many
      blocks before, or at or below the lowest pinned height if that is lower. */
  ghost predicate IsCutoff(p: Pebble, block: U64, c: U64) {
    && block > p.size && c <= block - p.size - 1 && (forall h :: h in p.pins ==> c <= h)
    && (c == block - p.size - 1 || c in p.pins)
  }

  /** The lower bound after a commit: as it was without a cutoff, else at least one above it. */
  lemma {:induction false} BoundAfter(p: Pebble, block: U64, ups: seq<Update>)
    requires p.size > 0
    ensures Cutoff(p, block) == None <==> block <= p.size
    ensures forall c: U64 :: Cutoff(p, block) == Some(c) <==> IsCutoff(p, block, c)
    ensures var oldest := Commit(p, block, ups).oldest;
            && (block <= p.size ==> oldest == p.oldest)
            && forall c: U64 :: IsCutoff(p, block, c) ==> oldest == if c + 1 > p.oldest then c + 1 else p.oldest
  {
    LowestIs(p.pins.Keys);
    CutoffIs(p, block);
    forall c: U64 | IsCutoff(p, block, c)
      ensures Cutoff(p, block) == Some(c)
    {
      assert Cutoff(p, block).value <= c by {
        assert c in p.pins ==> Cutoff(p, block).value <= c;
      }
    }
  }

  /** A prune drops exactly the entries created at or below its cutoff, gaps in the block numbers or not. */
  lemma PruneExact(p: Pebble, l: Ledger, b: Block, c: U64, k: Key, block: U64, tx: U64)
    requires StoreOk(p, l) && PinsOk(p) && IsNew(l, b) && IndexKey(c, k, block, tx) in p.db
    ensures var db, cutoff := Commit(p, b.number, BlockUpdates(b)).db, Cutoff(p, b.number);
            && (IndexKey(c, k, block, tx) in db <==> cutoff == None || c > cutoff.value)
            && (HistKey(k, block, tx) in db <==> cutoff == None || c > cutoff.value)
  {
    var ups := BlockUpdates(b);
    var p', l' := Commit(p, b.number, ups), Extend(l, b);
    CommitOk(p, l, b);
    CutoffIs(p, b.number);
    UnderNew(l, b);
    TxUpdatesAt(b.number, b.txs);
    assert CellAt(p.db, IndexKey(c, k, block, tx)) ==
      if Kept(l.log, p.oldest, k, block, tx) && NextBlock(l.log, k, block) == Some(c) then Some(Nothing) else None;
    KeptNext(l.log, ups, b.number, p.oldest, k, block, tx);
    assert CellAt(p'.db, IndexKey(c, k, block, tx)) ==
      if Kept(l'.log, p'.oldest, k, block, tx) && NextBlock(l'.log, k, block) == Some(c) then Some(Nothing) else None;
    assert CellAt(p'.db, HistKey(k, block, tx)) ==
      if Kept(l'.log, p'.oldest, k, block, tx) then Some(Rec(AsOf(l'.log, k, block).value)) else None;
  }

  /** Every height from the lower bound to the head is answered as the log says, also after reopening with
      another history size; lower ones are refused. */
  lemma {:induction false} Answerable(s: System, size: int, h: U64, k: Key, r: Option<Record>)
    requires Inv(s) && h <= s.p.head
    ensures var p := PebbleModel.Open(s.p.db, size);
            && (PebbleModel.NewSnapshot(p, Some(h)).Some? <==> h >= s.p.oldest)
            && (h >= s.p.oldest && Hit(p.db, k, h) ==> Current(p.db, k) == AsOf(s.l.log, k, h))
            && (h >= s.p.oldest && !Hit(p.db, k, h) && Scanned(p.db, k, h, r) ==> r == AsOf(s.l.log, k, h))
  {
    RestartInv(s, size);
    var p := PebbleModel.Open(s.p.db, size);
    if h >= s.p.oldest {
      if Hit(p.db, k, h) {
        HitRight(p, s.l, k, h);
      } else if Scanned(p.db, k, h, r) {
        MissIs(p, s.l, k, h);
        ScanRight(p, s.l, k, h, r);
      }
    }
  }
}
