/** The nonce gate under every interleaving of Admit's two halves, Observe, the reaper and the ledger. */
module NonceRuns {
  import opened Prelude
  import opened NonceModel
  import opened NonceSafety

  // The ledger is not part of the gate: it only ever moves a sender's nonce forwards, past every committed
  // transaction. Blocks are observed once each, in ledger order, some time after they are committed.

  /* ---- the halves of Admit and one sender of Observe, as a whole ---- */

  ghost function RefsOf(g: Gate, a: Address): nat
    requires Allocated(g)
  {
    if a in g.entries then g.heap[g.entries[a]].refs else 0
  }

  ghost function NextOf(g: Gate, a: Address): Option<U64>
    requires Allocated(g)
  {
    if a in g.entries then g.heap[g.entries[a]].next else None
  }

  ghost function LastSeenOf(g: Gate, a: Address): Time
    requires Allocated(g) && a in g.entries
  {
    g.heap[g.entries[a]].lastSeen
  }

  /** What is parked for the sender afterwards. */
  ghost predicate ParkedAs(parked: map<U64, Parked>, tx: Tx, now: Time, v: Option<Verdict>, parked': map<U64, Parked>) {
    parked' == if v == Some(ParkedAway) then parked[tx.hash.nonce := Parked(tx, now)] else parked
  }

  lemma AdmitBeginOk(g: Gate, tx: Tx, now: Time, cap: nat)
    requires GateOk(g, cap)
    ensures var a := tx.hash.from;
            var (g', r, v) := AdmitBegin(g, tx, now, cap);
            && GateOk(g', cap) && Local(g, g', a) && a in g'.entries && g'.entries[a] == r
            && NextOf(g', a) == NextOf(g, a)
            && RefsOf(g', a) == RefsOf(g, a) + (if v == None then 1 else 0)
            && (v == None <==> NextOf(g, a) == None)
            && (v.Some? ==> Judged(v.value, tx.hash.nonce, NextOf(g, a).value, ParkedOf(g, a), cap))
            && (v.Some? ==> LastSeenOf(g', a) == now)
            && ParkedAs(ParkedOf(g, a), tx, now, v, ParkedOf(g', a))
            && (v == Some(HandedOver) <==> NextOf(g', a) == Some(tx.hash.nonce))
  {
    var a := tx.hash.from;
    var (g1, r) := Acquire(g, a);
    AcquireOk(g, a, cap);
    if g1.heap[r].next.Some? {
      var (g2, v) := Judge(g1, r, tx, now, cap);
      JudgeOk(g1, a, tx, now, cap);
      LocalTrans(g, g1, g2, a);
      ReleaseOk(g2, a, cap);
      LocalTrans(g, g2, Release(g2, r), a);
    }
  }

  lemma AdmitEndOk(g: Gate, a: Address, tx: Tx, seed: Option<U64>, now: Time, cap: nat)
    requires GateOk(g, cap) && a in g.entries && a == tx.hash.from && g.heap[g.entries[a]].refs > 0
    ensures var (g', v) := AdmitEnd(g, g.entries[a], tx, seed, now, cap);
            && GateOk(g', cap) && Local(g, g', a)
            && (a in g'.entries <==> RefsOf(g, a) > 1 || NextOf(g, a).Some? || seed.Some?)
            && RefsOf(g', a) == RefsOf(g, a) - 1
            && NextOf(g', a) == (if seed == None then NextOf(g, a) else Raise(NextOf(g, a), seed.value))
            && (v == None <==> seed == None)
            && (v.Some? ==> Judged(v.value, tx.hash.nonce, NextOf(g', a).value, ParkedOf(g, a), cap))
            && (v.Some? ==> LastSeenOf(g', a) == now)
            && ParkedAs(ParkedOf(g, a), tx, now, v, ParkedOf(g', a))
            && (v == Some(HandedOver) <==> seed.Some? && NextOf(g', a) == Some(tx.hash.nonce))
  {
    var r := g.entries[a];
    if seed == None {
      ReleaseOk(g, a, cap);
    } else {
      var s := g.heap[r].(next := Raise(g.heap[r].next, seed.value));
      var g1 := g.(heap := g.heap[r := s]);
      RaiseOk(g, a, seed.value, g.heap[r].lastSeen, cap);
      var (g2, v) := Judge(g1, r, tx, now, cap);
      JudgeOk(g1, a, tx, now, cap);
      LocalTrans(g, g1, g2, a);
      ReleaseOk(g2, a, cap);
      LocalTrans(g, g2, Release(g2, r), a);
    }
  }

  lemma ObserveOneOk(g: Gate, a: Address, n: U64, now: Time, cap: nat)
    requires GateOk(g, cap)
    ensures var (g', tx) := ObserveOne(g, a, n, now);
            && GateOk(g', cap) && Local(g, g', a) && a in g'.entries
            && NextOf(g', a) == Raise(NextOf(g, a), Inc(n))
            && RefsOf(g', a) == RefsOf(g, a) && LastSeenOf(g', a) == now
            && Released(ParkedOf(g, a), NextOf(g', a).value, ParkedOf(g', a), tx)
            && (tx.Some? ==> tx.value.hash.from == a && NextOf(g', a) == Some(tx.value.hash.nonce))
  {
    var (g1, r) := Acquire(g, a);
    AcquireOk(g, a, cap);
    var next := Raise(g1.heap[r].next, Inc(n));
    var g2 := g1.(heap := g1.heap[r := g1.heap[r].(next := next, lastSeen := now)]);
    RaiseOk(g1, a, Inc(n), now, cap);
    LocalTrans(g, g1, g2, a);
    var g3 := Promote(g2, r, next.value).0;
    PromoteOk(g2, a, next.value, cap);
    LocalTrans(g, g2, g3, a);
    ReleaseOk(g3, a, cap);
    LocalTrans(g, g3, Release(g3, r), a);
  }

  /* ---- blocks ---- */

  /** The nonce after the highest counted one of sender a in a block; 0 if there is none. */
  ghost function NextAfter(block: seq<Commit>, a: Address): nat {
    if block == [] then 0
    else
      var m, c := NextAfter(block[..|block| - 1], a), block[|block| - 1];
      if c.counts && c.from == a && c.nonce + 1 > m then c.nonce + 1 else m
  }

  ghost function Observed(past: seq<seq<Commit>>, a: Address): nat {
    if past == [] then 0
    else
      var m, n := Observed(past[..|past| - 1], a), NextAfter(past[|past| - 1], a);
      if n > m then n else m
  }

  /** Highest maps exactly the senders with a counted transaction, each to its highest nonce. */
  lemma {:induction false} HighestExact(block: seq<Commit>, a: Address)
    ensures a in Highest(block) <==> NextAfter(block, a) > 0
    ensures a in Highest(block) ==> Highest(block)[a] == NextAfter(block, a) - 1
  {
    if block != [] { HighestExact(block[..|block| - 1], a); }
  }

  /* ---- the system ---- */

  type ThreadId = nat

  datatype Reading = Unread | Got(nonce: U64) | Failed

  /** An Admit between its two halves. */
  datatype Thread = Thread(tx: Tx, ref: Ref, reading: Reading)

  datatype Config = Config(maxPerSender: nat, maxSenders: nat, ttl: Time)

  datatype System = System(
    g: Gate,
    ledger: map<Address, U64>,
    past: seq<seq<Commit>>,
    unobserved: seq<seq<Commit>>,
    threads: map<ThreadId, Thread>)

  const Initial := System(EmptyGate, map[], [], [], map[])

  ghost function Nonce(ledger: map<Address, U64>, a: Address): U64 {
    if a in ledger then ledger[a] else 0
  }

  datatype Step =
    | Begin(tid: ThreadId, tx: Tx, now: Time)
    | Read(tid: ThreadId)
    | ReadFails(tid: ThreadId)
    | End(tid: ThreadId, now: Time)
    | Mine(block: seq<Commit>, ledger: map<Address, U64>)
    | Observe(order: seq<Address>, now: Time)
    | Prune(order: seq<Address>, victims: seq<Address>, now: Time)

  /** A committed block moves no nonce back; a counted transaction ran at a nonce its sender had during the block. */
  ghost predicate Mined(block: seq<Commit>, ledger: map<Address, U64>, ledger': map<Address, U64>) {
    && (forall a :: Nonce(ledger, a) <= Nonce(ledger', a))
    && (forall c :: c in block && c.counts ==> Nonce(ledger, c.from) <= c.nonce < Nonce(ledger', c.from))
  }

  ghost predicate Allowed(c: Config, s: System, step: Step) {
    && Allocated(s.g)
    && match step
       case Begin(tid, _, _) => tid !in s.threads
       case Read(tid) => tid in s.threads && s.threads[tid].reading == Unread
       case ReadFails(tid) => tid in s.threads && s.threads[tid].reading == Unread
       case End(tid, _) =>
         && tid in s.threads && s.threads[tid].reading != Unread
         && s.threads[tid].ref in s.g.heap && s.g.heap[s.threads[tid].ref].refs > 0
       case Mine(block, ledger) => Mined(block, s.ledger, ledger)
       case Observe(order, _) =>
         && s.unobserved != [] && IterationOrder(order, Highest(s.unobserved[0]).Keys)
         && forall a :: a in order ==> a in Highest(s.unobserved[0])
       case Prune(order, victims, now) =>
         && IterationOrder(order, s.g.entries.Keys) && (forall a :: a in order ==> a in s.g.entries)
         && Legal(Expire(s.g, order, now, c.ttl), victims, c.maxSenders)
         && Bounded(Evict(Expire(s.g, order, now, c.ttl), victims), c.maxSenders)
  }

  ghost function SeedOf(t: Thread): Option<U64> {
    if t.reading.Got? then Some(t.reading.nonce) else None
  }

  /** The state after a step, and the transactions it handed to the queue. */
  ghost function Apply(c: Config, s: System, step: Step): (System, seq<Tx>)
    requires Allowed(c, s, step)
  {
    match step
    case Begin(tid, tx, now) =>
      var (g, r, v) := AdmitBegin(s.g, tx, now, c.maxPerSender);
      if v == None then (s.(g := g, threads := s.threads[tid := Thread(tx, r, Unread)]), [])
      else (s.(g := g), if v.value == HandedOver then [tx] else [])
    case Read(tid) =>
      var t := s.threads[tid];
      (s.(threads := s.threads[tid := t.(reading := Got(Nonce(s.ledger, t.tx.hash.from)))]), [])
    case ReadFails(tid) =>
      (s.(threads := s.threads[tid := s.threads[tid].(reading := Failed)]), [])
    case End(tid, now) =>
      var t := s.threads[tid];
      var (g, v) := AdmitEnd(s.g, t.ref, t.tx, SeedOf(t), now, c.maxPerSender);
      (s.(g := g, threads := s.threads - {tid}), if v == Some(HandedOver) then [t.tx] else [])
    case Mine(block, ledger) =>
      (s.(ledger := ledger, unobserved := s.unobserved + [block]), [])
    case Observe(order, now) =>
      var (g, handed) := ObserveAll(s.g, order, Highest(s.unobserved[0]), now);
      (s.(g := g, past := s.past + [s.unobserved[0]], unobserved := s.unobserved[1..]), handed)
    case Prune(order, victims, now) =>
      (s.(g := Evict(Expire(s.g, order, now, c.ttl), victims)), [])
  }

  /* ---- the invariant ---- */

  /** A known next nonce lies between what was observed and the ledger. */
  ghost predicate Within(next: Option<U64>, observed: nat, nonce: U64) {
    next.Some? ==> observed <= next.value <= nonce
  }

  ghost predicate NextsWithin(s: System)
    requires Allocated(s.g)
  {
    forall a :: Within(NextOf(s.g, a), Observed(s.past, a), Nonce(s.ledger, a))
  }

  /** A read in flight is not ahead of the ledger, and what it may have missed is in the entry already. */
  ghost predicate SeedOk(s: System, t: Thread)
    requires Allocated(s.g)
  {
    var a := t.tx.hash.from;
    t.reading.Got? ==>
      && t.reading.nonce <= Nonce(s.ledger, a)
      && (Observed(s.past, a) <= t.reading.nonce
          || (NextOf(s.g, a).Some? && Observed(s.past, a) <= NextOf(s.g, a).value))
  }

  /** Every Admit in flight still finds its own entry. */
  ghost predicate ThreadsOk(s: System)
    requires Allocated(s.g)
  {
    forall t :: t in s.threads ==>
      var th := s.threads[t];
      th.tx.hash.from in s.g.entries && s.g.entries[th.tx.hash.from] == th.ref && SeedOk(s, th)
  }

  ghost function Holders(threads: map<ThreadId, Thread>, a: Address): set<ThreadId> {
    set t | t in threads && threads[t].tx.hash.from == a
  }

  /** References count the Admits in flight. */
  ghost predicate RefsCount(s: System)
    requires Allocated(s.g)
  {
    forall a :: RefsOf(s.g, a) == |Holders(s.threads, a)|
  }

  /** What is still to be observed lies between what was observed and the ledger. */
  ghost predicate Pending(past: seq<seq<Commit>>, block: seq<Commit>, ledger: map<Address, U64>) {
    forall c :: c in block && c.counts ==> Observed(past, c.from) <= c.nonce < Nonce(ledger, c.from)
  }

  /** A later block commits higher nonces. */
  ghost predicate After(block: seq<Commit>, later: seq<Commit>) {
    forall c, d :: c in block && d in later && c.counts && d.counts && c.from == d.from ==> c.nonce < d.nonce
  }

  ghost predicate LedgerOk(s: System) {
    && (forall a :: Observed(s.past, a) <= Nonce(s.ledger, a))
    && (forall j :: 0 <= j < |s.unobserved| ==> Pending(s.past, s.unobserved[j], s.ledger))
    && (forall i, j :: 0 <= i < j < |s.unobserved| ==> After(s.unobserved[i], s.unobserved[j]))
  }

  ghost predicate Inv(c: Config, s: System) {
    GateOk(s.g, c.maxPerSender) && NextsWithin(s) && ThreadsOk(s) && RefsCount(s) && LedgerOk(s)
  }

  lemma InitialInv(c: Config)
    ensures Inv(c, Initial)
  {
    assert forall a :: Holders(Initial.threads, a) == {};
  }

  /* ---- Admit ---- */

  lemma LocalElsewhere(g: Gate, g': Gate, a: Address)
    requires Local(g, g', a)
    ensures forall b :: b != a ==> NextOf(g', b) == NextOf(g, b) && RefsOf(g', b) == RefsOf(g, b)
  {
  }

  lemma HoldersAdd(threads: map<ThreadId, Thread>, tid: ThreadId, t: Thread)
    requires tid !in threads
    ensures forall a :: |Holders(threads[tid := t], a)| == |Holders(threads, a)| + if a == t.tx.hash.from then 1 else 0
  {
    forall a
      ensures |Holders(threads[tid := t], a)| == |Holders(threads, a)| + if a == t.tx.hash.from then 1 else 0
    {
      assert Holders(threads[tid := t], a) == Holders(threads, a) + if a == t.tx.hash.from then {tid} else {};
      assert tid !in Holders(threads, a);
    }
  }

  lemma HoldersRemove(threads: map<ThreadId, Thread>, tid: ThreadId)
    requires tid in threads
    ensures forall a ::
              |Holders(threads - {tid}, a)|
              == |Holders(threads, a)| - if a == threads[tid].tx.hash.from then 1 else 0
  {
    forall a
      ensures |Holders(threads - {tid}, a)| == |Holders(threads, a)| - if a == threads[tid].tx.hash.from then 1 else 0
    {
      assert Holders(threads - {tid}, a) == Holders(threads, a) - if a == threads[tid].tx.hash.from then {tid} else {};
      assert tid in Holders(threads, a) <==> a == threads[tid].tx.hash.from;
    }
  }

  lemma HolderCounts(threads: map<ThreadId, Thread>, t: ThreadId)
    requires t in threads
    ensures |Holders(threads, threads[t].tx.hash.from)| > 0
  {
    assert t in Holders(threads, threads[t].tx.hash.from);
  }

  /** No thread loses its entry and no nonce moves back. */
  lemma ThreadsKept(s: System, s': System)
    requires Allocated(s.g) && Allocated(s'.g) && ThreadsOk(s)
    requires s'.past == s.past && s'.ledger == s.ledger
    requires forall t :: t in s'.threads ==> t in s.threads && s'.threads[t] == s.threads[t]
    requires forall t :: t in s'.threads ==>
               var a := s.threads[t].tx.hash.from;
               a in s'.g.entries && (a in s.g.entries ==> s'.g.entries[a] == s.g.entries[a])
    requires forall a :: NextOf(s.g, a).Some? ==>
               NextOf(s'.g, a) == None || NextOf(s'.g, a).value >= NextOf(s.g, a).value
    requires forall t :: t in s'.threads ==>
               var a := s.threads[t].tx.hash.from; NextOf(s.g, a).Some? ==> NextOf(s'.g, a).Some?
    ensures ThreadsOk(s')
  {
    forall t | t in s'.threads
      ensures var th := s'.threads[t];
              th.tx.hash.from in s'.g.entries && s'.g.entries[th.tx.hash.from] == th.ref && SeedOk(s', th)
    {
      assert SeedOk(s, s.threads[t]);
    }
  }

  lemma BeginRefs(s: System, g: Gate, tid: ThreadId, t: Thread)
    requires Allocated(s.g) && Allocated(g) && RefsCount(s) && tid !in s.threads
    requires forall b :: RefsOf(g, b) == RefsOf(s.g, b) + if b == t.tx.hash.from then 1 else 0
    ensures RefsCount(s.(g := g, threads := s.threads[tid := t]))
  {
    HoldersAdd(s.threads, tid, t);
  }

  /** A change local to a that leaves its nonce alone. */
  lemma SameNexts(s: System, g: Gate, a: Address)
    requires Allocated(s.g) && NextsWithin(s) && ThreadsOk(s) && Local(s.g, g, a) && a in g.entries
    requires NextOf(g, a) == NextOf(s.g, a)
    ensures NextsWithin(s.(g := g)) && ThreadsOk(s.(g := g))
  {
    LocalElsewhere(s.g, g, a);
    assert forall b :: NextOf(g, b) == NextOf(s.g, b);
    ThreadsKept(s, s.(g := g));
  }

  lemma BeginThreads(s: System, tid: ThreadId, t: Thread)
    requires Allocated(s.g) && ThreadsOk(s) && tid !in s.threads && t.reading == Unread
    requires t.tx.hash.from in s.g.entries && s.g.entries[t.tx.hash.from] == t.ref
    ensures ThreadsOk(s.(threads := s.threads[tid := t]))
  {
    forall x | x in s.threads
      ensures SeedOk(s.(threads := s.threads[tid := t]), s.threads[x])
    {
      assert SeedOk(s, s.threads[x]);
    }
  }

  lemma BeginInv(c: Config, s: System, tid: ThreadId, tx: Tx, now: Time)
    requires Inv(c, s) && Allowed(c, s, Begin(tid, tx, now))
    ensures Inv(c, Apply(c, s, Begin(tid, tx, now)).0)
  {
    var (g, r, v) := AdmitBegin(s.g, tx, now, c.maxPerSender);
    AdmitBeginOk(s.g, tx, now, c.maxPerSender);
    LocalElsewhere(s.g, g, tx.hash.from);
    SameNexts(s, g, tx.hash.from);
    if v == None {
      BeginThreads(s.(g := g), tid, Thread(tx, r, Unread));
      BeginRefs(s, g, tid, Thread(tx, r, Unread));
    }
  }

  lemma EndRefs(s: System, tid: ThreadId, s': System)
    requires Allocated(s.g) && Allocated(s'.g) && RefsCount(s) && tid in s.threads && s'.threads == s.threads - {tid}
    requires forall b :: RefsOf(s'.g, b) == RefsOf(s.g, b) - if b == s.threads[tid].tx.hash.from then 1 else 0
    ensures RefsCount(s')
  {
    HoldersRemove(s.threads, tid);
  }

  lemma EndThreads(s: System, tid: ThreadId, s': System, a: Address)
    requires Allocated(s.g) && ThreadsOk(s) && Local(s.g, s'.g, a) && RefsCount(s')
    requires s'.past == s.past && s'.ledger == s.ledger && s'.threads == s.threads - {tid}
    requires NextOf(s.g, a).Some? ==> NextOf(s'.g, a).Some? && NextOf(s'.g, a).value >= NextOf(s.g, a).value
    ensures ThreadsOk(s')
  {
    forall t | t in s'.threads
      ensures s.threads[t].tx.hash.from in s'.g.entries
    {
      HolderCounts(s'.threads, t);
    }
    LocalElsewhere(s.g, s'.g, a);
    ThreadsKept(s, s');
  }

  lemma EndNexts(s: System, s': System, a: Address, t: Thread)
    requires Allocated(s.g) && NextsWithin(s) && Local(s.g, s'.g, a)
    requires s'.past == s.past && s'.ledger == s.ledger && t.tx.hash.from == a && SeedOk(s, t)
    requires NextOf(s'.g, a) == if SeedOf(t) == None then NextOf(s.g, a) else Raise(NextOf(s.g, a), SeedOf(t).value)
    ensures NextsWithin(s')
  {
    LocalElsewhere(s.g, s'.g, a);
    forall b
      ensures Within(NextOf(s'.g, b), Observed(s'.past, b), Nonce(s'.ledger, b))
    {
      assert Within(NextOf(s.g, b), Observed(s.past, b), Nonce(s.ledger, b));
    }
  }

  lemma EndInv(c: Config, s: System, tid: ThreadId, now: Time)
    requires Inv(c, s) && Allowed(c, s, End(tid, now))
    ensures Inv(c, Apply(c, s, End(tid, now)).0)
  {
    var t := s.threads[tid];
    var a := t.tx.hash.from;
    var s' := Apply(c, s, End(tid, now)).0;
    AdmitEndOk(s.g, a, t.tx, SeedOf(t), now, c.maxPerSender);
    LocalElsewhere(s.g, s'.g, a);
    EndNexts(s, s', a, t);
    EndRefs(s, tid, s');
    EndThreads(s, tid, s', a);
  }

  lemma ReadThreads(s: System, tid: ThreadId, reading: Reading, s': System)
    requires Allocated(s.g) && ThreadsOk(s) && RefsCount(s) && LedgerOk(s) && tid in s.threads
    requires reading == Failed || reading == Got(Nonce(s.ledger, s.threads[tid].tx.hash.from))
    requires s' == s.(threads := s.threads[tid := s.threads[tid].(reading := reading)])
    ensures ThreadsOk(s') && RefsCount(s')
  {
    forall a
      ensures Holders(s'.threads, a) == Holders(s.threads, a)
    {
    }
    forall t | t in s'.threads
      ensures SeedOk(s', s'.threads[t])
    {
      assert SeedOk(s, s.threads[t]);
    }
  }

  lemma ReadInv(c: Config, s: System, tid: ThreadId, step: Step)
    requires Inv(c, s) && Allowed(c, s, step) && (step == Read(tid) || step == ReadFails(tid))
    ensures Inv(c, Apply(c, s, step).0)
  {
    var s' := Apply(c, s, step).0;
    ReadThreads(s, tid, s'.threads[tid].reading, s');
  }

  lemma MineLedger(s: System, block: seq<Commit>, ledger: map<Address, U64>)
    requires LedgerOk(s) && Mined(block, s.ledger, ledger)
    ensures LedgerOk(s.(ledger := ledger, unobserved := s.unobserved + [block]))
  {
    var u := s.unobserved + [block];
    forall a
      ensures Observed(s.past, a) <= Nonce(ledger, a)
    {
      assert Nonce(s.ledger, a) <= Nonce(ledger, a);
    }
    forall j | 0 <= j < |u|
      ensures Pending(s.past, u[j], ledger)
    {
      forall c: Commit | c in u[j] && c.counts
        ensures Observed(s.past, c.from) <= c.nonce < Nonce(ledger, c.from)
      {
        assert Nonce(s.ledger, c.from) <= Nonce(ledger, c.from);
        if j < |s.unobserved| {
          assert Pending(s.past, s.unobserved[j], s.ledger);
        }
      }
    }
    forall i, j | 0 <= i < j < |u|
      ensures After(u[i], u[j])
    {
      if j == |s.unobserved| {
        assert Pending(s.past, s.unobserved[i], s.ledger);
      } else {
        assert After(s.unobserved[i], s.unobserved[j]);
      }
    }
  }

  lemma MineInv(c: Config, s: System, block: seq<Commit>, ledger: map<Address, U64>)
    requires Inv(c, s) && Allowed(c, s, Mine(block, ledger))
    ensures Inv(c, Apply(c, s, Mine(block, ledger)).0)
  {
    var s' := Apply(c, s, Mine(block, ledger)).0;
    MineLedger(s, block, ledger);
    forall t | t in s'.threads
      ensures SeedOk(s', s'.threads[t])
    {
      assert SeedOk(s, s.threads[t]);
      assert Nonce(s.ledger, s.threads[t].tx.hash.from) <= Nonce(ledger, s.threads[t].tx.hash.from);
    }
    forall a
      ensures Within(NextOf(s'.g, a), Observed(s'.past, a), Nonce(s'.ledger, a))
    {
      assert Nonce(s.ledger, a) <= Nonce(ledger, a);
      assert Within(NextOf(s.g, a), Observed(s.past, a), Nonce(s.ledger, a));
    }
  }

  /* ---- Observe ---- */

  /** Entries are kept, references are kept, and nonces only rise. */
  ghost predicate Advanced(g: Gate, g': Gate, raised: seq<Address>, highest: map<Address, U64>) {
    && Allocated(g) && Allocated(g')
    && (forall a :: a in g.entries ==> a in g'.entries && g'.entries[a] == g.entries[a])
    && (forall a :: RefsOf(g', a) == RefsOf(g, a))
    && (forall a :: a !in raised ==> NextOf(g', a) == NextOf(g, a))
    && (forall a :: a in raised && a in highest ==> NextOf(g', a) == Raise(NextOf(g, a), Inc(highest[a])))
  }

  lemma AdvancedStep(g: Gate, g1: Gate, g2: Gate, before: seq<Address>, a: Address, highest: map<Address, U64>)
    requires Advanced(g, g1, before, highest) && Local(g1, g2, a) && a in g2.entries && a !in before
    requires a in highest
    requires NextOf(g2, a) == Raise(NextOf(g1, a), Inc(highest[a])) && RefsOf(g2, a) == RefsOf(g1, a)
    ensures Advanced(g, g2, before + [a], highest)
  {
    LocalElsewhere(g1, g2, a);
    assert forall b :: b in before + [a] <==> b in before || b == a;
  }

  /** Everything handed over has its sender's next nonce. */
  ghost predicate AtNext(g: Gate, order: seq<Address>, handed: seq<Tx>)
    requires Allocated(g)
  {
    forall tx :: tx in handed ==> tx.hash.from in order && NextOf(g, tx.hash.from) == Some(tx.hash.nonce)
  }

  lemma AtNextStep(g1: Gate, g2: Gate, before: seq<Address>, a: Address, handed: seq<Tx>, tx: Option<Tx>)
    requires Local(g1, g2, a) && a !in before && AtNext(g1, before, handed)
    requires tx.Some? ==> tx.value.hash.from == a && NextOf(g2, a) == Some(tx.value.hash.nonce)
    ensures AtNext(g2, before + [a], handed + if tx == None then [] else [tx.value])
  {
    LocalElsewhere(g1, g2, a);
  }

  lemma ObserveStep(g: Gate, g1: Gate, handed: seq<Tx>, before: seq<Address>, a: Address, highest: map<Address, U64>,
                    now: Time, cap: nat)
    requires GateOk(g1, cap) && Advanced(g, g1, before, highest) && AtNext(g1, before, handed)
    requires a !in before && a in highest
    ensures var (g2, tx) := ObserveOne(g1, a, highest[a], now);
            && GateOk(g2, cap) && Advanced(g, g2, before + [a], highest)
            && AtNext(g2, before + [a], handed + if tx == None then [] else [tx.value])
  {
    var (g2, tx) := ObserveOne(g1, a, highest[a], now);
    ObserveOneOk(g1, a, highest[a], now, cap);
    AdvancedStep(g, g1, g2, before, a, highest);
    AtNextStep(g1, g2, before, a, handed, tx);
  }

  lemma {:induction false} ObserveAllOk(g: Gate, order: seq<Address>, highest: map<Address, U64>, now: Time, cap: nat)
    requires GateOk(g, cap) && NoDup(order) && forall a :: a in order ==> a in highest
    ensures GateOk(ObserveAll(g, order, highest, now).0, cap)
    ensures Advanced(g, ObserveAll(g, order, highest, now).0, order, highest)
    ensures AtNext(ObserveAll(g, order, highest, now).0, order, ObserveAll(g, order, highest, now).1)
  {
    if order != [] {
      var k := |order| - 1;
      var before, a := order[..k], order[k];
      Snoc(order);
      assert a in order && a !in before;
      ObserveAllOk(g, before, highest, now, cap);
      var r := ObserveAll(g, before, highest, now);
      ObserveStep(g, r.0, r.1, before, a, highest, now, cap);
    }
  }

  lemma {:induction false} ObservedStep(past: seq<seq<Commit>>, block: seq<Commit>, a: Address)
    ensures var n := NextAfter(block, a);
            Observed(past + [block], a) == if n > Observed(past, a) then n else Observed(past, a)
  {
    assert (past + [block])[..|past|] == past;
  }

  lemma {:induction false} NextAfterWitness(block: seq<Commit>, a: Address) returns (c: Commit)
    requires NextAfter(block, a) > 0
    ensures c in block && c.counts && c.from == a && c.nonce + 1 == NextAfter(block, a)
  {
    var last := block[|block| - 1];
    if last.counts && last.from == a && last.nonce + 1 == NextAfter(block, a) {
      c := last;
    } else {
      c := NextAfterWitness(block[..|block| - 1], a);
    }
  }

  /** What a pending block brings is at least what was observed before and at most the ledger's nonce. */
  lemma {:induction false} PendingNext(past: seq<seq<Commit>>, block: seq<Commit>, ledger: map<Address, U64>,
                                       a: Address)
    requires Pending(past, block, ledger) && Observed(past, a) <= Nonce(ledger, a)
    ensures NextAfter(block, a) > 0 ==> Observed(past, a) < NextAfter(block, a) <= Nonce(ledger, a)
    ensures Observed(past + [block], a) == if NextAfter(block, a) > 0 then NextAfter(block, a) else Observed(past, a)
  {
    ObservedStep(past, block, a);
    if NextAfter(block, a) > 0 {
      var c := NextAfterWitness(block, a);
    }
  }

  lemma ObserveLedger(s: System)
    requires LedgerOk(s) && s.unobserved != []
    ensures LedgerOk(s.(past := s.past + [s.unobserved[0]], unobserved := s.unobserved[1..]))
  {
    var block := s.unobserved[0];
    var past := s.past + [block];
    forall a
      ensures Observed(past, a) <= Nonce(s.ledger, a)
    {
      PendingNext(s.past, block, s.ledger, a);
    }
    forall j | 0 < j < |s.unobserved|
      ensures Pending(past, s.unobserved[j], s.ledger)
    {
      forall c: Commit | c in s.unobserved[j] && c.counts
        ensures Observed(past, c.from) <= c.nonce < Nonce(s.ledger, c.from)
      {
        assert Pending(s.past, s.unobserved[j], s.ledger) && After(block, s.unobserved[j]);
        PendingNext(s.past, block, s.ledger, c.from);
        if NextAfter(block, c.from) > 0 {
          var d := NextAfterWitness(block, c.from);
        }
      }
    }
  }

  lemma {:induction false} ObserveBounds(s: System, g: Gate, order: seq<Address>, a: Address)
    requires Allocated(s.g) && s.unobserved != [] && Pending(s.past, s.unobserved[0], s.ledger)
    requires Observed(s.past, a) <= Nonce(s.ledger, a)
    requires a in order <==> a in Highest(s.unobserved[0])
    requires Advanced(s.g, g, order, Highest(s.unobserved[0]))
    requires Within(NextOf(s.g, a), Observed(s.past, a), Nonce(s.ledger, a))
    ensures Within(NextOf(g, a), Observed(s.past + [s.unobserved[0]], a), Nonce(s.ledger, a))
    ensures a in order ==> NextOf(g, a).Some?
    ensures a !in order ==> Observed(s.past + [s.unobserved[0]], a) == Observed(s.past, a)
  {
    HighestExact(s.unobserved[0], a);
    PendingNext(s.past, s.unobserved[0], s.ledger, a);
    if a in order {
      assert NextOf(g, a) == Raise(NextOf(s.g, a), Inc(Highest(s.unobserved[0])[a]));
    }
  }

  lemma ObserveThreads(s: System, s': System, order: seq<Address>)
    requires Allocated(s.g) && ThreadsOk(s) && s'.threads == s.threads && s'.ledger == s.ledger
    requires Advanced(s.g, s'.g, order, map[])
    requires forall a :: a !in order ==> Observed(s'.past, a) == Observed(s.past, a)
    requires forall a :: a in order ==> NextOf(s'.g, a).Some? && Observed(s'.past, a) <= NextOf(s'.g, a).value
    ensures ThreadsOk(s')
  {
    forall t | t in s'.threads
      ensures SeedOk(s', s'.threads[t])
    {
      assert SeedOk(s, s.threads[t]);
    }
  }

  lemma ObserveInv(c: Config, s: System, order: seq<Address>, now: Time)
    requires Inv(c, s) && Allowed(c, s, Observe(order, now))
    ensures Inv(c, Apply(c, s, Observe(order, now)).0)
  {
    var s' := Apply(c, s, Observe(order, now)).0;
    ObserveAllOk(s.g, order, Highest(s.unobserved[0]), now, c.maxPerSender);
    ObserveLedger(s);
    assert Pending(s.past, s.unobserved[0], s.ledger);
    forall a
      ensures Within(NextOf(s'.g, a), Observed(s'.past, a), Nonce(s.ledger, a))
      ensures a in order ==> NextOf(s'.g, a).Some?
      ensures a !in order ==> Observed(s'.past, a) == Observed(s.past, a)
    {
      assert Within(NextOf(s.g, a), Observed(s.past, a), Nonce(s.ledger, a));
      ObserveBounds(s, s'.g, order, a);
    }
    ObserveThreads(s, s', order);
  }

  /* ---- prune ---- */

  /** Expiry touches parked transactions only. */
  ghost predicate OnlyParked(g: Gate, g': Gate) {
    && Allocated(g) && Allocated(g') && g'.entries == g.entries
    && forall a :: NextOf(g', a) == NextOf(g, a) && RefsOf(g', a) == RefsOf(g, a)
  }

  lemma {:induction false} ExpireOk(g: Gate, order: seq<Address>, now: Time, ttl: Time, cap: nat)
    requires GateOk(g, cap) && forall a :: a in order ==> a in g.entries
    ensures GateOk(Expire(g, order, now, ttl), cap) && OnlyParked(g, Expire(g, order, now, ttl))
  {
    if order != [] {
      var k := |order| - 1;
      assert order[k] in order;
      ExpireOk(g, order[..k], now, ttl, cap);
      var g' := Expire(g, order[..k], now, ttl);
      UnparkOk(g', order[k], ExpiredNonces(g'.heap[g'.entries[order[k]]].parked, now, ttl), cap);
      LocalElsewhere(g', Expire(g, order, now, ttl), order[k]);
    }
  }

  /** Victims are senders nobody holds and that park nothing. */
  lemma {:induction false} LegalIdle(g: Gate, victims: seq<Address>, max: nat)
    requires Allocated(g) && Legal(g, victims, max)
    ensures forall v :: v in victims ==> RefsOf(g, v) == 0 && ParkedOf(g, v) == map[]
  {
    if victims != [] {
      var k := |victims| - 1;
      LegalIdle(g, victims[..k], max);
      forall v | v in victims
        ensures RefsOf(g, v) == 0 && ParkedOf(g, v) == map[]
      {
        assert v in victims[..k] || v == victims[k];
      }
    }
  }

  lemma {:induction false} EvictAt(g: Gate, victims: seq<Address>, a: Address)
    requires Allocated(g) && (a in victims ==> RefsOf(g, a) == 0 && ParkedOf(g, a) == map[])
    ensures var g' := Evict(g, victims);
            && RefsOf(g', a) == RefsOf(g, a) && ParkedOf(g', a) == ParkedOf(g, a)
            && NextOf(g', a) == if a in victims then None else NextOf(g, a)
  {
  }

  lemma {:induction false} EvictOk(g: Gate, victims: seq<Address>, cap: nat)
    requires GateOk(g, cap) && forall v :: v in victims ==> RefsOf(g, v) == 0 && ParkedOf(g, v) == map[]
    ensures GateOk(Evict(g, victims), cap)
    ensures forall a :: RefsOf(Evict(g, victims), a) == RefsOf(g, a)
    ensures forall a :: NextOf(Evict(g, victims), a) == if a in victims then None else NextOf(g, a)
  {
    var g' := Evict(g, victims);
    forall a
      ensures RefsOf(g', a) == RefsOf(g, a) && NextOf(g', a) == if a in victims then None else NextOf(g, a)
      ensures Indexes(g'.byHash, a, ParkedOf(g', a))
    {
      assert Indexes(g.byHash, a, ParkedOf(g, a));
      EvictAt(g, victims, a);
    }
  }

  lemma PruneThreads(s: System, g: Gate)
    requires Allocated(s.g) && Allocated(g) && ThreadsOk(s) && RefsCount(s) && RefsCount(s.(g := g))
    requires forall a :: a in g.entries ==>
               a in s.g.entries && g.entries[a] == s.g.entries[a] && NextOf(g, a) == NextOf(s.g, a)
    ensures ThreadsOk(s.(g := g))
  {
    forall t | t in s.threads
      ensures s.threads[t].tx.hash.from in g.entries
      ensures SeedOk(s.(g := g), s.threads[t])
    {
      HolderCounts(s.threads, t);
      assert RefsOf(g, s.threads[t].tx.hash.from) > 0;
      assert SeedOk(s, s.threads[t]);
    }
  }

  lemma PruneInv(c: Config, s: System, order: seq<Address>, victims: seq<Address>, now: Time)
    requires Inv(c, s) && Allowed(c, s, Prune(order, victims, now))
    ensures Inv(c, Apply(c, s, Prune(order, victims, now)).0)
  {
    var g1 := Expire(s.g, order, now, c.ttl);
    ExpireOk(s.g, order, now, c.ttl, c.maxPerSender);
    LegalIdle(g1, victims, c.maxSenders);
    EvictOk(g1, victims, c.maxPerSender);
    var g2 := Evict(g1, victims);
    forall a
      ensures Within(NextOf(g2, a), Observed(s.past, a), Nonce(s.ledger, a))
    {
      assert Within(NextOf(s.g, a), Observed(s.past, a), Nonce(s.ledger, a));
    }
    PruneThreads(s, g2);
  }

  /* ---- runs ---- */

  lemma StepInv(c: Config, s: System, step: Step)
    requires Inv(c, s) && Allowed(c, s, step)
    ensures Inv(c, Apply(c, s, step).0)
  {
    match step
    case Begin(tid, tx, now) => BeginInv(c, s, tid, tx, now);
    case Read(tid) => ReadInv(c, s, tid, step);
    case ReadFails(tid) => ReadInv(c, s, tid, step);
    case End(tid, now) => EndInv(c, s, tid, now);
    case Mine(block, ledger) => MineInv(c, s, block, ledger);
    case Observe(order, now) => ObserveInv(c, s, order, now);
    case Prune(order, victims, now) => PruneInv(c, s, order, victims, now);
  }

  ghost predicate Run(c: Config, s: System, steps: seq<Step>, s': System)
    decreases |steps|
  {
    if steps == [] then s' == s
    else Allowed(c, s, steps[0]) && Run(c, Apply(c, s, steps[0]).0, steps[1..], s')
  }

  lemma {:induction false} RunInv(c: Config, s: System, steps: seq<Step>, s': System)
    requires Inv(c, s) && Run(c, s, steps, s')
    ensures Inv(c, s')
    decreases |steps|
  {
    if steps != [] {
      StepInv(c, s, steps[0]);
      RunInv(c, Apply(c, s, steps[0]).0, steps[1..], s');
    }
  }

  /** A step hands over only transactions at their sender's cached next nonce. */
  lemma StepHandsNext(c: Config, s: System, step: Step, tx: Tx)
    requires Inv(c, s) && Allowed(c, s, step) && tx in Apply(c, s, step).1
    ensures Allocated(Apply(c, s, step).0.g)
    ensures NextOf(Apply(c, s, step).0.g, tx.hash.from) == Some(tx.hash.nonce)
  {
    match step
    case Begin(tid, t, now) => AdmitBeginOk(s.g, t, now, c.maxPerSender);
    case End(tid, now) =>
      var t := s.threads[tid];
      AdmitEndOk(s.g, t.tx.hash.from, t.tx, SeedOf(t), now, c.maxPerSender);
    case Observe(order, now) => ObserveAllOk(s.g, order, Highest(s.unobserved[0]), now, c.maxPerSender);
    case _ =>
  }

  /** After any run, whatever a further step hands to the queue has the cached next nonce of its sender,
      which is at least one past every nonce observed for it and at most its nonce on the ledger. */
  lemma {:induction false} HandedAtNext(c: Config, steps: seq<Step>, s: System, step: Step, tx: Tx)
    requires Run(c, Initial, steps, s) && Allowed(c, s, step) && tx in Apply(c, s, step).1
    ensures var s' := Apply(c, s, step).0;
            && Allocated(s'.g) && NextOf(s'.g, tx.hash.from) == Some(tx.hash.nonce)
            && Observed(s'.past, tx.hash.from) <= tx.hash.nonce <= Nonce(s'.ledger, tx.hash.from)
  {
    InitialInv(c);
    RunInv(c, Initial, steps, s);
    StepInv(c, s, step);
    StepHandsNext(c, s, step, tx);
    var s' := Apply(c, s, step).0;
    assert Within(NextOf(s'.g, tx.hash.from), Observed(s'.past, tx.hash.from), Nonce(s'.ledger, tx.hash.from));
  }

  /** After any run byHash is exactly the parked transactions, no sender parks more than the cap, every Admit in
      flight still owns the entry it pinned, references count those Admits and an unheld entry has a nonce. */
  lemma {:induction false} Bookkeeping(c: Config, steps: seq<Step>, s: System)
    requires Run(c, Initial, steps, s)
    ensures Allocated(s.g)
    ensures forall h: Hash :: h in s.g.byHash <==>
              h.nonce in ParkedOf(s.g, h.from) && ParkedOf(s.g, h.from)[h.nonce].tx.hash == h
    ensures forall a :: |ParkedOf(s.g, a)| <= c.maxPerSender
    ensures forall t :: t in s.threads ==>
              s.threads[t].tx.hash.from in s.g.entries && s.g.entries[s.threads[t].tx.hash.from] == s.threads[t].ref
    ensures forall a :: RefsOf(s.g, a) == |Holders(s.threads, a)|
    ensures forall a :: a in s.g.entries && RefsOf(s.g, a) == 0 ==> NextOf(s.g, a).Some?
  {
    InitialInv(c);
    RunInv(c, Initial, steps, s);
    forall h: Hash
      ensures h in s.g.byHash <==> h.nonce in ParkedOf(s.g, h.from) && ParkedOf(s.g, h.from)[h.nonce].tx.hash == h
    {
      assert Indexes(s.g.byHash, h.from, ParkedOf(s.g, h.from));
    }
    forall a
      ensures |ParkedOf(s.g, a)| <= c.maxPerSender
      ensures a in s.g.entries && RefsOf(s.g, a) == 0 ==> NextOf(s.g, a).Some?
    {
      if a in s.g.entries {
        assert SenderOk(s.g.heap[s.g.entries[a]], a, c.maxPerSender);
      }
    }
  }
}
