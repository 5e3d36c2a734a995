/** What every step of the nonce gate does to parked transactions, one by one, and whom it evicts. */
module NonceExact {
  import opened Prelude
  import opened NonceModel
  import opened NonceSafety
  import opened NonceRuns

  /* ---- Observe ---- */

  lemma LocalParked(g: Gate, g': Gate, a: Address, b: Address)
    requires Local(g, g', a) && b != a
    ensures ParkedOf(g', b) == ParkedOf(g, b) && NextOf(g', b) == NextOf(g, b)
  {
  }

  /** What one sender of the block hands over: the transaction parked at its new next nonce. */
  ghost predicate Due(g: Gate, g': Gate, a: Address, tx: Tx)
    requires Allocated(g) && Allocated(g')
  {
    && NextOf(g', a).Some? && NextOf(g', a).value in ParkedOf(g, a)
    && ParkedOf(g, a)[NextOf(g', a).value].tx == tx
  }

  /** What is parked for a afterwards: if the block has a transaction of a, exactly what was parked above the new next
      nonce, else what was. */
  ghost predicate ParkedAfter(g: Gate, order: seq<Address>, g': Gate, a: Address)
    requires Allocated(g) && Allocated(g')
  {
    if a !in order then ParkedOf(g', a) == ParkedOf(g, a)
    else
      && NextOf(g', a).Some?
      && (forall n :: n in ParkedOf(g', a) <==> n in ParkedOf(g, a) && n > NextOf(g', a).value)
      && forall n :: n in ParkedOf(g', a) ==> ParkedOf(g', a)[n] == ParkedOf(g, a)[n]
  }

  ghost predicate AllDue(g: Gate, order: seq<Address>, g': Gate, handed: seq<Tx>)
    requires Allocated(g) && Allocated(g')
  {
    forall tx :: tx in handed <==> exists a :: a in order && Due(g, g', a, tx)
  }

  lemma DueStep(g: Gate, g1: Gate, g2: Gate, before: seq<Address>, a: Address, handed: seq<Tx>, tx: Option<Tx>)
    requires Allocated(g) && Allocated(g1) && Allocated(g2) && Local(g1, g2, a) && a !in before
    requires AllDue(g, before, g1, handed) && ParkedOf(g1, a) == ParkedOf(g, a) && NextOf(g2, a).Some?
    requires Released(ParkedOf(g1, a), NextOf(g2, a).value, ParkedOf(g2, a), tx)
    ensures AllDue(g, before + [a], g2, handed + if tx == None then [] else [tx.value])
  {
    var handed' := handed + if tx == None then [] else [tx.value];
    forall t
      ensures t in handed' <==> exists b :: b in before + [a] && Due(g, g2, b, t)
    {
      forall b | b in before
        ensures Due(g, g2, b, t) <==> Due(g, g1, b, t)
      {
        LocalParked(g1, g2, a, b);
      }
      assert Due(g, g2, a, t) <==> tx == Some(t);
      assert forall b :: b in before + [a] <==> b in before || b == a;
    }
  }

  lemma ParkedStep(g: Gate, g1: Gate, g2: Gate, before: seq<Address>, a: Address, tx: Option<Tx>, b: Address)
    requires Allocated(g) && Allocated(g1) && Allocated(g2) && Local(g1, g2, a) && a !in before
    requires ParkedAfter(g, before, g1, a) && ParkedAfter(g, before, g1, b) && NextOf(g2, a).Some?
    requires Released(ParkedOf(g1, a), NextOf(g2, a).value, ParkedOf(g2, a), tx)
    ensures ParkedAfter(g, before + [a], g2, b)
  {
    assert b in before + [a] <==> b in before || b == a;
    if b != a {
      LocalParked(g1, g2, a, b);
    }
  }

  /** A block: what is handed over is exactly what is parked at the new next nonce of a sender of the block, and what
      was parked below leaves. */
  lemma {:induction false} ObserveExact(g: Gate, order: seq<Address>, highest: map<Address, U64>, now: Time, cap: nat)
    requires GateOk(g, cap) && NoDup(order) && forall a :: a in order ==> a in highest
    ensures var (g', handed) := ObserveAll(g, order, highest, now);
            AllDue(g, order, g', handed) && forall a :: ParkedAfter(g, order, g', a)
  {
    if order != [] {
      var k := |order| - 1;
      var before, a := order[..k], order[k];
      Snoc(order);
      assert a in order && a !in before;
      ObserveExact(g, before, highest, now, cap);
      ObserveAllOk(g, before, highest, now, cap);
      var (g1, handed) := ObserveAll(g, before, highest, now);
      var (g2, tx) := ObserveOne(g1, a, highest[a], now);
      ObserveOneOk(g1, a, highest[a], now, cap);
      assert ParkedAfter(g, before, g1, a);
      DueStep(g, g1, g2, before, a, handed, tx);
      forall b
        ensures ParkedAfter(g, order, g2, b)
      {
        assert ParkedAfter(g, before, g1, b);
        ParkedStep(g, g1, g2, before, a, tx, b);
      }
    }
  }

  /* ---- prune ---- */

  /** Parked for longer than the time to live. */
  predicate Overdue(p: Parked, now: Time, ttl: Time) {
    p.at + ttl < now
  }

  ghost predicate KeptUnlessOverdue(parked: map<U64, Parked>, now: Time, ttl: Time, parked': map<U64, Parked>) {
    && (forall n :: n in parked' <==> n in parked && !Overdue(parked[n], now, ttl))
    && forall n :: n in parked' ==> parked'[n] == parked[n]
  }

  lemma ExpireOne(g: Gate, x: Address, now: Time, ttl: Time, cap: nat, g': Gate)
    requires GateOk(g, cap) && x in g.entries
    requires g' == Unpark(g, g.entries[x], ExpiredNonces(g.heap[g.entries[x]].parked, now, ttl))
    ensures Local(g, g', x) && KeptUnlessOverdue(ParkedOf(g, x), now, ttl, ParkedOf(g', x))
  {
    UnparkOk(g, x, ExpiredNonces(g.heap[g.entries[x]].parked, now, ttl), cap);
  }

  /** Expiry drops exactly what is overdue. */
  lemma {:induction false} ExpireExact(g: Gate, order: seq<Address>, now: Time, ttl: Time, cap: nat, a: Address)
    requires GateOk(g, cap) && NoDup(order) && forall x :: x in order ==> x in g.entries
    ensures var g' := Expire(g, order, now, ttl);
            if a in order then KeptUnlessOverdue(ParkedOf(g, a), now, ttl, ParkedOf(g', a))
            else ParkedOf(g', a) == ParkedOf(g, a)
  {
    if order != [] {
      var k := |order| - 1;
      var before, x := order[..k], order[k];
      Snoc(order);
      assert x in order && x !in before;
      ExpireExact(g, before, now, ttl, cap, a);
      ExpireExact(g, before, now, ttl, cap, x);
      ExpireOk(g, before, now, ttl, cap);
      var g1 := Expire(g, before, now, ttl);
      var g2 := Expire(g, order, now, ttl);
      ExpireOne(g1, x, now, ttl, cap, g2);
      if a != x {
        LocalParked(g1, g2, x, a);
      }
    }
  }

  /** After a prune every sender has parked exactly what was not overdue. */
  lemma {:induction false} PruneExact(c: Config, s: System, order: seq<Address>, victims: seq<Address>, now: Time,
                                      a: Address)
    requires Inv(c, s) && Allowed(c, s, Prune(order, victims, now))
    ensures var s' := Apply(c, s, Prune(order, victims, now)).0;
            Allocated(s'.g) && KeptUnlessOverdue(ParkedOf(s.g, a), now, c.ttl, ParkedOf(s'.g, a))
  {
    var g1 := Expire(s.g, order, now, c.ttl);
    ExpireOk(s.g, order, now, c.ttl, c.maxPerSender);
    ExpireExact(s.g, order, now, c.ttl, c.maxPerSender, a);
    LegalIdle(g1, victims, c.maxSenders);
    EvictAt(g1, victims, a);
  }

  /* ---- eviction ---- */

  lemma OneLess<K, V>(m: map<K, V>, k: K)
    requires k in m
    ensures |m - {k}| == |m| - 1
  {
    assert m.Keys == (m - {k}).Keys + {k};
  }

  lemma {:induction false} EvictedCount(g: Gate, victims: seq<Address>)
    requires Allocated(g) && NoDup(victims) && forall v :: v in victims ==> v in g.entries
    ensures |Evict(g, victims).entries| == |g.entries| - |victims|
  {
    if victims != [] {
      var k := |victims| - 1;
      Snoc(victims);
      assert victims[k] in victims && victims[k] !in victims[..k];
      EvictedCount(g, victims[..k]);
      var g' := Evict(g, victims[..k]);
      OneLess(g'.entries, victims[k]);
    }
  }

  lemma {:induction false} VictimsIdle(g: Gate, victims: seq<Address>, max: nat)
    requires Allocated(g) && Legal(g, victims, max)
    ensures NoDup(victims) && forall v :: v in victims ==> Evictable(g, v)
  {
    if victims != [] {
      var k := |victims| - 1;
      Snoc(victims);
      VictimsIdle(g, victims[..k], max);
      assert Evictable(Evict(g, victims[..k]), victims[k]);
    }
  }

  lemma {:induction false} EvictableLater(g: Gate, victims: seq<Address>, a: Address)
    requires Allocated(g)
    ensures Evictable(Evict(g, victims), a) <==> Evictable(g, a) && a !in victims
  {
  }

  /** An evicted sender was seen no later than an idle one that stays. */
  lemma {:induction false} OldestFirst(g: Gate, victims: seq<Address>, max: nat, v: Address, a: Address)
    requires Allocated(g) && Legal(g, victims, max) && v in victims && a !in victims && Evictable(g, a)
    ensures Evictable(g, v) && LastSeenOf(g, v) <= LastSeenOf(g, a)
  {
    var k := |victims| - 1;
    Snoc(victims);
    VictimsIdle(g, victims, max);
    if v == victims[k] {
      EvictableLater(g, victims[..k], a);
    } else {
      OldestFirst(g, victims[..k], max, v, a);
    }
  }

  /** Legal victims are distinct idle senders, each seen no later than every idle sender that stays, and no more of them
      than bring the cache down to its cap. */
  lemma {:induction false} EvictsOldest(g: Gate, victims: seq<Address>, max: nat)
    requires Allocated(g) && Legal(g, victims, max)
    ensures NoDup(victims) && forall v :: v in victims ==> Evictable(g, v)
    ensures forall v, a :: v in victims && Evictable(g, v) && a !in victims && Evictable(g, a) ==>
              LastSeenOf(g, v) <= LastSeenOf(g, a)
    ensures victims != [] ==> |g.entries| - |victims| >= max
  {
    VictimsIdle(g, victims, max);
    forall v, a | v in victims && Evictable(g, v) && a !in victims && Evictable(g, a)
      ensures LastSeenOf(g, v) <= LastSeenOf(g, a)
    {
      OldestFirst(g, victims, max, v, a);
    }
    if victims != [] {
      var k := |victims| - 1;
      Snoc(victims);
      VictimsIdle(g, victims[..k], max);
      EvictedCount(g, victims[..k]);
    }
  }

  /* ---- every step ---- */

  /** The transaction a step admits, if it is one half of an Admit. */
  ghost function Admitted(s: System, step: Step): Option<Tx> {
    if step.Begin? then Some(step.tx)
    else if step.End? && step.tid in s.threads then Some(s.threads[step.tid].tx)
    else None
  }

  /** Why a parked transaction is no longer there: handed over, spent, replaced by another of its nonce, or overdue. */
  ghost predicate LeftBecause(c: Config, s: System, step: Step, s': System, handed: seq<Tx>, a: Address, n: U64)
    requires Allocated(s.g) && Allocated(s'.g) && n in ParkedOf(s.g, a)
  {
    var p, next := ParkedOf(s.g, a)[n], NextOf(s'.g, a);
    || (step.Observe? && next == Some(n) && p.tx in handed)
    || (step.Observe? && next.Some? && n < next.value)
    || (Admitted(s, step).Some? && Admitted(s, step).value.hash.from == a && Admitted(s, step).value.hash.nonce == n
        && n in ParkedOf(s'.g, a) && ParkedOf(s'.g, a)[n].tx == Admitted(s, step).value)
    || (step.Prune? && Overdue(p, step.now, c.ttl))
  }

  /** Admitting a transaction touches at most what is parked at its own nonce. */
  lemma AdmitParked(g: Gate, g': Gate, tx: Tx, now: Time, v: Option<Verdict>, a: Address, n: U64)
    requires Local(g, g', tx.hash.from) && n in ParkedOf(g, a)
    requires ParkedAs(ParkedOf(g, tx.hash.from), tx, now, v, ParkedOf(g', tx.hash.from))
    ensures n in ParkedOf(g', a)
    ensures ParkedOf(g', a)[n] != ParkedOf(g, a)[n] ==>
              a == tx.hash.from && n == tx.hash.nonce && ParkedOf(g', a)[n].tx == tx
  {
    if a != tx.hash.from {
      LocalParked(g, g', tx.hash.from, a);
    }
  }

  lemma AdmitLeaves(c: Config, s: System, step: Step, a: Address, n: U64)
    requires Inv(c, s) && Allowed(c, s, step) && (step.Begin? || step.End?) && n in ParkedOf(s.g, a)
    ensures var (s', handed) := Apply(c, s, step);
            && Allocated(s'.g) && n in ParkedOf(s'.g, a)
            && (ParkedOf(s'.g, a)[n] != ParkedOf(s.g, a)[n] ==> LeftBecause(c, s, step, s', handed, a, n))
  {
    if step.Begin? {
      var (g', r, v) := AdmitBegin(s.g, step.tx, step.now, c.maxPerSender);
      AdmitBeginOk(s.g, step.tx, step.now, c.maxPerSender);
      AdmitParked(s.g, g', step.tx, step.now, v, a, n);
    } else {
      var t := s.threads[step.tid];
      var (g', v) := AdmitEnd(s.g, t.ref, t.tx, SeedOf(t), step.now, c.maxPerSender);
      AdmitEndOk(s.g, t.tx.hash.from, t.tx, SeedOf(t), step.now, c.maxPerSender);
      AdmitParked(s.g, g', t.tx, step.now, v, a, n);
    }
  }

  lemma ObserveLeaves(c: Config, s: System, order: seq<Address>, now: Time, a: Address, n: U64)
    requires Inv(c, s) && Allowed(c, s, Observe(order, now)) && n in ParkedOf(s.g, a)
    ensures var (s', handed) := Apply(c, s, Observe(order, now));
            && Allocated(s'.g)
            && (!(n in ParkedOf(s'.g, a) && ParkedOf(s'.g, a)[n] == ParkedOf(s.g, a)[n]) ==>
                  LeftBecause(c, s, Observe(order, now), s', handed, a, n))
  {
    ObserveExact(s.g, order, Highest(s.unobserved[0]), now, c.maxPerSender);
    var (g', handed) := ObserveAll(s.g, order, Highest(s.unobserved[0]), now);
    assert ParkedAfter(s.g, order, g', a);
    if a in order && n == NextOf(g', a).value {
      assert Due(s.g, g', a, ParkedOf(s.g, a)[n].tx);
    }
  }

  /** After any run, whatever the next step: a parked transaction stays as it is unless it is handed over, spent,
      replaced or overdue. */
  lemma {:induction false} LeavesOnly(c: Config, steps: seq<Step>, s: System, step: Step, a: Address, n: U64)
    requires Run(c, Initial, steps, s) && Allowed(c, s, step) && n in ParkedOf(s.g, a)
    ensures var (s', handed) := Apply(c, s, step);
            && Allocated(s'.g)
            && (!(n in ParkedOf(s'.g, a) && ParkedOf(s'.g, a)[n] == ParkedOf(s.g, a)[n]) ==>
                  LeftBecause(c, s, step, s', handed, a, n))
  {
    InitialInv(c);
    RunInv(c, Initial, steps, s);
    match step
    case Begin(_, _, _) => AdmitLeaves(c, s, step, a, n);
    case End(_, _) => AdmitLeaves(c, s, step, a, n);
    case Observe(order, now) => ObserveLeaves(c, s, order, now, a, n);
    case Prune(order, victims, now) => PruneExact(c, s, order, victims, now, a);
    case _ =>
  }

  /** After any run, a block hands over every transaction parked at the new next nonce of one of its senders, and leaves
      nothing parked at or below it. */
  lemma {:induction false} ReadyIsReleased(c: Config, steps: seq<Step>, s: System, order: seq<Address>, now: Time,
                                           a: Address)
    requires Run(c, Initial, steps, s) && Allowed(c, s, Observe(order, now)) && a in order
    ensures var (s', handed) := Apply(c, s, Observe(order, now));
            && Allocated(s'.g) && NextOf(s'.g, a).Some?
            && (NextOf(s'.g, a).value in ParkedOf(s.g, a) ==> ParkedOf(s.g, a)[NextOf(s'.g, a).value].tx in handed)
            && forall n :: n in ParkedOf(s'.g, a) ==> n > NextOf(s'.g, a).value
  {
    InitialInv(c);
    RunInv(c, Initial, steps, s);
    ObserveExact(s.g, order, Highest(s.unobserved[0]), now, c.maxPerSender);
    var (g', handed) := ObserveAll(s.g, order, Highest(s.unobserved[0]), now);
    assert ParkedAfter(s.g, order, g', a);
    if NextOf(g', a).value in ParkedOf(s.g, a) {
      assert Due(s.g, g', a, ParkedOf(s.g, a)[NextOf(g', a).value].tx);
    }
  }
}
