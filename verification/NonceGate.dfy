/** The nonce gate as an object; each method is one critical section of the original. */
module NonceGate {
  import opened Prelude
  import opened NonceModel
  import opened NonceSafety
  import opened NonceRuns

  lemma UnparkNothing(g: Gate, r: Ref)
    requires r in g.heap
    ensures Unpark(g, r, {}) == g
  {
    var parked := g.heap[r].parked;
    assert parked - {} == parked;
    assert Unpark(g, r, {}).byHash == g.byHash;
    assert g.heap[r := g.heap[r].(parked := parked)] == g.heap;
  }

  /** Taking one more parked transaction out. */
  lemma UnparkMore(g: Gate, r: Ref, done: set<U64>, n: U64)
    requires r in g.heap && n in g.heap[r].parked && n !in done
    ensures var g1 := Unpark(g, r, done);
            && n in g1.heap[r].parked && g1.heap[r].parked[n] == g.heap[r].parked[n]
            && Unpark(g, r, done + {n})
               == g1.(heap := g1.heap[r := g1.heap[r].(parked := g1.heap[r].parked - {n})],
                      byHash := g1.byHash - {g1.heap[r].parked[n].tx.hash})
  {
    var parked := g.heap[r].parked;
    assert parked - done - {n} == parked - (done + {n});
    var gone := set m | m in parked && m in done :: parked[m].tx.hash;
    var gone' := set m | m in parked && m in done + {n} :: parked[m].tx.hash;
    assert gone' == gone + {parked[n].tx.hash};
    assert g.byHash - gone - {parked[n].tx.hash} == g.byHash - gone';
    assert g.heap[r := g.heap[r].(parked := parked - done)][r := g.heap[r].(parked := parked - (done + {n}))]
        == g.heap[r := g.heap[r].(parked := parked - (done + {n}))];
  }

  lemma {:induction false} ObserveAllSnoc(g: Gate, order: seq<Address>, a: Address, highest: map<Address, U64>,
                                          now: Time)
    requires Allocated(g) && forall b :: b in order + [a] ==> b in highest
    ensures (forall b :: b in order ==> b in highest) && a in highest
    ensures var r := ObserveAll(g, order, highest, now);
            var (g', tx) := ObserveOne(r.0, a, highest[a], now);
            ObserveAll(g, order + [a], highest, now) == (g', r.1 + if tx == None then [] else [tx.value])
  {
    assert forall b :: b in order || b == a ==> b in order + [a];
    assert (order + [a])[..|order|] == order;
  }

  lemma SmallerMap(m: map<Address, Ref>, a: Address)
    requires a in m
    ensures |m - {a}| == |m| - 1
  {
    assert (m - {a}).Keys == m.Keys - {a};
    assert |m.Keys - {a}| == |m.Keys| - 1;
  }

  lemma {:induction false} LegalSnoc(g: Gate, victims: seq<Address>, v: Address, max: nat)
    requires Allocated(g) && Legal(g, victims, max)
    requires var g' := Evict(g, victims);
             && |g'.entries| > max && Evictable(g', v)
             && forall a :: Evictable(g', a) ==> g'.heap[g'.entries[v]].lastSeen <= g'.heap[g'.entries[a]].lastSeen
    ensures Legal(g, victims + [v], max)
    ensures Evict(g, victims + [v]) == Evict(g, victims).(entries := Evict(g, victims).entries - {v})
  {
    assert (victims + [v])[..|victims|] == victims;
  }

  class NonceGate {
    var heap: map<Ref, Sender>
    var limit: Ref
    var entries: map<Address, Ref>
    var byHash: map<Hash, Tx>
    /** Transactions handed to the queue so far. */
    var queue: seq<Tx>
    const maxPerSender: nat
    const maxSenders: nat
    const ttl: Time

    ghost function View(): Gate
      reads this
    {
      Gate(heap, limit, entries, byHash)
    }

    ghost predicate Valid()
      reads this
    {
      GateOk(View(), maxPerSender)
    }

    constructor (maxPerSender: nat, maxSenders: nat, ttl: Time)
      ensures Valid() && View() == EmptyGate && queue == []
      ensures this.maxPerSender == maxPerSender && this.maxSenders == maxSenders && this.ttl == ttl
    {
      heap, limit, entries, byHash, queue := map[], 0, map[], map[], [];
      this.maxPerSender, this.maxSenders, this.ttl := maxPerSender, maxSenders, ttl;
    }

    method Acquire(from: Address) returns (r: Ref)
      requires Allocated(View())
      modifies this`heap, this`limit, this`entries
      ensures (View(), r) == NonceModel.Acquire(old(View()), from)
    {
      if from in entries {
        r := entries[from];
        heap := heap[r := heap[r].(refs := heap[r].refs + 1)];
      } else {
        r := limit;
        heap := heap[r := Sender(from, None, map[], 0, 1)];
        limit := limit + 1;
        entries := entries[from := r];
      }
    }

    method Release(r: Ref)
      requires r in heap && heap[r].refs > 0
      modifies this`heap, this`entries
      ensures View() == NonceModel.Release(old(View()), r)
    {
      heap := heap[r := heap[r].(refs := heap[r].refs - 1)];
      if heap[r].refs > 0 || heap[r].next.Some? || heap[r].parked != map[] {
        return;
      }
      entries := entries - {heap[r].from};
    }

    /** Rejects, hands over or parks tx against the known nonce of its entry. */
    method Judge(r: Ref, tx: Tx, now: Time) returns (v: Verdict)
      requires r in heap && heap[r].next.Some?
      modifies this`heap, this`byHash, this`queue
      ensures (View(), v) == NonceModel.Judge(old(View()), r, tx, now, maxPerSender)
      ensures queue == old(queue) + if v == HandedOver then [tx] else []
    {
      heap := heap[r := heap[r].(lastSeen := now)];
      var next, nonce := heap[r].next.value, tx.hash.nonce;
      if nonce < next {
        return TooLow;
      }
      if nonce == next {
        queue := queue + [tx];
        return HandedOver;
      }
      if nonce !in heap[r].parked && |heap[r].parked| >= maxPerSender {
        return TooMany;
      }
      if nonce in heap[r].parked {
        byHash := byHash - {heap[r].parked[nonce].tx.hash};
      }
      heap := heap[r := heap[r].(parked := heap[r].parked[nonce := Parked(tx, now)])];
      byHash := byHash[tx.hash := tx];
      return ParkedAway;
    }

    /** Admit up to the point where it must read the ledger; no verdict means it must. */
    method AdmitBegin(tx: Tx, now: Time) returns (r: Ref, v: Option<Verdict>)
      requires Valid()
      modifies this
      ensures Valid() && (View(), r, v) == NonceModel.AdmitBegin(old(View()), tx, now, maxPerSender)
      ensures queue == old(queue) + if v == Some(HandedOver) then [tx] else []
    {
      ghost var g := View();
      AdmitBeginOk(g, tx, now, maxPerSender);
      AcquireOk(g, tx.hash.from, maxPerSender);
      r := Acquire(tx.hash.from);
      if heap[r].next == None {
        return r, None;
      }
      JudgeOk(View(), tx.hash.from, tx, now, maxPerSender);
      var verdict := Judge(r, tx, now);
      Release(r);
      return r, Some(verdict);
    }

    /** Admit after the ledger read, on the entry it pinned; no seed means the read failed. */
    method AdmitEnd(r: Ref, tx: Tx, seed: Option<U64>, now: Time) returns (v: Option<Verdict>)
      requires Valid() && tx.hash.from in entries && entries[tx.hash.from] == r && heap[r].refs > 0
      modifies this
      ensures Valid() && (View(), v) == NonceModel.AdmitEnd(old(View()), r, tx, seed, now, maxPerSender)
      ensures queue == old(queue) + if v == Some(HandedOver) then [tx] else []
    {
      AdmitEndOk(View(), tx.hash.from, tx, seed, now, maxPerSender);
      if seed == None {
        Release(r);
        return None;
      }
      RaiseOk(View(), tx.hash.from, seed.value, heap[r].lastSeen, maxPerSender);
      heap := heap[r := heap[r].(next := Raise(heap[r].next, seed.value))];
      JudgeOk(View(), tx.hash.from, tx, now, maxPerSender);
      var verdict := Judge(r, tx, now);
      Release(r);
      return Some(verdict);
    }

    /** Takes these parked transactions out, in whatever order the map is ranged over. */
    method UnparkEach(r: Ref, nonces: set<U64>)
      requires r in heap && forall n :: n in nonces ==> n in heap[r].parked
      modifies this`heap, this`byHash
      ensures View() == Unpark(old(View()), r, nonces)
    {
      ghost var g := View();
      var rest := nonces;
      UnparkNothing(g, r);
      assert nonces - rest == {};
      while rest != {}
        invariant rest <= nonces && View() == Unpark(g, r, nonces - rest)
        decreases rest
      {
        var n :| n in rest;
        UnparkMore(g, r, nonces - rest, n);
        assert nonces - rest + {n} == nonces - (rest - {n});
        byHash := byHash - {heap[r].parked[n].tx.hash};
        heap := heap[r := heap[r].(parked := heap[r].parked - {n})];
        rest := rest - {n};
      }
      assert nonces - rest == nonces;
    }

    /** The highest counted nonce per sender of a block. */
    method HighestOf(block: seq<Commit>) returns (highest: map<Address, U64>)
      ensures highest == Highest(block)
    {
      highest := map[];
      var i := 0;
      while i < |block|
        invariant i <= |block| && highest == Highest(block[..i])
      {
        assert block[..i + 1][..i] == block[..i];
        var c := block[i];
        if c.counts && (c.from !in highest || c.nonce > highest[c.from]) {
          highest := highest[c.from := c.nonce];
        }
        i := i + 1;
      }
      assert block[..i] == block;
    }

    method ObserveOne(from: Address, n: U64, now: Time) returns (tx: Option<Tx>)
      requires Allocated(View())
      modifies this
      ensures (View(), tx) == NonceModel.ObserveOne(old(View()), from, n, now)
      ensures queue == old(queue) + if tx == None then [] else [tx.value]
    {
      var r := Acquire(from);
      var next := Raise(heap[r].next, Inc(n));
      heap := heap[r := heap[r].(next := next, lastSeen := now)];
      tx := ReleaseReady(r, next.value);
      Release(r);
    }

    /** Drops what is spent and hands over the transaction at next. */
    method ReleaseReady(r: Ref, next: U64) returns (tx: Option<Tx>)
      requires r in heap
      modifies this`heap, this`byHash, this`queue
      ensures (View(), tx) == Promote(old(View()), r, next)
      ensures queue == old(queue) + if tx == None then [] else [tx.value]
    {
      var parked := heap[r].parked;
      tx := if next in parked then Some(parked[next].tx) else None;
      UnparkEach(r, set m | m in parked && m <= next);
      if tx.Some? {
        queue := queue + [tx.value];
      }
    }

    /** Advances every sender of a committed block and releases what became ready. */
    method Observe(block: seq<Commit>, now: Time) returns (ghost order: seq<Address>)
      requires Valid()
      modifies this
      ensures Valid() && IterationOrder(order, Highest(block).Keys)
      ensures (forall a :: a in order ==> a in Highest(block))
      ensures View() == ObserveAll(old(View()), order, Highest(block), now).0
      ensures queue == old(queue) + ObserveAll(old(View()), order, Highest(block), now).1
    {
      ghost var g := View();
      var highest := HighestOf(block);
      order := ObserveEach(highest, now);
      ObserveAllOk(g, order, highest, now, maxPerSender);
    }

    method ObserveEach(highest: map<Address, U64>, now: Time) returns (ghost order: seq<Address>)
      requires Allocated(View())
      modifies this
      ensures IterationOrder(order, highest.Keys) && (forall a :: a in order ==> a in highest)
      ensures View() == ObserveAll(old(View()), order, highest, now).0
      ensures queue == old(queue) + ObserveAll(old(View()), order, highest, now).1
    {
      ghost var g := View();
      order := [];
      var rest := highest.Keys;
      while rest != {}
        invariant Visited(order, highest.Keys, rest) && forall a :: a in order ==> a in highest
        invariant View() == ObserveAll(g, order, highest, now).0
        invariant queue == old(queue) + ObserveAll(g, order, highest, now).1
        decreases rest
      {
        var a :| a in rest;
        ghost var handed := ObserveAll(g, order, highest, now).1;
        VisitNext(order, highest.Keys, rest, a);
        ObserveAllSnoc(g, order, a, highest, now);
        var tx := ObserveOne(a, highest[a], now);
        order := order + [a];
        Associate(old(queue), handed, if tx == None then [] else [tx.value]);
        rest := rest - {a};
      }
    }

    /** Expires parked transactions, then evicts the least recently seen idle senders while over the cap. */
    method Prune(now: Time) returns (ghost order: seq<Address>, ghost victims: seq<Address>)
      requires Valid()
      modifies this
      ensures Valid() && queue == old(queue)
      ensures IterationOrder(order, old(entries).Keys) && (forall a :: a in order ==> a in old(entries))
      ensures var g := Expire(old(View()), order, now, ttl);
              && Legal(g, victims, maxSenders) && View() == Evict(g, victims)
              && Bounded(View(), maxSenders)
    {
      ghost var g := View();
      order := ExpireAll(now);
      ExpireOk(g, order, now, ttl, maxPerSender);
      ghost var g1 := View();
      victims := EvictIdle();
      LegalIdle(g1, victims, maxSenders);
      EvictOk(g1, victims, maxPerSender);
    }

    method ExpireAll(now: Time) returns (ghost order: seq<Address>)
      requires Allocated(View())
      modifies this`heap, this`byHash
      ensures IterationOrder(order, entries.Keys) && (forall a :: a in order ==> a in entries)
      ensures View() == Expire(old(View()), order, now, ttl)
    {
      ghost var g := View();
      order := [];
      var rest := entries.Keys;
      while rest != {}
        invariant Visited(order, entries.Keys, rest) && g.entries == entries
        invariant (forall a :: a in order ==> a in g.entries) && View() == Expire(g, order, now, ttl)
        decreases rest
      {
        var a :| a in rest;
        var r := entries[a];
        VisitNext(order, entries.Keys, rest, a);
        Append(order, a);
        UnparkEach(r, ExpiredNonces(heap[r].parked, now, ttl));
        order := order + [a];
        rest := rest - {a};
      }
    }

    /** The idle sender seen least recently, if any. */
    method OldestIdle() returns (oldest: Option<Address>)
      requires Allocated(View())
      ensures oldest == None ==> forall a :: !Evictable(View(), a)
      ensures oldest.Some? ==> Evictable(View(), oldest.value)
      ensures oldest.Some? ==>
                forall a :: Evictable(View(), a) ==>
                  heap[entries[oldest.value]].lastSeen <= heap[entries[a]].lastSeen
    {
      oldest := None;
      var rest := entries.Keys;
      while rest != {}
        invariant rest <= entries.Keys
        invariant oldest == None ==> forall a :: Evictable(View(), a) ==> a in rest
        invariant oldest.Some? ==> Evictable(View(), oldest.value)
        invariant oldest.Some? ==> forall a :: Evictable(View(), a) && a !in rest ==>
                    heap[entries[oldest.value]].lastSeen <= heap[entries[a]].lastSeen
        decreases rest
      {
        var a :| a in rest;
        rest := rest - {a};
        var s := heap[entries[a]];
        if s.refs == 0 && s.parked == map[]
           && (oldest == None || s.lastSeen < heap[entries[oldest.value]].lastSeen) {
          oldest := Some(a);
        }
      }
    }

    /** Terminates with the cache within its cap or nothing left to evict. */
    method EvictIdle() returns (ghost victims: seq<Address>)
      requires Allocated(View())
      modifies this`entries
      ensures Allocated(View()) && Legal(old(View()), victims, maxSenders) && View() == Evict(old(View()), victims)
      ensures Bounded(View(), maxSenders)
    {
      ghost var g := View();
      victims := [];
      while |entries| > maxSenders
        invariant Allocated(View()) && Legal(g, victims, maxSenders) && View() == Evict(g, victims)
        decreases |entries|
      {
        var oldest := OldestIdle();
        if oldest == None {
          break;
        }
        LegalSnoc(g, victims, oldest.value, maxSenders);
        victims := victims + [oldest.value];
        SmallerMap(entries, oldest.value);
        entries := entries - {oldest.value};
      }
    }

    /** A parked transaction by hash. */
    method IsPending(hash: Hash) returns (tx: Option<Tx>)
      requires Valid()
      ensures tx.Some? <==>
                hash.nonce in ParkedOf(View(), hash.from) && ParkedOf(View(), hash.from)[hash.nonce].tx.hash == hash
      ensures tx.Some? ==> tx.value == ParkedOf(View(), hash.from)[hash.nonce].tx
    {
      assert Indexes(byHash, hash.from, ParkedOf(View(), hash.from));
      return if hash in byHash then Some(byHash[hash]) else None;
    }
  }
}
