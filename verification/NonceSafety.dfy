/** What every critical section of the nonce gate keeps, whichever sender it works on. */
module NonceSafety {
  import opened Prelude
  import opened NonceModel

  /** A cached sender: parked transactions sit at their own nonce, within the cap, and only once a nonce is
      known; an entry nobody holds has a nonce. */
  ghost predicate SenderOk(s: Sender, a: Address, cap: nat) {
    && s.from == a
    && (s.parked != map[] || s.refs == 0 ==> s.next.Some?)
    && |s.parked| <= cap
    && forall n :: n in s.parked ==> s.parked[n].tx.hash.from == a && s.parked[n].tx.hash.nonce == n
  }

  /** Of the hashes of sender a, byHash holds exactly those of the parked transactions. */
  ghost predicate Indexes(byHash: map<Hash, Tx>, a: Address, parked: map<U64, Parked>) {
    forall h: Hash :: h.from == a ==>
      && (h in byHash <==> h.nonce in parked && parked[h.nonce].tx.hash == h)
      && (h in byHash ==> byHash[h] == parked[h.nonce].tx)
  }

  ghost predicate Senders(g: Gate, cap: nat) {
    Allocated(g) && forall a :: a in g.entries ==> SenderOk(g.heap[g.entries[a]], a, cap)
  }

  ghost function ParkedOf(g: Gate, a: Address): map<U64, Parked>
    requires Allocated(g)
  {
    if a in g.entries then g.heap[g.entries[a]].parked else map[]
  }

  /** byHash is exactly the set of parked transactions. */
  ghost predicate ByHash(g: Gate)
    requires Allocated(g)
  {
    forall a :: Indexes(g.byHash, a, ParkedOf(g, a))
  }

  ghost predicate GateOk(g: Gate, cap: nat) {
    Senders(g, cap) && ByHash(g)
  }

  /** Only the entry of a changed, and it was not replaced by another one. */
  ghost predicate Local(g: Gate, g': Gate, a: Address) {
    && Allocated(g) && Allocated(g')
    && (forall b :: b != a ==> (b in g'.entries <==> b in g.entries))
    && (forall b :: b != a && b in g.entries ==>
          g'.entries[b] == g.entries[b] && g'.heap[g'.entries[b]] == g.heap[g.entries[b]])
    && (a in g.entries && a in g'.entries ==> g'.entries[a] == g.entries[a])
  }

  lemma LocalTrans(g: Gate, g1: Gate, g2: Gate, a: Address)
    requires Local(g, g1, a) && Local(g1, g2, a) && (a in g.entries && a in g2.entries ==> a in g1.entries)
    ensures Local(g, g2, a)
  {
  }

  /** byHash and byHash' agree on the hashes of sender b. */
  ghost predicate SameHashes(byHash: map<Hash, Tx>, byHash': map<Hash, Tx>, b: Address) {
    forall h: Hash :: h.from == b ==> (h in byHash' <==> h in byHash) && (h in byHash ==> byHash'[h] == byHash[h])
  }

  lemma SameHashesIndex(byHash: map<Hash, Tx>, byHash': map<Hash, Tx>, b: Address, parked: map<U64, Parked>)
    requires Indexes(byHash, b, parked) && SameHashes(byHash, byHash', b)
    ensures Indexes(byHash', b, parked)
  {
  }

  /** A change local to a that keeps byHash in step with the parked transactions of a. */
  lemma LocalByHash(g: Gate, g': Gate, a: Address)
    requires Allocated(g) && ByHash(g) && Local(g, g', a)
    requires Indexes(g'.byHash, a, ParkedOf(g', a))
    requires forall b :: b != a ==> SameHashes(g.byHash, g'.byHash, b)
    ensures ByHash(g')
  {
    forall b
      ensures Indexes(g'.byHash, b, ParkedOf(g', b))
    {
      if b != a {
        assert Indexes(g.byHash, b, ParkedOf(g, b));
        SameHashesIndex(g.byHash, g'.byHash, b, ParkedOf(g, b));
        assert ParkedOf(g', b) == ParkedOf(g, b);
      }
    }
  }

  lemma SetSenderLocal(g: Gate, a: Address, s: Sender, cap: nat, g': Gate)
    requires Senders(g, cap) && a in g.entries && SenderOk(s, a, cap)
    requires g'.entries == g.entries && g'.limit == g.limit && g'.heap == g.heap[g.entries[a] := s]
    ensures Senders(g', cap) && Local(g, g', a)
  {
    assert forall b :: b in g.entries && b != a ==> g.entries[b] != g.entries[a];
  }

  /** Replacing the record of a, with byHash following its parked transactions. */
  lemma SetSender(g: Gate, a: Address, s: Sender, byHash: map<Hash, Tx>, cap: nat, g': Gate)
    requires GateOk(g, cap) && a in g.entries && SenderOk(s, a, cap)
    requires Indexes(byHash, a, s.parked)
    requires forall b :: b != a ==> SameHashes(g.byHash, byHash, b)
    requires g' == g.(heap := g.heap[g.entries[a] := s], byHash := byHash)
    ensures GateOk(g', cap) && Local(g, g', a)
  {
    SetSenderLocal(g, a, s, cap, g');
    LocalByHash(g, g', a);
  }

  /** The same where parked transactions stay. */
  lemma SetRest(g: Gate, a: Address, s: Sender, cap: nat, g': Gate)
    requires GateOk(g, cap) && a in g.entries && SenderOk(s, a, cap) && s.parked == g.heap[g.entries[a]].parked
    requires g' == g.(heap := g.heap[g.entries[a] := s])
    ensures GateOk(g', cap) && Local(g, g', a)
  {
    assert Indexes(g.byHash, a, ParkedOf(g, a));
    SetSender(g, a, s, g.byHash, cap, g');
  }

  lemma ReserveLocal(g: Gate, a: Address, s: Sender, cap: nat, g': Gate)
    requires Senders(g, cap) && a !in g.entries && SenderOk(s, a, cap)
    requires g' == g.(heap := g.heap[g.limit := s], limit := g.limit + 1, entries := g.entries[a := g.limit])
    ensures Senders(g', cap) && Local(g, g', a)
  {
    assert g.limit !in g.heap;
  }

  lemma AcquireOk(g: Gate, a: Address, cap: nat)
    requires GateOk(g, cap)
    ensures var (g', r) := Acquire(g, a);
            && GateOk(g', cap) && Local(g, g', a) && a in g'.entries && g'.entries[a] == r
            && g'.heap[r]
               == if a in g.entries then g.heap[r].(refs := g.heap[r].refs + 1) else Sender(a, None, map[], 0, 1)
  {
    var (g', r) := Acquire(g, a);
    if a in g.entries {
      SetRest(g, a, g.heap[r].(refs := g.heap[r].refs + 1), cap, g');
    } else {
      ReserveLocal(g, a, Sender(a, None, map[], 0, 1), cap, g');
      assert Indexes(g.byHash, a, ParkedOf(g, a));
      LocalByHash(g, g', a);
    }
  }

  lemma DropLocal(g: Gate, a: Address, s: Sender, cap: nat, g': Gate)
    requires Senders(g, cap) && a in g.entries
    requires g' == g.(heap := g.heap[g.entries[a] := s], entries := g.entries - {a})
    ensures Senders(g', cap) && Local(g, g', a)
  {
    assert forall b :: b in g.entries && b != a ==> g.entries[b] != g.entries[a];
  }

  /** The entry survives its release unless it has neither holder, nonce nor parked transaction. */
  lemma ReleaseOk(g: Gate, a: Address, cap: nat)
    requires GateOk(g, cap) && a in g.entries && g.heap[g.entries[a]].refs > 0
    ensures var r := g.entries[a];
            var g' := Release(g, r);
            && GateOk(g', cap) && Local(g, g', a)
            && (a in g'.entries <==> g.heap[r].refs > 1 || g.heap[r].next.Some?)
            && (a in g'.entries ==> g'.heap[r] == g.heap[r].(refs := g.heap[r].refs - 1))
  {
    var r, g' := g.entries[a], Release(g, g.entries[a]);
    var s := g.heap[r].(refs := g.heap[r].refs - 1);
    assert SenderOk(g.heap[r], a, cap);
    if s.refs > 0 || s.next.Some? {
      SetRest(g, a, s, cap, g');
    } else {
      assert s.parked == map[];
      DropLocal(g, a, s, cap, g');
      assert Indexes(g.byHash, a, ParkedOf(g, a));
      LocalByHash(g, g', a);
    }
  }

  /** Parked transactions of a sit at their own nonce. */
  ghost predicate Keyed(parked: map<U64, Parked>, a: Address) {
    forall n :: n in parked ==> parked[n].tx.hash.from == a && parked[n].tx.hash.nonce == n
  }

  lemma ParkIndex(byHash: map<Hash, Tx>, a: Address, parked: map<U64, Parked>, tx: Tx, now: Time,
                  byHash': map<Hash, Tx>)
    requires Indexes(byHash, a, parked) && Keyed(parked, a) && tx.hash.from == a
    requires byHash'
             == (if tx.hash.nonce in parked then byHash - {parked[tx.hash.nonce].tx.hash} else byHash)[tx.hash := tx]
    ensures Indexes(byHash', a, parked[tx.hash.nonce := Parked(tx, now)])
    ensures forall b :: b != a ==> SameHashes(byHash, byHash', b)
  {
  }

  /** Taking parked transactions away together with their hashes. */
  lemma RemoveIndex(byHash: map<Hash, Tx>, a: Address, parked: map<U64, Parked>, parked': map<U64, Parked>,
                    gone: set<Hash>)
    requires Indexes(byHash, a, parked) && Keyed(parked, a)
    requires forall n :: n in parked' ==> n in parked && parked'[n] == parked[n]
    requires forall h :: h in gone <==>
               h.from == a && h.nonce in parked && h.nonce !in parked' && parked[h.nonce].tx.hash == h
    ensures Indexes(byHash - gone, a, parked') && |parked'| <= |parked|
    ensures forall b :: b != a ==> SameHashes(byHash, byHash - gone, b)
  {
    SubsetCardinality(parked'.Keys, parked.Keys);
  }

  lemma {:induction false} SubsetCardinality<T>(s: set<T>, t: set<T>)
    requires s <= t
    ensures |s| <= |t|
  {
    if s != {} {
      var x :| x in s;
      SubsetCardinality(s - {x}, t - {x});
    }
  }

  lemma ParkOk(g: Gate, a: Address, tx: Tx, now: Time, cap: nat)
    requires GateOk(g, cap) && a in g.entries && tx.hash.from == a && g.heap[g.entries[a]].next.Some?
    requires tx.hash.nonce in g.heap[g.entries[a]].parked || |g.heap[g.entries[a]].parked| < cap
    ensures var r := g.entries[a];
            var g' := Park(g, r, tx, now);
            && GateOk(g', cap) && Local(g, g', a) && g'.entries == g.entries
            && g'.heap[r] == g.heap[r].(parked := g.heap[r].parked[tx.hash.nonce := Parked(tx, now)])
  {
    var r, n, g' := g.entries[a], tx.hash.nonce, Park(g, g.entries[a], tx, now);
    var parked := g.heap[r].parked;
    var s := g.heap[r].(parked := parked[n := Parked(tx, now)]);
    assert SenderOk(g.heap[r], a, cap);
    assert Indexes(g.byHash, a, ParkedOf(g, a));
    ParkIndex(g.byHash, a, parked, tx, now, g'.byHash);
    assert |s.parked| <= cap by {
      assert s.parked.Keys == parked.Keys + {n};
    }
    SetSender(g, a, s, g'.byHash, cap, g');
  }

  /** The verdict on a nonce, given the next one, what is parked and the cap. */
  predicate Judged(v: Verdict, n: U64, next: U64, parked: map<U64, Parked>, cap: nat) {
    match v
    case TooLow => n < next
    case HandedOver => n == next
    case TooMany => n > next && n !in parked && |parked| >= cap
    case ParkedAway => n > next && (n in parked || |parked| < cap)
  }

  lemma JudgeOk(g: Gate, a: Address, tx: Tx, now: Time, cap: nat)
    requires GateOk(g, cap) && a in g.entries && tx.hash.from == a && g.heap[g.entries[a]].next.Some?
    ensures var r := g.entries[a];
            var (g', v) := Judge(g, r, tx, now, cap);
            && GateOk(g', cap) && Local(g, g', a) && g'.entries == g.entries
            && Judged(v, tx.hash.nonce, g.heap[r].next.value, g.heap[r].parked, cap)
            && g'.heap[r] == g.heap[r].(lastSeen := now,
                                        parked := if v != ParkedAway then g.heap[r].parked
                                                  else g.heap[r].parked[tx.hash.nonce := Parked(tx, now)])
  {
    var r := g.entries[a];
    var s := g.heap[r].(lastSeen := now);
    var g1 := g.(heap := g.heap[r := s]);
    assert SenderOk(g.heap[r], a, cap);
    SetRest(g, a, s, cap, g1);
    if tx.hash.nonce > s.next.value && (tx.hash.nonce in s.parked || |s.parked| < cap) {
      ParkOk(g1, a, tx, now, cap);
      LocalTrans(g, g1, Park(g1, r, tx, now), a);
    }
  }

  lemma UnparkOk(g: Gate, a: Address, nonces: set<U64>, cap: nat)
    requires GateOk(g, cap) && a in g.entries
    ensures var r := g.entries[a];
            var g' := Unpark(g, r, nonces);
            && GateOk(g', cap) && Local(g, g', a) && g'.entries == g.entries
            && g'.heap[r] == g.heap[r].(parked := g.heap[r].parked - nonces)
  {
    var r, g' := g.entries[a], Unpark(g, g.entries[a], nonces);
    var parked, s := g.heap[r].parked, g'.heap[r];
    assert SenderOk(g.heap[r], a, cap);
    assert Indexes(g.byHash, a, ParkedOf(g, a));
    var gone := set n | n in parked && n in nonces :: parked[n].tx.hash;
    forall h
      ensures h in gone <==> h.from == a && h.nonce in parked && h.nonce !in s.parked && parked[h.nonce].tx.hash == h
    {
    }
    RemoveIndex(g.byHash, a, parked, s.parked, gone);
    assert s.parked != map[] ==> parked != map[];
    SetSender(g, a, s, g'.byHash, cap, g');
  }

  /** What is parked above next stays; what is parked at next, and nothing else, is handed over. */
  ghost predicate Released(parked: map<U64, Parked>, next: U64, parked': map<U64, Parked>, tx: Option<Tx>) {
    && (forall n :: n in parked' <==> n in parked && n > next)
    && (forall n :: n in parked' ==> parked'[n] == parked[n])
    && (next in parked ==> tx == Some(parked[next].tx))
    && (next !in parked ==> tx == None)
  }

  lemma PromoteOk(g: Gate, a: Address, next: U64, cap: nat)
    requires GateOk(g, cap) && a in g.entries
    ensures var r := g.entries[a];
            var (g', tx) := Promote(g, r, next);
            && GateOk(g', cap) && Local(g, g', a) && g'.entries == g.entries
            && g'.heap[r] == g.heap[r].(parked := g'.heap[r].parked)
            && Released(g.heap[r].parked, next, g'.heap[r].parked, tx)
            && (tx.Some? ==> tx.value.hash.from == a && tx.value.hash.nonce == next)
  {
    var parked := g.heap[g.entries[a]].parked;
    assert SenderOk(g.heap[g.entries[a]], a, cap);
    UnparkOk(g, a, (set n | n in parked && n <= next), cap);
  }

  /** A commit or a ledger read raises the nonce of a sender. */
  lemma RaiseOk(g: Gate, a: Address, n: U64, lastSeen: Time, cap: nat)
    requires GateOk(g, cap) && a in g.entries
    ensures var r := g.entries[a];
            var g' := g.(heap := g.heap[r := g.heap[r].(next := Raise(g.heap[r].next, n), lastSeen := lastSeen)]);
            GateOk(g', cap) && Local(g, g', a)
  {
    var r := g.entries[a];
    assert SenderOk(g.heap[r], a, cap);
    var s := g.heap[r].(next := Raise(g.heap[r].next, n), lastSeen := lastSeen);
    SetRest(g, a, s, cap, g.(heap := g.heap[r := s]));
  }
}
