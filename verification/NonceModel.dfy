/** The nonce gate: what each critical section does to the cached senders. */
module NonceModel {
  import opened Prelude

  // Admit releases the lock while it reads the ledger and keeps a pointer to its sender entry meanwhile, so entries
  // are named by allocation number and `heap` holds the entry behind each number.

  type Address = nat
  type Ref = nat
  type Time = int

  /** A transaction hash fixes the sender and the nonce of the transaction. */
  datatype Hash = Hash(from: Address, nonce: U64, digest: nat)

  datatype Tx = Tx(hash: Hash, body: nat)

  datatype Parked = Parked(tx: Tx, at: Time)

  /** One sender's next expected nonce, unknown until a read or a commit sets it, and its parked transactions. */
  datatype Sender = Sender(from: Address, next: Option<U64>, parked: map<U64, Parked>, lastSeen: Time, refs: nat)

  datatype Gate = Gate(heap: map<Ref, Sender>, limit: Ref, entries: map<Address, Ref>, byHash: map<Hash, Tx>)

  const EmptyGate := Gate(map[], 0, map[], map[])

  /** A nonce only ever moves forwards. */
  function Raise(next: Option<U64>, n: U64): (r: Option<U64>)
    ensures r.Some? && r.value >= n && (next.Some? ==> r.value >= next.value)
    ensures r == Some(n) || r == next
  {
    if next == None || n > next.value then Some(n) else next
  }

  /** Entries point into the heap. */
  ghost predicate Allocated(g: Gate) {
    && (forall a :: a in g.entries ==> g.entries[a] in g.heap)
    && (forall r :: r in g.heap ==> r < g.limit)
  }

  /** Pins the sender's entry, reserving one without a nonce if there is none. */
  function Acquire(g: Gate, a: Address): (Gate, Ref)
    requires Allocated(g)
  {
    if a in g.entries then
      var r := g.entries[a];
      (g.(heap := g.heap[r := g.heap[r].(refs := g.heap[r].refs + 1)]), r)
    else
      (g.(heap := g.heap[g.limit := Sender(a, None, map[], 0, 1)], limit := g.limit + 1,
          entries := g.entries[a := g.limit]), g.limit)
  }

  /** Unpins the entry; a reservation that never got a nonce and holds nothing is dropped. */
  function Release(g: Gate, r: Ref): Gate
    requires r in g.heap && g.heap[r].refs > 0
  {
    var s := g.heap[r].(refs := g.heap[r].refs - 1);
    var g' := g.(heap := g.heap[r := s]);
    if s.refs > 0 || s.next.Some? || s.parked != map[] then g' else g'.(entries := g'.entries - {s.from})
  }

  datatype Verdict = TooLow | HandedOver | TooMany | ParkedAway

  function Park(g: Gate, r: Ref, tx: Tx, now: Time): Gate
    requires r in g.heap
  {
    var parked, n := g.heap[r].parked, tx.hash.nonce;
    var byHash := if n in parked then g.byHash - {parked[n].tx.hash} else g.byHash;
    g.(heap := g.heap[r := g.heap[r].(parked := parked[n := Parked(tx, now)])], byHash := byHash[tx.hash := tx])
  }

  /** Rejects a spent nonce, hands over the next one, parks a later one. */
  function Judge(g: Gate, r: Ref, tx: Tx, now: Time, cap: nat): (Gate, Verdict)
    requires r in g.heap && g.heap[r].next.Some?
  {
    var g' := g.(heap := g.heap[r := g.heap[r].(lastSeen := now)]);
    var s, n := g'.heap[r], tx.hash.nonce;
    if n < s.next.value then (g', TooLow)
    else if n == s.next.value then (g', HandedOver)
    else if n !in s.parked && |s.parked| >= cap then (g', TooMany)
    else (Park(g', r, tx, now), ParkedAway)
  }

  /** Admit up to the ledger read: decided at once when the nonce is cached, otherwise the entry stays pinned. */
  function AdmitBegin(g: Gate, tx: Tx, now: Time, cap: nat): (Gate, Ref, Option<Verdict>)
    requires Allocated(g)
  {
    var (g1, r) := Acquire(g, tx.hash.from);
    if g1.heap[r].next == None then (g1, r, None)
    else
      var (g2, v) := Judge(g1, r, tx, now, cap);
      (Release(g2, r), r, Some(v))
  }

  /** Admit after the ledger read; no seed means the read failed. */
  function AdmitEnd(g: Gate, r: Ref, tx: Tx, seed: Option<U64>, now: Time, cap: nat): (Gate, Option<Verdict>)
    requires r in g.heap && g.heap[r].refs > 0
  {
    if seed == None then (Release(g, r), None)
    else
      var g1 := g.(heap := g.heap[r := g.heap[r].(next := Raise(g.heap[r].next, seed.value))]);
      var (g2, v) := Judge(g1, r, tx, now, cap);
      (Release(g2, r), Some(v))
  }

  /* ---- Observe ---- */

  /** A transaction as a block reports it; it counts if it is valid and decodable. */
  datatype Commit = Commit(from: Address, nonce: U64, counts: bool)

  /** The highest counted nonce per sender. */
  function Highest(block: seq<Commit>): map<Address, U64> {
    if block == [] then map[]
    else
      var n := |block| - 1;
      var m, c := Highest(block[..n]), block[n];
      if c.counts && (c.from !in m || c.nonce > m[c.from]) then m[c.from := c.nonce] else m
  }

  /** Takes the parked transactions at these nonces out, and out of byHash. */
  function Unpark(g: Gate, r: Ref, nonces: set<U64>): Gate
    requires r in g.heap
  {
    var parked := g.heap[r].parked;
    g.(heap := g.heap[r := g.heap[r].(parked := parked - nonces)],
       byHash := g.byHash - set n | n in parked && n in nonces :: parked[n].tx.hash)
  }

  /** Parked transactions up to `next` leave; the one at `next` is handed over. */
  function Promote(g: Gate, r: Ref, next: U64): (Gate, Option<Tx>)
    requires r in g.heap
  {
    var parked := g.heap[r].parked;
    (Unpark(g, r, set n | n in parked && n <= next), if next in parked then Some(parked[next].tx) else None)
  }

  function ObserveOne(g: Gate, a: Address, n: U64, now: Time): (Gate, Option<Tx>)
    requires Allocated(g)
  {
    var (g1, r) := Acquire(g, a);
    var next := Raise(g1.heap[r].next, Inc(n));
    var g2 := g1.(heap := g1.heap[r := g1.heap[r].(next := next, lastSeen := now)]);
    var (g3, tx) := Promote(g2, r, next.value);
    (Release(g3, r), tx)
  }

  lemma ObserveOneAllocated(g: Gate, a: Address, n: U64, now: Time)
    requires Allocated(g)
    ensures Allocated(ObserveOne(g, a, n, now).0)
  {
  }

  /** Senders of one block in the order the map was ranged over; the second part is what was handed over. */
  function ObserveAll(g: Gate, order: seq<Address>, highest: map<Address, U64>, now: Time): (r: (Gate, seq<Tx>))
    requires Allocated(g) && forall a :: a in order ==> a in highest
    ensures Allocated(r.0)
  {
    if order == [] then (g, [])
    else
      var k := |order| - 1;
      var (g', handed) := ObserveAll(g, order[..k], highest, now);
      var (g'', tx) := ObserveOne(g', order[k], highest[order[k]], now);
      ObserveOneAllocated(g', order[k], highest[order[k]], now);
      (g'', handed + if tx == None then [] else [tx.value])
  }

  /* ---- prune ---- */

  predicate Expired(p: Parked, now: Time, ttl: Time) {
    now - p.at > ttl
  }

  function ExpiredNonces(parked: map<U64, Parked>, now: Time, ttl: Time): set<U64> {
    set n | n in parked && Expired(parked[n], now, ttl)
  }

  /** Drops the expired parked transactions of the listed senders. */
  function Expire(g: Gate, order: seq<Address>, now: Time, ttl: Time): (r: Gate)
    requires Allocated(g) && forall a :: a in order ==> a in g.entries
    ensures Allocated(r) && r.entries == g.entries
  {
    if order == [] then g
    else
      var k := |order| - 1;
      var g' := Expire(g, order[..k], now, ttl);
      var r := g'.entries[order[k]];
      Unpark(g', r, ExpiredNonces(g'.heap[r].parked, now, ttl))
  }

  /** Nobody holds the sender and it parks nothing. */
  predicate Evictable(g: Gate, a: Address)
    requires Allocated(g)
  {
    a in g.entries && g.heap[g.entries[a]].refs == 0 && g.heap[g.entries[a]].parked == map[]
  }

  function Evict(g: Gate, victims: seq<Address>): (r: Gate)
    requires Allocated(g)
    ensures Allocated(r) && r.heap == g.heap && r.byHash == g.byHash
    ensures forall a :: a in r.entries <==> a in g.entries && a !in victims
    ensures forall a :: a in r.entries ==> r.entries[a] == g.entries[a]
  {
    if victims == [] then g
    else
      var k := |victims| - 1;
      var g' := Evict(g, victims[..k]);
      assert victims == victims[..k] + [victims[k]];
      g'.(entries := g'.entries - {victims[k]})
  }

  /** Victims went one at a time, each the least recently seen evictable sender, while the cache was over max. */
  ghost predicate Legal(g: Gate, victims: seq<Address>, max: nat)
    requires Allocated(g)
  {
    victims == [] || (
      var k := |victims| - 1;
      var g', v := Evict(g, victims[..k]), victims[k];
      && Legal(g, victims[..k], max)
      && |g'.entries| > max
      && Evictable(g', v)
      && forall a :: Evictable(g', a) ==> g'.heap[g'.entries[v]].lastSeen <= g'.heap[g'.entries[a]].lastSeen)
  }

  /** The cache is within its cap or nothing can be evicted. */
  ghost predicate Bounded(g: Gate, max: nat)
    requires Allocated(g)
  {
    |g.entries| <= max || forall a :: !Evictable(g, a)
  }
}
