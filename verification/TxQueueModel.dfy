/** The dependency-aware transaction queue as a value, and what one call does to it. */
module TxQueueModel {
  import opened Prelude

  // A transaction entry is shared by pointer between several lists and is updated through all of them. Pointers are
  // made explicit: an entry is named by its allocation number, and `heap` holds the entry behind each number.
  // Numbers grow, so a larger one was enqueued later.

  type Address = nat
  type Hash = nat
  type Ref = nat

  datatype Tx = Tx(hash: Hash, sender: Option<Address>, recipient: Option<Address>)

  /** The addresses a transaction is ordered by: sender, then recipient unless it is the sender. */
  function Participants(tx: Tx): seq<Address> {
    var ps := if tx.sender.Some? then [tx.sender.value] else [];
    if tx.recipient.Some? && tx.recipient.value !in ps then ps + [tx.recipient.value] else ps
  }

  /** Sender and recipient once each, and the sender first. */
  lemma ParticipantsOnce(tx: Tx)
    ensures NoDup(Participants(tx))
    ensures forall p :: p in Participants(tx) <==> tx.sender == Some(p) || tx.recipient == Some(p)
    ensures tx.sender.Some? ==> Participants(tx)[0] == tx.sender.value
  {
  }

  datatype Status = Ready | Waiting | Pending

  datatype Entry = Entry(tx: Tx, status: Status, blocks: seq<Ref>, isBlockedBy: seq<Ref>)

  datatype Queue = Queue(
    heap: map<Ref, Entry>,
    next: Ref,
    ready: seq<Ref>,
    waiting: seq<Ref>,
    byParticipant: map<Address, seq<Ref>>,
    byHash: map<Hash, Ref>,
    pending: map<Hash, Tx>)

  const Empty := Queue(map[], 0, [], [], map[], map[], map[])

  /* ---- list helpers ---- */

  /** How often x occurs in s. */
  function Count(s: seq<Ref>, x: Ref): (n: nat)
    ensures n > 0 <==> x in s
  {
    if s == [] then 0 else Count(s[1..], x) + if s[0] == x then 1 else 0
  }

  lemma {:induction false} CountConcat(s: seq<Ref>, t: seq<Ref>, x: Ref)
    ensures Count(s + t, x) == Count(s, x) + Count(t, x)
  {
    if s == [] {
      assert s + t == t;
    } else {
      CountConcat(s[1..], t, x);
      assert (s + t)[1..] == s[1..] + t;
    }
  }

  lemma {:induction false} CountNoDup(s: seq<Ref>, x: Ref)
    requires NoDup(s) && x in s
    ensures Count(s, x) == 1
  {
    if s[0] != x {
      CountNoDup(s[1..], x);
    }
  }

  /** Removes the first occurrence by moving the last element into its place. */
  function RemoveFromSlice(s: seq<Ref>, x: Ref): seq<Ref> {
    if x !in s then s else s[FirstIndex(s, x) := s[|s| - 1]][..|s| - 1]
  }

  function FirstIndex(s: seq<Ref>, x: Ref): (i: nat)
    requires x in s
    ensures i < |s| && s[i] == x && x !in s[..i]
  {
    if s[0] == x then 0 else 1 + FirstIndex(s[1..], x)
  }

  lemma {:induction false} CountMiddle(s: seq<Ref>, x: Ref, t: seq<Ref>, y: Ref)
    ensures Count(s + [x] + t, y) == Count(s, y) + Count(t, y) + if x == y then 1 else 0
  {
    CountConcat(s, [x], y);
    CountConcat(s + [x], t, y);
    assert Count([x], y) == if x == y then 1 else 0;
  }

  /** The last element moved over an earlier one. */
  lemma {:induction false} SwapOutCounts(left: seq<Ref>, x: Ref, most: seq<Ref>, last: Ref, y: Ref)
    ensures Count(left + [last] + most, y) == Count(left + [x] + (most + [last]), y) - if x == y then 1 else 0
  {
    CountMiddle(left, x, most + [last], y);
    CountMiddle(left, last, most, y);
    CountConcat(most, [last], y);
  }

  /** RemoveFromSlice takes one x out and leaves everything else as often as it was. */
  lemma {:induction false} RemoveFromSliceCounts(s: seq<Ref>, x: Ref, y: Ref)
    ensures Count(RemoveFromSlice(s, x), y) == Count(s, y) - if x == y && x in s then 1 else 0
  {
    if x in s {
      var i, n := FirstIndex(s, x), |s| - 1;
      var left := s[..i];
      if i < n {
        var most := s[i + 1..n];
        assert s == left + [x] + (most + [s[n]]);
        assert RemoveFromSlice(s, x) == left + [s[n]] + most;
        SwapOutCounts(left, x, most, s[n], y);
      } else {
        assert s == left + [x] + [] && s[n := s[n]] == s;
        assert RemoveFromSlice(s, x) == left;
        CountMiddle(left, x, [], y);
      }
    }
  }

  /** Unlinks x from a linked list, keeping the order of the rest. */
  function Unlink(s: seq<Ref>, x: Ref): (r: seq<Ref>)
    ensures NoDup(s) ==> NoDup(r) && x !in r
    ensures forall y :: y in r ==> y in s
    ensures forall y :: y in s && y != x ==> y in r
  {
    if x !in s then s else var i := FirstIndex(s, x); s[..i] + s[i + 1..]
  }

  /* ---- Enqueue ---- */

  predicate InFlight(e: Entry) {
    e.status == Ready || e.status == Pending
  }

  function Listed(q: Queue, p: Address): seq<Ref> {
    if p in q.byParticipant then q.byParticipant[p] else []
  }

  /** Every pointer the participant map holds is allocated. */
  ghost predicate Allocated(q: Queue) {
    && (forall p, r :: p in q.byParticipant && r in q.byParticipant[p] ==> r in q.heap)
    && (forall r :: r in q.heap ==> r < q.next)
  }

  /** Entries of a participant list that are waiting, in list order. */
  function WaitingOf(heap: map<Ref, Entry>, rs: seq<Ref>): seq<Ref>
    requires forall r :: r in rs ==> r in heap
  {
    if rs == [] then []
    else
      var n := |rs| - 1;
      WaitingOf(heap, rs[..n]) + if heap[rs[n]].status == Waiting then [rs[n]] else []
  }

  /** Entries of a participant list that are ready or pending. */
  function InFlightOf(heap: map<Ref, Entry>, rs: seq<Ref>): (c: set<Ref>)
    requires forall r :: r in rs ==> r in heap
    ensures forall r :: r in c <==> r in rs && InFlight(heap[r])
  {
    set r | r in rs && InFlight(heap[r])
  }

  /** Waiting entries met while walking the participants ps; one met twice appears twice. */
  function WaitingSharers(q: Queue, ps: seq<Address>): seq<Ref>
    requires Allocated(q)
  {
    if ps == [] then []
    else var n := |ps| - 1; WaitingSharers(q, ps[..n]) + WaitingOf(q.heap, Listed(q, ps[n]))
  }

  /** Ready or pending entries sharing a participant with ps. */
  function Conflicts(q: Queue, ps: seq<Address>): set<Ref>
    requires Allocated(q)
  {
    if ps == [] then {}
    else var n := |ps| - 1; Conflicts(q, ps[..n]) + InFlightOf(q.heap, Listed(q, ps[n]))
  }

  /** Appends e to the blocks list of every target. */
  function AddBlocks(heap: map<Ref, Entry>, targets: seq<Ref>, e: Ref): (h: map<Ref, Entry>)
    requires forall r :: r in targets ==> r in heap
    ensures h.Keys == heap.Keys
  {
    if targets == [] then heap
    else
      var n := |targets| - 1;
      var h := AddBlocks(heap, targets[..n], e);
      var t := targets[n];
      h[t := h[t].(blocks := h[t].blocks + [e])]
  }

  /** Appends e to the isBlockedBy list of every target. */
  function AddBlockedBy(heap: map<Ref, Entry>, targets: seq<Ref>, e: Ref): (h: map<Ref, Entry>)
    requires forall r :: r in targets ==> r in heap
    ensures h.Keys == heap.Keys
  {
    if targets == [] then heap
    else
      var n := |targets| - 1;
      var h := AddBlockedBy(heap, targets[..n], e);
      var t := targets[n];
      h[t := h[t].(isBlockedBy := h[t].isBlockedBy + [e])]
  }

  /** Appends e to the list of every participant. */
  function IndexUnder(m: map<Address, seq<Ref>>, ps: seq<Address>, e: Ref): map<Address, seq<Ref>> {
    if ps == [] then m
    else
      var n := |ps| - 1;
      var m' := IndexUnder(m, ps[..n], e);
      m'[ps[n] := (if ps[n] in m' then m'[ps[n]] else []) + [e]]
  }

  lemma {:induction false} SharersAllocated(q: Queue, ps: seq<Address>)
    requires Allocated(q)
    ensures forall r :: r in WaitingSharers(q, ps) ==> r in q.heap
    ensures forall r :: r in Conflicts(q, ps) ==> r in q.heap
  {
    if ps != [] {
      SharersAllocated(q, ps[..|ps| - 1]);
      WaitingOfMembers(q.heap, Listed(q, ps[|ps| - 1]));
    }
  }

  lemma {:induction false} WaitingOfMembers(heap: map<Ref, Entry>, rs: seq<Ref>)
    requires forall r :: r in rs ==> r in heap
    ensures forall r :: r in WaitingOf(heap, rs) <==> r in rs && heap[r].status == Waiting
  {
    if rs != [] {
      WaitingOfMembers(heap, rs[..|rs| - 1]);
      assert rs == rs[..|rs| - 1] + [rs[|rs| - 1]];
    }
  }

  /** The queue with tx added, waiting for `order` and holding `sharers` back. */
  function Inserted(q: Queue, tx: Tx, order: seq<Ref>, sharers: seq<Ref>): Queue
    requires (forall r :: r in order ==> r in q.heap) && forall r :: r in sharers ==> r in q.heap
  {
    var e := q.next;
    var h := AddBlockedBy(AddBlocks(q.heap, order, e), sharers, e);
    Queue(
      h[e := Entry(tx, if order == [] then Ready else Waiting, sharers, order)],
      e + 1,
      if order == [] then q.ready + [e] else q.ready,
      if order == [] then q.waiting else q.waiting + [e],
      IndexUnder(q.byParticipant, Participants(tx), e),
      q.byHash[tx.hash := e],
      q.pending)
  }

  /** The queue after Enqueue accepted tx, having ranged over the conflict set in this order. */
  function Enqueue(q: Queue, tx: Tx, order: seq<Ref>): Queue
    requires Allocated(q)
    requires IterationOrder(order, Conflicts(q, Participants(tx)))
  {
    SharersAllocated(q, Participants(tx));
    Inserted(q, tx, order, WaitingSharers(q, Participants(tx)))
  }

  /* ---- Dequeue ---- */

  function Dequeue(q: Queue): Queue
    requires q.ready != [] && q.ready[0] in q.heap
  {
    var e := q.ready[0];
    var entry := q.heap[e];
    q.(ready := q.ready[1..],
       heap := q.heap[e := entry.(status := Pending)],
       pending := q.pending[entry.tx.hash := entry.tx])
  }

  /* ---- Complete and Handle ---- */

  /** Every pointer a tracked entry's blocks list holds is allocated. */
  ghost predicate BlocksAllocated(q: Queue) {
    forall h :: h in q.byHash ==>
      q.byHash[h] in q.heap && forall b :: b in q.heap[q.byHash[h]].blocks ==> b in q.heap
  }

  /** Drops `done` once from b's blockers, promoting b when none is left. */
  function Unblock(q: Queue, done: Ref, b: Ref): Queue
    requires b in q.heap
  {
    Reblocked(q, b, RemoveFromSlice(q.heap[b].isBlockedBy, done))
  }

  /** Gives b these remaining blockers, promoting it when there are none. */
  function Reblocked(q: Queue, b: Ref, left: seq<Ref>): (r: Queue)
    requires b in q.heap
    ensures r.heap.Keys == q.heap.Keys
  {
    if left == [] then
      q.(heap := q.heap[b := q.heap[b].(isBlockedBy := left, status := Ready)],
         waiting := Unlink(q.waiting, b),
         ready := q.ready + [b])
    else
      q.(heap := q.heap[b := q.heap[b].(isBlockedBy := left)])
  }

  function UnblockAll(q: Queue, done: Ref, targets: seq<Ref>): (r: Queue)
    requires forall t :: t in targets ==> t in q.heap
    ensures r.heap.Keys == q.heap.Keys
  {
    if targets == [] then q
    else var n := |targets| - 1; Unblock(UnblockAll(q, done, targets[..n]), done, targets[n])
  }

  function Unindex(m: map<Address, seq<Ref>>, ps: seq<Address>, e: Ref): map<Address, seq<Ref>> {
    if ps == [] then m
    else
      var n := |ps| - 1;
      var m' := Unindex(m, ps[..n], e);
      if ps[n] !in m' then m'
      else
        var left := RemoveFromSlice(m'[ps[n]], e);
        if left == [] then m' - {ps[n]} else m'[ps[n] := left]
  }

  /** e no longer tracked under its hash and participants. */
  function Retired(q: Queue, e: Ref, hash: Hash, ps: seq<Address>): Queue {
    q.(byHash := q.byHash - {hash}, byParticipant := Unindex(q.byParticipant, ps, e))
  }

  function Complete(q: Queue, hash: Hash): (r: Queue)
    requires BlocksAllocated(q)
  {
    if hash !in q.byHash then
      q.(pending := q.pending - {hash})
    else
      var e := q.byHash[hash];
      Retired(UnblockAll(q.(pending := q.pending - {hash}), e, q.heap[e].blocks), e, hash, Participants(q.heap[e].tx))
  }

  /** What unblocking leaves alone. */
  ghost predicate SameFrame(q: Queue, r: Queue) {
    && r.next == q.next && r.byHash == q.byHash && r.byParticipant == q.byParticipant
    && r.pending == q.pending && r.heap.Keys == q.heap.Keys
    && forall x :: x in q.heap ==> r.heap[x].tx == q.heap[x].tx && r.heap[x].blocks == q.heap[x].blocks
  }

  lemma ReblockedFrame(q: Queue, b: Ref, left: seq<Ref>)
    requires b in q.heap
    ensures SameFrame(q, Reblocked(q, b, left))
  {
  }

  lemma {:induction false} UnblockAllFrame(q: Queue, done: Ref, targets: seq<Ref>)
    requires forall t :: t in targets ==> t in q.heap
    ensures SameFrame(q, UnblockAll(q, done, targets))
  {
    if targets != [] {
      var n := |targets| - 1;
      UnblockAllFrame(q, done, targets[..n]);
      var r := UnblockAll(q, done, targets[..n]);
      ReblockedFrame(r, targets[n], RemoveFromSlice(r.heap[targets[n]].isBlockedBy, done));
    }
  }

  lemma CompleteBlocksAllocated(q: Queue, hash: Hash)
    requires BlocksAllocated(q)
    ensures BlocksAllocated(Complete(q, hash))
  {
    if hash in q.byHash {
      UnblockAllFrame(q.(pending := q.pending - {hash}), q.byHash[hash], q.heap[q.byHash[hash]].blocks);
    }
  }

  /** A block completes its transactions one after the other under one lock. */
  function Handle(q: Queue, hashes: seq<Hash>): (r: Queue)
    requires BlocksAllocated(q)
    ensures BlocksAllocated(r)
  {
    if hashes == [] then q
    else
      var n := |hashes| - 1;
      var q' := Handle(q, hashes[..n]);
      CompleteBlocksAllocated(q', hashes[n]);
      Complete(q', hashes[n])
  }
}
