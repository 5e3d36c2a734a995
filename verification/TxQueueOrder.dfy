/** The order in which the transaction queue serves: first ready, first out. */
module TxQueueOrder {
  import opened Prelude
  import opened TxQueueModel
  import opened TxQueueSafety
  import opened TxQueueRuns

  /* ---- lists ---- */

  /** i is the first place of x. */
  predicate FirstAt(s: seq<Ref>, x: Ref, i: nat) {
    i < |s| && s[i] == x && forall j :: 0 <= j < i ==> s[j] != x
  }

  /** The last element takes the place of the first occurrence, every other one stays where it is. */
  lemma {:induction false} RemovedAt(s: seq<Ref>, x: Ref, i: nat)
    requires FirstAt(s, x, i)
    ensures var r := RemoveFromSlice(s, x);
            |r| == |s| - 1 && forall j :: 0 <= j < |r| ==> r[j] == if j == i then s[|s| - 1] else s[j]
  {
    FirstUnique(s, x, i);
  }

  lemma {:induction false} FirstUnique(s: seq<Ref>, x: Ref, i: nat)
    requires FirstAt(s, x, i)
    ensures x in s && FirstIndex(s, x) == i
  {
    var k := FirstIndex(s, x);
    assert forall j :: 0 <= j < k ==> s[j] in s[..k];
  }

  /** Unlinking takes out the first occurrence and closes the gap. */
  lemma {:induction false} UnlinkedAt(s: seq<Ref>, x: Ref, i: nat)
    requires FirstAt(s, x, i)
    ensures Unlink(s, x) == s[..i] + s[i + 1..]
  {
    FirstUnique(s, x, i);
  }

  /* ---- the ready list ---- */

  lemma PrefixTrans<T>(a: seq<T>, b: seq<T>, c: seq<T>)
    requires a <= b <= c
    ensures a <= c
  {
  }

  lemma {:induction false} UnblockAppends(q: Queue, done: Ref, targets: seq<Ref>)
    requires forall t :: t in targets ==> t in q.heap
    ensures q.ready <= UnblockAll(q, done, targets).ready
  {
    if targets != [] {
      UnblockAppends(q, done, targets[..|targets| - 1]);
    }
  }

  lemma CompleteAppends(q: Queue, hash: Hash)
    requires BlocksAllocated(q)
    ensures q.ready <= Complete(q, hash).ready
  {
    if hash in q.byHash {
      var e := q.byHash[hash];
      UnblockAppends(q.(pending := q.pending - {hash}), e, q.heap[e].blocks);
    }
  }

  lemma {:induction false} HandleAppends(q: Queue, hashes: seq<Hash>)
    requires BlocksAllocated(q)
    ensures q.ready <= Handle(q, hashes).ready
  {
    if hashes != [] {
      var n := |hashes| - 1;
      HandleAppends(q, hashes[..n]);
      CompleteAppends(Handle(q, hashes[..n]), hashes[n]);
      PrefixTrans(q.ready, Handle(q, hashes[..n]).ready, Handle(q, hashes).ready);
    }
  }

  /** The entries handed out by a run, in order. */
  ghost function Served(q: Queue, steps: seq<Step>, q': Queue): seq<Ref>
    requires Run(q, steps, q')
    decreases |steps|
  {
    if steps == [] then []
    else (if steps[0].Deq? then [q.ready[0]] else []) + Served(Apply(q, steps[0]), steps[1..], q')
  }

  /** Only Dequeue takes from the ready list, and it takes the first; everything else adds at the end. */
  lemma StepOrder(q: Queue, s: Step)
    requires Allowed(q, s)
    ensures if s.Deq? then q.ready == [q.ready[0]] + Apply(q, s).ready else q.ready <= Apply(q, s).ready
  {
    match s
    case Enq(tx, order) =>
    case Deq =>
    case Done(h) => CompleteAppends(q, h);
    case Block(hs) => HandleAppends(q, hs);
  }

  /** Over every run: what is ready is served before anything that becomes ready later, in its order. */
  lemma {:induction false} FirstReadyFirstOut(q: Queue, steps: seq<Step>, q': Queue)
    requires Run(q, steps, q')
    ensures q.ready <= Served(q, steps, q') + q'.ready
    decreases |steps|
  {
    if steps != [] {
      var s, rest := steps[0], Served(Apply(q, steps[0]), steps[1..], q');
      StepOrder(q, s);
      FirstReadyFirstOut(Apply(q, s), steps[1..], q');
      if s.Deq? {
        Associate([q.ready[0]], rest, q'.ready);
      } else {
        assert [] + rest == rest;
        PrefixTrans(q.ready, Apply(q, s).ready, rest + q'.ready);
      }
    }
  }

  /** A tracked entry in flight that shares a participant with tx. */
  ghost predicate Holds(q: Queue, r: Ref, tx: Tx) {
    Live(q, r) && InFlight(q.heap[r]) && Names(tx, q.heap[r].tx)
  }

  lemma {:induction false} OrderHolds(q: Queue, tx: Tx, order: seq<Ref>)
    requires Indexed(q) && Allocated(q) && IterationOrder(order, Conflicts(q, Participants(tx)))
    ensures forall r :: r in order <==> Holds(q, r, tx)
  {
    Select(q, tx, order);
  }

  lemma {:induction false} EnqueueFiles(q: Queue, tx: Tx, order: seq<Ref>, q': Queue)
    requires Allocated(q) && IterationOrder(order, Conflicts(q, Participants(tx))) && q' == Enqueue(q, tx, order)
    ensures var e := q.next;
            && e in q'.heap && e !in q.heap && q'.heap[e].tx == tx && q'.byHash == q.byHash[tx.hash := e]
            && q'.heap[e].isBlockedBy == order && q'.pending == q.pending
            && q'.heap[e].status == (if order == [] then Ready else Waiting)
            && q'.ready == if order == [] then q.ready + [e] else q.ready
  {
  }

  /** A new transaction is filed under its hash and waits for exactly the entries in flight it shares a participant
      with; with none it is ready at once, after all that are. */
  lemma {:induction false} EnqueueWaitsFor(q: Queue, tx: Tx, order: seq<Ref>)
    requires Indexed(q) && Allocated(q) && IterationOrder(order, Conflicts(q, Participants(tx)))
    ensures var q', e := Enqueue(q, tx, order), q.next;
            && e in q'.heap && e !in q.heap && q'.heap[e].tx == tx && q'.byHash == q.byHash[tx.hash := e]
            && (forall r :: r in q'.heap[e].isBlockedBy <==> Holds(q, r, tx))
            && ((forall r :: !Holds(q, r, tx)) ==> q'.heap[e].status == Ready && q'.ready == q.ready + [e])
            && ((exists r :: Holds(q, r, tx)) ==> q'.heap[e].status == Waiting && q'.ready == q.ready)
            && q'.pending == q.pending
  {
    OrderHolds(q, tx, order);
    EnqueueFiles(q, tx, order, Enqueue(q, tx, order));
    assert order != [] ==> Holds(q, order[0], tx);
  }

  /** Completing a hash untracks it, pending or not, and no other. */
  lemma CompleteUntracks(q: Queue, hash: Hash)
    requires BlocksAllocated(q)
    ensures Complete(q, hash).byHash == q.byHash - {hash} && Complete(q, hash).pending == q.pending - {hash}
  {
    if hash in q.byHash {
      var e := q.byHash[hash];
      UnblockAllFrame(q.(pending := q.pending - {hash}), e, q.heap[e].blocks);
    }
  }

  /** A block untracks exactly its hashes. */
  lemma {:induction false} HandleUntracks(q: Queue, hashes: seq<Hash>, h: Hash)
    requires BlocksAllocated(q)
    ensures h in Handle(q, hashes).byHash <==> h in q.byHash && h !in hashes
    ensures h in Handle(q, hashes).pending <==> h in q.pending && h !in hashes
    ensures h in Handle(q, hashes).byHash ==> Handle(q, hashes).byHash[h] == q.byHash[h]
  {
    if hashes != [] {
      var n := |hashes| - 1;
      Snoc(hashes);
      HandleUntracks(q, hashes[..n], h);
      CompleteUntracks(Handle(q, hashes[..n]), hashes[n]);
    }
  }
}
