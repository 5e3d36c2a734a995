/** Whole runs of the transaction queue: mutual exclusion, no deadlock, exact draining. */
module TxQueueRuns {
  import opened Prelude
  import opened TxQueueModel
  import opened TxQueueSafety

  /* ---- when Complete keeps the queue consistent ---- */

  predicate InList(q: Queue, r: Ref) {
    r in q.ready || r in q.waiting
  }

  lemma {:induction false} UnblockAllKeepsListed(q: Queue, e: Ref, ts: seq<Ref>, r: Ref)
    requires (forall t :: t in ts ==> t in q.heap) && InList(q, r)
    ensures InList(UnblockAll(q, e, ts), r)
  {
    if ts != [] {
      UnblockAllKeepsListed(q, e, ts[..|ts| - 1], r);
    }
  }

  /** r is in a list although nothing tracks it. */
  ghost predicate Stranded(q: Queue, r: Ref) {
    r in q.heap && InList(q, r) && !Live(q, r)
  }

  lemma StrandedBreaks(q: Queue, r: Ref)
    requires Stranded(q, r)
    ensures !Lists(q)
  {
  }

  /** Completing a ready or waiting transaction leaves its entry in a list it no longer belongs to. */
  lemma CompleteStrands(q: Queue, hash: Hash)
    requires Inv(q) && BlocksAllocated(q) && !Completable(q, hash)
    ensures Stranded(Complete(q, hash), q.byHash[hash])
  {
    var e, q0 := q.byHash[hash], q.(pending := q.pending - {hash});
    assert Live(q, e);
    UnblockAllKeepsListed(q0, e, q.heap[e].blocks, e);
    UnblockAllFrame(q0, e, q.heap[e].blocks);
  }

  /** Nothing that is completed later takes a stranded entry out. */
  lemma StaysStranded(q: Queue, hash: Hash, r: Ref)
    requires BlocksAllocated(q) && Stranded(q, r)
    ensures Stranded(Complete(q, hash), r)
  {
    if hash in q.byHash {
      var e, q0 := q.byHash[hash], q.(pending := q.pending - {hash});
      UnblockAllKeepsListed(q0, e, q.heap[e].blocks, r);
      UnblockAllFrame(q0, e, q.heap[e].blocks);
    }
  }

  /** Complete keeps the invariant exactly for hashes that are pending or unknown. */
  lemma CompleteInvIff(q: Queue, hash: Hash)
    requires Inv(q)
    ensures BlocksAllocated(q)
    ensures Inv(Complete(q, hash)) <==> Completable(q, hash)
  {
    InvBlocksAllocated(q);
    if hash !in q.byHash {
      assert hash !in q.pending;
      assert q.pending - {hash} == q.pending;
    } else if q.heap[q.byHash[hash]].status == Pending {
      CompleteTracked(q, hash);
    } else {
      CompleteStrands(q, hash);
      StrandedBreaks(Complete(q, hash), q.byHash[hash]);
    }
  }

  lemma CompleteMaps(q: Queue, hash: Hash)
    requires BlocksAllocated(q)
    ensures Complete(q, hash).byHash == q.byHash - {hash} && Complete(q, hash).pending == q.pending - {hash}
  {
    if hash in q.byHash {
      UnblockAllFrame(q.(pending := q.pending - {hash}), q.byHash[hash], q.heap[q.byHash[hash]].blocks);
    }
  }

  lemma RestatusedCompletable(q: Queue, e: Ref, q': Queue, other: Hash)
    requires Tracked(q) && Live(q, e) && Restatused(q, e, q') && q.heap[e].status == Pending
    requires q'.byHash == q.byHash - {q.heap[e].tx.hash}
    ensures Completable(q', other) <==> Completable(q, other)
  {
    if other in q'.byHash {
      assert Live(q, q.byHash[other]);
    }
  }

  lemma FirstEnqueued(tx: Tx)
    ensures Allocated(Empty) && IterationOrder([], Conflicts(Empty, Participants(tx)))
    ensures Enqueue(Empty, tx, []) == Inserted(Empty, tx, [], [])
  {
    NoSharers(Empty, Participants(tx));
  }

  lemma {:induction false} IndexOne(p: Address, e: Ref)
    ensures IndexUnder(map[], [p], e) == map[p := [e]] && Unindex(map[p := [e]], [p], e) == map[]
  {
    var none: seq<Ref> := [];
    assert [p][..0] == [] && none + [e] == [e];
    assert FirstIndex([e], e) == 0 && [e][0 := e][..0] == none;
    assert map[p := [e]] - {p} == map[];
  }

  /** With no participant filed there is nothing to conflict with. */
  lemma {:induction false} NoSharers(q: Queue, ps: seq<Address>)
    requires Allocated(q) && forall p :: p in ps ==> p !in q.byParticipant
    ensures Conflicts(q, ps) == {} && WaitingSharers(q, ps) == []
  {
    if ps != [] {
      NoSharers(q, ps[..|ps| - 1]);
    }
  }

  /** Two enqueued transactions of one sender, the first completed while still ready: both are then ready, to be
      handed out at once. */
  lemma CompletingReadyBreaksExclusion(p: Address) returns (q1: Queue, q2: Queue, q3: Queue)
    ensures var a := Tx(1, Some(p), None);
            Allocated(Empty) && IterationOrder([], Conflicts(Empty, Participants(a))) && q1 == Enqueue(Empty, a, [])
    ensures BlocksAllocated(q1) && !Completable(q1, 1) && q2 == Complete(q1, 1)
    ensures var b := Tx(2, Some(p), None);
            Allocated(q2) && IterationOrder([], Conflicts(q2, Participants(b))) && q3 == Enqueue(q2, b, [])
    ensures q3.ready == [0, 1] && q3.heap.Keys == {0, 1}
    ensures q3.heap[0].tx.sender == q3.heap[1].tx.sender == Some(p)
  {
    var a, b := Tx(1, Some(p), None), Tx(2, Some(p), None);
    FirstEnqueued(a);
    assert Participants(a) == [p] && Participants(b) == [p];
    IndexOne(p, 0);
    q1 := Enqueue(Empty, a, []);
    assert q1 == Queue(map[0 := Entry(a, Ready, [], [])], 1, [0], [], map[p := [0]], map[1 := 0], map[]);
    q2 := Complete(q1, 1);
    assert q2 == Queue(q1.heap, 1, [0], [], map[], map[], map[]);
    NoSharers(q2, [p]);
    q3 := Enqueue(q2, b, []);
    assert q3 == Inserted(q2, b, [], []);
  }

  /** Completing one hash leaves every other as completable as it was. */
  lemma CompleteKeepsCompletable(q: Queue, hash: Hash, other: Hash)
    requires Inv(q) && BlocksAllocated(q) && Completable(q, hash)
    ensures Completable(Complete(q, hash), other) <==> Completable(q, other)
  {
    if hash in q.byHash {
      CompleteMaps(q, hash);
      CompleteTracked(q, hash);
      RestatusedCompletable(q, q.byHash[hash], Complete(q, hash), other);
    }
  }

  lemma {:induction false} HandleKeepsInv(q: Queue, hashes: seq<Hash>)
    requires Inv(q) && BlocksAllocated(q) && forall h :: h in hashes ==> Completable(q, h)
    ensures Inv(Handle(q, hashes))
    ensures forall h :: Completable(Handle(q, hashes), h) <==> Completable(q, h)
  {
    if hashes != [] {
      var n := |hashes| - 1;
      HandleKeepsInv(q, hashes[..n]);
      var q' := Handle(q, hashes[..n]);
      CompleteInvIff(q', hashes[n]);
      forall h
        ensures Completable(Complete(q', hashes[n]), h) <==> Completable(q, h)
      {
        CompleteKeepsCompletable(q', hashes[n], h);
      }
    }
  }

  /** One hash that is ready or waiting leaves its entry stranded, whatever else the block holds. */
  lemma {:induction false} HandleStrands(q: Queue, hashes: seq<Hash>, bad: Hash) returns (r: Ref)
    requires Inv(q) && BlocksAllocated(q) && bad in hashes && !Completable(q, bad)
    ensures Stranded(Handle(q, hashes), r)
  {
    var n := |hashes| - 1;
    var q' := Handle(q, hashes[..n]);
    if h :| h in hashes[..n] && !Completable(q, h) {
      r := HandleStrands(q, hashes[..n], h);
      StaysStranded(q', hashes[n], r);
    } else {
      HandleKeepsInv(q, hashes[..n]);
      Snoc(hashes);
      assert hashes[n] == bad;
      CompleteStrands(q', bad);
      r := q'.byHash[bad];
    }
  }

  /** A block keeps the invariant if and only if each of its hashes is pending or unknown. */
  lemma {:induction false} HandleInvIff(q: Queue, hashes: seq<Hash>)
    requires Inv(q)
    ensures BlocksAllocated(q)
    ensures Inv(Handle(q, hashes)) <==> forall h :: h in hashes ==> Completable(q, h)
  {
    InvBlocksAllocated(q);
    if h :| h in hashes && !Completable(q, h) {
      var r := HandleStrands(q, hashes, h);
      StrandedBreaks(Handle(q, hashes), r);
    } else {
      HandleKeepsInv(q, hashes);
    }
  }

  /* ---- what the invariant means ---- */

  /** No two distinct ready-or-pending transactions name a common participant. */
  ghost predicate MutuallyExclusive(q: Queue) {
    forall a, b :: Live(q, a) && Live(q, b) && a != b && InFlight(q.heap[a]) && InFlight(q.heap[b]) ==> !Shares(q, a, b)
  }

  lemma InvMutuallyExclusive(q: Queue)
    requires Inv(q)
    ensures MutuallyExclusive(q)
  {
  }

  ghost function MaxRef(s: set<Ref>): (m: Ref)
    requires s != {}
    ensures m in s && forall x :: x in s ==> x <= m
  {
    var x :| x in s;
    if s == {x} then x
    else
      var m := MaxRef(s - {x});
      assert forall y :: y in s ==> y == x || y in s - {x};
      if m < x then x else m
  }

  /** The entry enqueued last among the tracked ones. */
  lemma LatestTracked(q: Queue) returns (top: Ref)
    requires Tracked(q) && q.byHash != map[]
    ensures Live(q, top) && forall r: Ref :: Live(q, r) ==> r <= top
  {
    var live := set h | h in q.byHash :: q.byHash[h];
    var h0 :| h0 in q.byHash;
    assert q.byHash[h0] in live;
    top := MaxRef(live);
    forall r: Ref | Live(q, r) ensures r <= top {
      assert q.byHash[q.heap[r].tx.hash] in live;
    }
  }

  /** A queue that tracks anything has something to hand out or something being worked on. */
  lemma NoDeadlock(q: Queue)
    requires Inv(q) && q.byHash != map[]
    ensures q.ready != [] || q.pending != map[]
  {
    var top := LatestTracked(q);
    if q.heap[top].status == Waiting {
      var blocker := q.heap[top].isBlockedBy[0];
      assert Live(q, blocker);
      SomethingInFlight(q, blocker);
    } else {
      SomethingInFlight(q, top);
    }
  }

  lemma SomethingInFlight(q: Queue, r: Ref)
    requires Shape(q) && Live(q, r) && InFlight(q.heap[r])
    ensures q.ready != [] || q.pending != map[]
  {
    if q.heap[r].status == Ready {
      assert r in q.ready;
    } else {
      assert q.heap[r].tx.hash in q.pending;
    }
  }

  /* ---- runs ---- */

  datatype Step =
    | Enq(tx: Tx, order: seq<Ref>)
    | Deq
    | Done(hash: Hash)
    | Block(hashes: seq<Hash>)

  /** A call its callers may make: Dequeue returns only when something is ready, and only pending
      or unknown hashes are completed. */
  ghost predicate Allowed(q: Queue, s: Step) {
    match s
    case Enq(tx, order) => Allocated(q) && IterationOrder(order, Conflicts(q, Participants(tx)))
    case Deq => q.ready != [] && q.ready[0] in q.heap
    case Done(h) => BlocksAllocated(q) && Completable(q, h)
    case Block(hs) => BlocksAllocated(q) && forall h :: h in hs ==> Completable(q, h)
  }

  ghost function Apply(q: Queue, s: Step): Queue
    requires Allowed(q, s)
  {
    match s
    case Enq(tx, order) => if tx.hash in q.byHash then q else Enqueue(q, tx, order)
    case Deq => Dequeue(q)
    case Done(h) => Complete(q, h)
    case Block(hs) => Handle(q, hs)
  }

  lemma StepInv(q: Queue, s: Step)
    requires Inv(q) && Allowed(q, s)
    ensures Inv(Apply(q, s))
  {
    match s
    case Enq(tx, order) => if tx.hash !in q.byHash { EnqueueInv(q, tx, order); }
    case Deq => DequeueInv(q);
    case Done(h) => CompleteInvIff(q, h);
    case Block(hs) => HandleInvIff(q, hs);
  }

  /** q' is what the calls in steps make of q. */
  ghost predicate Run(q: Queue, steps: seq<Step>, q': Queue)
    decreases |steps|
  {
    if steps == [] then q' == q
    else Allowed(q, steps[0]) && Run(Apply(q, steps[0]), steps[1..], q')
  }

  lemma {:induction false} RunInv(q: Queue, steps: seq<Step>, q': Queue)
    requires Inv(q) && Run(q, steps, q')
    ensures Inv(q')
    decreases |steps|
  {
    if steps != [] {
      StepInv(q, steps[0]);
      RunInv(Apply(q, steps[0]), steps[1..], q');
    }
  }

  /** In every reachable queue no two in-flight transactions share a participant, and it is not stuck. */
  lemma {:induction false} ReachableSafe(steps: seq<Step>, q: Queue)
    requires Run(Empty, steps, q)
    ensures MutuallyExclusive(q)
    ensures q.byHash != map[] ==> q.ready != [] || q.pending != map[]
  {
    RunInv(Empty, steps, q);
    InvMutuallyExclusive(q);
    if q.byHash != map[] {
      NoDeadlock(q);
    }
  }

  /* ---- draining ---- */

  /** Only dequeues and completions of pending transactions. */
  ghost predicate Drains(q: Queue, steps: seq<Step>, q': Queue)
    decreases |steps|
  {
    if steps == [] then q' == q
    else
      && (steps[0] == Deq || (steps[0].Done? && steps[0].hash in q.pending))
      && Allowed(q, steps[0])
      && Drains(Apply(q, steps[0]), steps[1..], q')
  }

  /** The entries handed out, in order. */
  ghost function Dispatched(q: Queue, steps: seq<Step>, q': Queue): seq<Ref>
    requires Drains(q, steps, q')
    decreases |steps|
  {
    if steps == [] then []
    else (if steps[0] == Deq then [q.ready[0]] else []) + Dispatched(Apply(q, steps[0]), steps[1..], q')
  }

  ghost function Unserved(q: Queue): set<Ref> {
    (set r | r in q.ready) + (set r | r in q.waiting)
  }

  ghost function Work(q: Queue): nat {
    2 * |Unserved(q)| + |q.pending|
  }

  lemma DequeueUnserved(q: Queue)
    requires Lists(q) && q.ready != [] && q.ready[0] in q.heap
    ensures Unserved(Dequeue(q)) == Unserved(q) - {q.ready[0]} && q.ready[0] in Unserved(q)
  {
    var e, q' := q.ready[0], Dequeue(q);
    assert q.ready == [e] + q'.ready && e in q.ready;
    assert e !in q.waiting && e !in q'.ready;
    assert forall r :: r in q.ready <==> r == e || r in q'.ready;
  }

  lemma CardinalityLess<T>(s: set<T>, x: T)
    requires x in s
    ensures |s - {x}| == |s| - 1
  {
  }

  lemma CardinalityMore<T>(s: set<T>, x: T)
    ensures |s + {x}| <= |s| + 1
  {
    if x in s {
      assert s + {x} == s;
    }
  }

  lemma ServedWork(q: Queue, q': Queue, e: Ref, h: Hash)
    requires e in Unserved(q) && Unserved(q') == Unserved(q) - {e} && q'.pending.Keys == q.pending.Keys + {h}
    ensures Work(q') < Work(q)
  {
    CardinalityLess(Unserved(q), e);
    CardinalityMore(q.pending.Keys, h);
  }

  lemma DequeueWork(q: Queue)
    requires Lists(q) && q.ready != [] && q.ready[0] in q.heap
    ensures Work(Dequeue(q)) < Work(q)
  {
    DequeueUnserved(q);
    ServedWork(q, Dequeue(q), q.ready[0], q.heap[q.ready[0]].tx.hash);
  }

  lemma RemovedUnserved(q: Queue, e: Ref, q': Queue)
    requires Lists(q) && Lists(q') && Live(q, e) && q.heap[e].status == Pending
    requires Removed(q, e, q') && Restatused(q, e, q')
    ensures Unserved(q') == Unserved(q)
  {
    forall r
      ensures r in Unserved(q') <==> r in Unserved(q)
    {
      assert r in Unserved(q) <==> Live(q, r) && q.heap[r].status != Pending;
      assert r in Unserved(q') <==> Live(q', r) && q'.heap[r].status != Pending;
    }
  }

  lemma RemovedWork(q: Queue, q': Queue, h: Hash)
    requires h in q.pending && q'.pending == q.pending - {h} && Unserved(q') == Unserved(q)
    ensures Work(q') < Work(q)
  {
    CardinalityLess(q.pending.Keys, h);
    assert q'.pending.Keys == q.pending.Keys - {h};
  }

  lemma CompleteWork(q: Queue, h: Hash)
    requires Inv(q) && BlocksAllocated(q) && h in q.pending
    ensures Unserved(Complete(q, h)) == Unserved(q)
    ensures Work(Complete(q, h)) < Work(q)
  {
    CompleteTracked(q, h);
    CompleteMaps(q, h);
    RemovedUnserved(q, q.byHash[h], Complete(q, h));
    RemovedWork(q, Complete(q, h), h);
  }

  lemma DrainStep(q: Queue, s: Step)
    requires Inv(q) && Allowed(q, s) && (s == Deq || (s.Done? && s.hash in q.pending))
    ensures Inv(Apply(q, s)) && Work(Apply(q, s)) < Work(q)
    ensures s != Deq ==> Unserved(Apply(q, s)) == Unserved(q)
    ensures s == Deq ==> q.ready[0] in Unserved(q) && Unserved(Apply(q, s)) == Unserved(q) - {q.ready[0]}
  {
    StepInv(q, s);
    if s == Deq {
      DequeueUnserved(q);
      DequeueWork(q);
    } else {
      CompleteWork(q, s.hash);
    }
  }

  /** From `all`, `served` was handed out once each and `left` remains. */
  ghost predicate Account(all: set<Ref>, served: seq<Ref>, left: set<Ref>) {
    && NoDup(served)
    && (forall r :: r in all <==> r in served || r in left)
    && (forall r :: r in served ==> r !in left)
  }

  lemma AccountStep(all: set<Ref>, head: seq<Ref>, all1: set<Ref>, served: seq<Ref>, left: set<Ref>)
    requires |head| <= 1 && (head == [] ==> all1 == all) && (head != [] ==> head[0] in all && all1 == all - {head[0]})
    requires Account(all1, served, left)
    ensures Account(all, head + served, left)
  {
    if head == [] {
      assert head + served == served;
    } else {
      assert head[0] !in left && head[0] !in served;
    }
  }

  /** However dequeues and completions alternate, nothing is handed out twice and the run is finite. */
  lemma {:induction false} DrainAccount(q: Queue, steps: seq<Step>, q': Queue)
    requires Inv(q) && Drains(q, steps, q')
    ensures Inv(q') && |steps| + Work(q') <= Work(q)
    ensures Account(Unserved(q), Dispatched(q, steps, q'), Unserved(q'))
    decreases |steps|
  {
    if steps != [] {
      var q1 := Apply(q, steps[0]);
      DrainStep(q, steps[0]);
      DrainAccount(q1, steps[1..], q');
      AccountStep(Unserved(q), if steps[0] == Deq then [q.ready[0]] else [], Unserved(q1),
                  Dispatched(q1, steps[1..], q'), Unserved(q'));
    }
  }

  lemma NothingLeft(q: Queue)
    requires Lists(q) && q.byHash == map[]
    ensures Unserved(q) == {}
  {
    forall r ensures r !in Unserved(q) {
      assert !Live(q, r);
    }
  }

  /** With no further Enqueue, dequeuing and completing until neither is possible takes at most Work(q)
      calls, empties the queue and hands out every ready or waiting transaction exactly once. */
  lemma {:induction false} DrainEmpties(q: Queue, steps: seq<Step>, q': Queue)
    requires Inv(q) && Drains(q, steps, q')
    ensures |steps| <= Work(q)
    ensures q'.ready == [] && q'.pending == map[] ==>
              && q'.byHash == map[]
              && NoDup(Dispatched(q, steps, q'))
              && forall r :: r in Dispatched(q, steps, q') <==> r in Unserved(q)
  {
    DrainAccount(q, steps, q');
    if q'.ready == [] && q'.pending == map[] {
      if q'.byHash != map[] { NoDeadlock(q'); }
      NothingLeft(q');
    }
  }
}
