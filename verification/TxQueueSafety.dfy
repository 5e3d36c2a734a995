/** What every step of the transaction queue keeps. */
module TxQueueSafety {
  import opened Prelude
  import opened TxQueueModel

  // From this follows that no two transactions in flight share a participant, that the queue never deadlocks, and
  // that draining it hands out every transaction exactly once.

  /** r is the tracked entry of its own hash. */
  ghost predicate Live(q: Queue, r: Ref) {
    r in q.heap && q.heap[r].tx.hash in q.byHash && q.byHash[q.heap[r].tx.hash] == r
  }

  ghost predicate Shares(q: Queue, a: Ref, b: Ref)
    requires a in q.heap && b in q.heap
  {
    exists p :: p in Participants(q.heap[a].tx) && p in Participants(q.heap[b].tx)
  }

  /* ---- the invariant ---- */

  ghost predicate Tracked(q: Queue) {
    && (forall h :: h in q.byHash ==> q.byHash[h] in q.heap && q.heap[q.byHash[h]].tx.hash == h)
    && (forall r :: r in q.heap ==> r < q.next)
  }

  /** The two lists hold exactly the live entries of their status, each once. */
  ghost predicate Lists(q: Queue) {
    && NoDup(q.ready) && NoDup(q.waiting)
    && (forall r :: r in q.ready <==> Live(q, r) && q.heap[r].status == Ready)
    && (forall r :: r in q.waiting <==> Live(q, r) && q.heap[r].status == Waiting)
  }

  ghost predicate PendingMap(q: Queue)
    requires Tracked(q)
  {
    && (forall h :: h in q.pending <==> h in q.byHash && q.heap[q.byHash[h]].status == Pending)
    && (forall h :: h in q.pending ==> q.pending[h] == q.heap[q.byHash[h]].tx)
  }

  /** A participant's list holds exactly the live entries naming it, each once. */
  ghost predicate Indexed(q: Queue) {
    && (forall p, r :: r in Listed(q, p) <==> Live(q, r) && p in Participants(q.heap[r].tx))
    && (forall p :: NoDup(Listed(q, p)))
    && (forall p :: p in q.byParticipant ==> q.byParticipant[p] != [])
  }

  /** Edges join live entries and are recorded at both ends equally often. */
  ghost predicate Edges(q: Queue) {
    && (forall a, b :: Live(q, a) && Live(q, b) ==> Count(q.heap[a].blocks, b) == Count(q.heap[b].isBlockedBy, a))
    && (forall a, b :: Live(q, a) && b in q.heap[a].blocks ==> Live(q, b))
    && (forall a, b :: Live(q, b) && a in q.heap[b].isBlockedBy ==> Live(q, a))
  }

  /** An entry waits exactly while something blocks it. */
  ghost predicate Blocked(q: Queue) {
    forall r :: Live(q, r) ==> (q.heap[r].status == Waiting <==> q.heap[r].isBlockedBy != [])
  }

  /** Two live entries naming the same participant are joined by an edge. */
  ghost predicate Joined(q: Queue) {
    forall a, b :: Live(q, a) && Live(q, b) && a != b && Shares(q, a, b) ==>
      a in q.heap[b].isBlockedBy || b in q.heap[a].isBlockedBy
  }

  /** Among waiting entries a blocker was enqueued after what it blocks. */
  ghost predicate Ordered(q: Queue) {
    forall a, b ::
      (&& Live(q, a) && Live(q, b) && a in q.heap[b].isBlockedBy
       && q.heap[a].status == Waiting && q.heap[b].status == Waiting) ==> b < a
  }

  ghost predicate Shape(q: Queue) {
    Tracked(q) && Lists(q) && PendingMap(q) && Indexed(q)
  }

  ghost predicate Graph(q: Queue) {
    Edges(q) && Blocked(q) && Joined(q) && Ordered(q)
  }

  ghost predicate Inv(q: Queue) {
    Shape(q) && Graph(q)
  }

  lemma InvAllocated(q: Queue)
    requires Tracked(q) && Indexed(q)
    ensures Allocated(q)
  {
    forall p, r | p in q.byParticipant && r in q.byParticipant[p]
      ensures r in q.heap
    {
      assert Listed(q, p) == q.byParticipant[p];
      assert r in Listed(q, p);
      assert Live(q, r);
    }
  }

  /* ---- Enqueue ---- */

  /** s' is s with k more occurrences of e. */
  ghost predicate Grew(s: seq<Ref>, s': seq<Ref>, e: Ref, k: nat) {
    forall x :: Count(s', x) == Count(s, x) + if x == e then k else 0
  }

  lemma GrewAppend(s: seq<Ref>, s': seq<Ref>, e: Ref, k: nat)
    requires Grew(s, s', e, k)
    ensures Grew(s, s' + [e], e, k + 1)
  {
    forall x ensures Count(s' + [e], x) == Count(s, x) + if x == e then k + 1 else 0 {
      CountConcat(s', [e], x);
    }
  }

  lemma {:induction false} AddBlocksAt(heap: map<Ref, Entry>, ts: seq<Ref>, e: Ref, r: Ref)
    requires (forall t :: t in ts ==> t in heap) && r in heap
    ensures var x, y := heap[r], AddBlocks(heap, ts, e)[r];
            && y.tx == x.tx && y.status == x.status && y.isBlockedBy == x.isBlockedBy
            && Grew(x.blocks, y.blocks, e, Count(ts, r))
  {
    if ts != [] {
      var n := |ts| - 1;
      AddBlocksAt(heap, ts[..n], e, r);
      assert ts == ts[..n] + [ts[n]];
      CountConcat(ts[..n], [ts[n]], r);
      var h := AddBlocks(heap, ts[..n], e);
      GrewAppend(heap[r].blocks, h[r].blocks, e, Count(ts[..n], r));
    }
  }

  lemma {:induction false} AddBlockedByAt(heap: map<Ref, Entry>, ts: seq<Ref>, e: Ref, r: Ref)
    requires (forall t :: t in ts ==> t in heap) && r in heap
    ensures var x, y := heap[r], AddBlockedBy(heap, ts, e)[r];
            && y.tx == x.tx && y.status == x.status && y.blocks == x.blocks
            && Grew(x.isBlockedBy, y.isBlockedBy, e, Count(ts, r))
  {
    if ts != [] {
      var n := |ts| - 1;
      AddBlockedByAt(heap, ts[..n], e, r);
      assert ts == ts[..n] + [ts[n]];
      CountConcat(ts[..n], [ts[n]], r);
      var h := AddBlockedBy(heap, ts[..n], e);
      GrewAppend(heap[r].isBlockedBy, h[r].isBlockedBy, e, Count(ts[..n], r));
    }
  }

  lemma {:induction false} IndexUnderAt(m: map<Address, seq<Ref>>, ps: seq<Address>, e: Ref, p: Address)
    requires NoDup(ps)
    ensures var m' := IndexUnder(m, ps, e);
            && (p in m' <==> p in m || p in ps)
            && (p in m' ==> m'[p] == (if p in m then m[p] else []) + if p in ps then [e] else [])
  {
    if ps != [] {
      var n := |ps| - 1;
      IndexUnderAt(m, ps[..n], e, p);
      assert ps == ps[..n] + [ps[n]];
    }
  }

  lemma {:induction false} SharersMembers(q: Queue, ps: seq<Address>)
    requires Allocated(q)
    ensures forall r :: r in WaitingSharers(q, ps) <==>
              exists p :: p in ps && r in Listed(q, p) && q.heap[r].status == Waiting
    ensures forall r :: r in Conflicts(q, ps) <==>
              exists p :: p in ps && r in Listed(q, p) && InFlight(q.heap[r])
  {
    if ps != [] {
      var n := |ps| - 1;
      SharersMembers(q, ps[..n]);
      WaitingOfMembers(q.heap, Listed(q, ps[n]));
      assert ps == ps[..n] + [ps[n]];
    }
  }

  /** How Enqueue relinks the entries that were there before. */
  ghost predicate Relinked(h: map<Ref, Entry>, e: Ref, order: seq<Ref>, sharers: seq<Ref>, h': map<Ref, Entry>) {
    forall r :: r in h ==>
        && r in h'
        && Grew(h[r].blocks, h'[r].blocks, e, Count(order, r))
        && Grew(h[r].isBlockedBy, h'[r].isBlockedBy, e, Count(sharers, r))
  }

  ghost predicate SameTxs(h: map<Ref, Entry>, h': map<Ref, Entry>) {
    forall r :: r in h ==> r in h' && h'[r].tx == h[r].tx && h'[r].status == h[r].status
  }

  lemma {:induction false} Relink(h: map<Ref, Entry>, e: Ref, order: seq<Ref>, sharers: seq<Ref>)
    requires forall r :: r in order ==> r in h
    requires forall r :: r in sharers ==> r in h
    ensures Relinked(h, e, order, sharers, AddBlockedBy(AddBlocks(h, order, e), sharers, e))
    ensures SameTxs(h, AddBlockedBy(AddBlocks(h, order, e), sharers, e))
  {
    var h1 := AddBlocks(h, order, e);
    forall r | r in h
      ensures var x, y := h[r], AddBlockedBy(h1, sharers, e)[r];
              && y.tx == x.tx && y.status == x.status
              && Grew(x.blocks, y.blocks, e, Count(order, r))
              && Grew(x.isBlockedBy, y.isBlockedBy, e, Count(sharers, r))
    {
      AddBlocksAt(h, order, e, r);
      AddBlockedByAt(h1, sharers, e, r);
    }
  }

  ghost predicate Names(tx: Tx, other: Tx) {
    exists p :: p in Participants(tx) && p in Participants(other)
  }

  /** The new entry waits for the live in-flight sharers and is waited for by the live waiting ones. */
  ghost predicate Selected(q: Queue, tx: Tx, order: seq<Ref>, sharers: seq<Ref>) {
    && NoDup(order)
    && (forall r :: r in order <==> Live(q, r) && InFlight(q.heap[r]) && Names(tx, q.heap[r].tx))
    && (forall r :: r in sharers <==> Live(q, r) && q.heap[r].status == Waiting && Names(tx, q.heap[r].tx))
  }

  lemma {:induction false} Select(q: Queue, tx: Tx, order: seq<Ref>)
    requires Indexed(q) && Allocated(q)
    requires IterationOrder(order, Conflicts(q, Participants(tx)))
    ensures Selected(q, tx, order, WaitingSharers(q, Participants(tx)))
  {
    var ps := Participants(tx);
    SharersMembers(q, ps);
    forall r | Live(q, r) && Names(tx, q.heap[r].tx)
      ensures exists p :: p in ps && r in Listed(q, p)
    {
      var p :| p in Participants(tx) && p in Participants(q.heap[r].tx);
      assert r in Listed(q, p);
    }
    forall p, r | p in ps && r in Listed(q, p)
      ensures Live(q, r) && Names(tx, q.heap[r].tx)
    {
    }
  }

  /** The new entry is tracked under its hash, next to the old ones. */
  ghost predicate Placed(q: Queue, tx: Tx, order: seq<Ref>, sharers: seq<Ref>, q': Queue) {
    && tx.hash !in q.byHash && q.next !in q.heap
    && q'.heap.Keys == q.heap.Keys + {q.next}
    && q'.heap[q.next] == Entry(tx, if order == [] then Ready else Waiting, sharers, order)
    && SameTxs(q.heap, q'.heap)
    && q'.byHash == q.byHash[tx.hash := q.next]
    && q'.next == q.next + 1
  }

  lemma RelinkedExtends(h: map<Ref, Entry>, e: Ref, order: seq<Ref>, sharers: seq<Ref>, h1: map<Ref, Entry>,
                        entry: Entry)
    requires e !in h && Relinked(h, e, order, sharers, h1) && SameTxs(h, h1)
    ensures Relinked(h, e, order, sharers, h1[e := entry]) && SameTxs(h, h1[e := entry])
  {
    assert forall r :: r in h ==> h1[e := entry][r] == h1[r];
  }

  lemma InsertedEffect(q: Queue, tx: Tx, order: seq<Ref>, sharers: seq<Ref>)
    requires Tracked(q) && tx.hash !in q.byHash
    requires (forall r :: r in order ==> r in q.heap) && forall r :: r in sharers ==> r in q.heap
    ensures Placed(q, tx, order, sharers, Inserted(q, tx, order, sharers))
    ensures Relinked(q.heap, q.next, order, sharers, Inserted(q, tx, order, sharers).heap)
  {
    var h := AddBlockedBy(AddBlocks(q.heap, order, q.next), sharers, q.next);
    Relink(q.heap, q.next, order, sharers);
    RelinkedExtends(q.heap, q.next, order, sharers, h,
                    Entry(tx, if order == [] then Ready else Waiting, sharers, order));
  }

  lemma {:induction false} EnqueueEffect(q: Queue, tx: Tx, order: seq<Ref>)
    requires Tracked(q) && Allocated(q) && tx.hash !in q.byHash
    requires IterationOrder(order, Conflicts(q, Participants(tx)))
    ensures var sharers, q' := WaitingSharers(q, Participants(tx)), Enqueue(q, tx, order);
            Placed(q, tx, order, sharers, q') && Relinked(q.heap, q.next, order, sharers, q'.heap)
  {
    SharersAllocated(q, Participants(tx));
    InsertedEffect(q, tx, order, WaitingSharers(q, Participants(tx)));
  }

  /** Old entries stay as live as they were, and the new one is live. */
  lemma EnqueueLive(q: Queue, tx: Tx, order: seq<Ref>, sharers: seq<Ref>, q': Queue)
    requires Tracked(q) && Placed(q, tx, order, sharers, q')
    ensures Tracked(q') && Live(q', q.next)
    ensures forall r :: Live(q', r) <==> r == q.next || Live(q, r)
  {
  }

  lemma EnqueueLists(q: Queue, tx: Tx, order: seq<Ref>, sharers: seq<Ref>, q': Queue)
    requires Tracked(q) && Lists(q) && Placed(q, tx, order, sharers, q')
    requires q'.ready == (if order == [] then q.ready + [q.next] else q.ready)
    requires q'.waiting == (if order == [] then q.waiting else q.waiting + [q.next])
    ensures Lists(q')
  {
    EnqueueLive(q, tx, order, sharers, q');
    assert q.next !in q.ready && q.next !in q.waiting;
  }

  lemma EnqueuePendingMap(q: Queue, tx: Tx, order: seq<Ref>, sharers: seq<Ref>, q': Queue)
    requires Tracked(q) && Tracked(q') && PendingMap(q) && Placed(q, tx, order, sharers, q') && q'.pending == q.pending
    ensures PendingMap(q')
  {
  }

  /** The new entry goes to the end of the list of each participant it names. */
  ghost predicate Filed(q: Queue, tx: Tx, q': Queue) {
    && (forall p :: Listed(q', p) == Listed(q, p) + if p in Participants(tx) then [q.next] else [])
    && (forall p :: p in q'.byParticipant ==> q'.byParticipant[p] != [])
  }

  lemma IndexUnderFiles(q: Queue, tx: Tx, q': Queue)
    requires Indexed(q) && q'.byParticipant == IndexUnder(q.byParticipant, Participants(tx), q.next)
    ensures Filed(q, tx, q')
  {
    ParticipantsOnce(tx);
    forall p
      ensures Listed(q', p) == Listed(q, p) + if p in Participants(tx) then [q.next] else []
      ensures p in q'.byParticipant ==> q'.byParticipant[p] != []
    {
      IndexUnderAt(q.byParticipant, Participants(tx), q.next, p);
    }
  }

  lemma {:induction false} EnqueueFiled(q: Queue, tx: Tx, order: seq<Ref>)
    requires Indexed(q) && Allocated(q)
    requires IterationOrder(order, Conflicts(q, Participants(tx)))
    ensures Filed(q, tx, Enqueue(q, tx, order))
  {
    IndexUnderFiles(q, tx, Enqueue(q, tx, order));
  }

  lemma FiledOnce(q: Queue, tx: Tx, q': Queue, p: Address)
    requires Indexed(q) && q.next !in q.heap && Filed(q, tx, q')
    ensures NoDup(Listed(q', p))
  {
    assert !Live(q, q.next);
    assert q.next !in Listed(q, p);
  }

  lemma EnqueueIndexed(q: Queue, tx: Tx, order: seq<Ref>, sharers: seq<Ref>, q': Queue)
    requires Tracked(q) && Indexed(q) && Placed(q, tx, order, sharers, q') && Filed(q, tx, q')
    ensures Indexed(q')
  {
    EnqueueLive(q, tx, order, sharers, q');
    forall p { FiledOnce(q, tx, q', p); }
    forall p, r
      ensures r in Listed(q', p) <==> Live(q', r) && p in Participants(q'.heap[r].tx)
    {
      assert r in Listed(q', p) <==> r in Listed(q, p) || (r == q.next && p in Participants(tx));
      assert r in Listed(q, p) <==> Live(q, r) && p in Participants(q.heap[r].tx);
      assert Live(q', r) ==> q'.heap[r].tx == if r == q.next then tx else q.heap[r].tx;
    }
  }

  lemma {:induction false} EnqueueEdgeCounts(q: Queue, tx: Tx, order: seq<Ref>, sharers: seq<Ref>, q': Queue, a: Ref,
                                             b: Ref)
    requires Tracked(q) && Edges(q) && Placed(q, tx, order, sharers, q')
    requires Relinked(q.heap, q.next, order, sharers, q'.heap)
    requires q.next !in order && q.next !in sharers
    requires (a == q.next || Live(q, a)) && (b == q.next || Live(q, b))
    ensures Count(q'.heap[a].blocks, b) == Count(q'.heap[b].isBlockedBy, a)
  {
    var e := q.next;
    assert !Live(q, e);
    if a != e && b != e {
      assert Count(q.heap[a].blocks, b) == Count(q.heap[b].isBlockedBy, a);
    } else if a != e {
      assert e !in q.heap[a].blocks;
    } else if b != e {
      assert e !in q.heap[b].isBlockedBy;
    }
  }

  lemma EnqueueEdges(q: Queue, tx: Tx, order: seq<Ref>, sharers: seq<Ref>, q': Queue)
    requires Tracked(q) && Edges(q) && Placed(q, tx, order, sharers, q')
    requires Relinked(q.heap, q.next, order, sharers, q'.heap)
    requires forall r :: r in order || r in sharers ==> Live(q, r)
    ensures Edges(q')
  {
    EnqueueLive(q, tx, order, sharers, q');
    assert !Live(q, q.next);
    forall a, b | Live(q', a) && Live(q', b)
      ensures Count(q'.heap[a].blocks, b) == Count(q'.heap[b].isBlockedBy, a)
    {
      EnqueueEdgeCounts(q, tx, order, sharers, q', a, b);
    }
    forall a, b | Live(q', a) && b in q'.heap[a].blocks
      ensures Live(q', b)
    {
      if a != q.next {
        assert Count(q'.heap[a].blocks, b) == Count(q.heap[a].blocks, b) + if b == q.next then Count(order, a) else 0;
      }
    }
    forall a, b | Live(q', b) && a in q'.heap[b].isBlockedBy
      ensures Live(q', a)
    {
      if b != q.next {
        assert Count(q'.heap[b].isBlockedBy, a)
               == Count(q.heap[b].isBlockedBy, a) + if a == q.next then Count(sharers, b) else 0;
      }
    }
  }

  /** Blockers after Enqueue: the old ones, plus the new entry where it was met. */
  ghost predicate Blockers(q: Queue, sharers: seq<Ref>, q': Queue) {
    forall b :: Live(q, b) ==>
      && b in q'.heap
      && forall a :: a in q'.heap[b].isBlockedBy <==> a in q.heap[b].isBlockedBy || (a == q.next && b in sharers)
  }

  lemma EnqueueBlockers(q: Queue, order: seq<Ref>, sharers: seq<Ref>, q': Queue)
    requires Relinked(q.heap, q.next, order, sharers, q'.heap)
    ensures Blockers(q, sharers, q')
  {
    forall a, b | Live(q, b)
      ensures a in q'.heap[b].isBlockedBy <==> a in q.heap[b].isBlockedBy || (a == q.next && b in sharers)
    {
      assert Count(q'.heap[b].isBlockedBy, a)
             == Count(q.heap[b].isBlockedBy, a) + if a == q.next then Count(sharers, b) else 0;
    }
  }

  lemma EnqueueBlocked(q: Queue, tx: Tx, order: seq<Ref>, sharers: seq<Ref>, q': Queue)
    requires Tracked(q) && Blocked(q) && Placed(q, tx, order, sharers, q')
    requires Blockers(q, sharers, q') && Selected(q, tx, order, sharers)
    ensures Blocked(q')
  {
    EnqueueLive(q, tx, order, sharers, q');
    forall r | Live(q', r) && r != q.next
      ensures q'.heap[r].status == Waiting <==> q'.heap[r].isBlockedBy != []
    {
      if q'.heap[r].isBlockedBy != [] {
        assert q'.heap[r].isBlockedBy[0] in q'.heap[r].isBlockedBy;
      }
      if q.heap[r].isBlockedBy != [] {
        assert q.heap[r].isBlockedBy[0] in q'.heap[r].isBlockedBy;
      }
    }
  }

  lemma EnqueueJoined(q: Queue, tx: Tx, order: seq<Ref>, sharers: seq<Ref>, q': Queue)
    requires Tracked(q) && Joined(q) && Placed(q, tx, order, sharers, q')
    requires Blockers(q, sharers, q') && Selected(q, tx, order, sharers)
    ensures Joined(q')
  {
    EnqueueLive(q, tx, order, sharers, q');
    forall a, b | Live(q', a) && Live(q', b) && a != b && Shares(q', a, b)
      ensures a in q'.heap[b].isBlockedBy || b in q'.heap[a].isBlockedBy
    {
      if a != q.next && b != q.next {
        assert Shares(q, a, b);
      } else {
        var o := if a == q.next then b else a;
        assert Names(tx, q.heap[o].tx);
        assert o in order || o in sharers;
      }
    }
  }

  /** An edge between waiting entries after Enqueue was there before, or comes from the new entry. */
  lemma EnqueueWaits(q: Queue, tx: Tx, order: seq<Ref>, sharers: seq<Ref>, q': Queue, a: Ref, b: Ref)
    requires Placed(q, tx, order, sharers, q') && Blockers(q, sharers, q') && Selected(q, tx, order, sharers)
    requires b == q.next || Live(q, b)
    requires a in q'.heap && q'.heap[a].status == Waiting && b in q'.heap && a in q'.heap[b].isBlockedBy
    ensures b != q.next && (a == q.next || a in q.heap[b].isBlockedBy)
  {
    forall r | r in order
      ensures r in q'.heap && q'.heap[r].status != Waiting
    {
      assert Live(q, r) && InFlight(q.heap[r]);
    }
  }

  lemma EnqueueOrdered(q: Queue, tx: Tx, order: seq<Ref>, sharers: seq<Ref>, q': Queue)
    requires Tracked(q) && Ordered(q) && Placed(q, tx, order, sharers, q')
    requires Blockers(q, sharers, q') && Selected(q, tx, order, sharers)
    ensures Ordered(q')
  {
    EnqueueLive(q, tx, order, sharers, q');
    forall a, b | Live(q', a) && Live(q', b) && a in q'.heap[b].isBlockedBy
                  && q'.heap[a].status == Waiting && q'.heap[b].status == Waiting
      ensures b < a
    {
      EnqueueWaits(q, tx, order, sharers, q', a, b);
    }
  }

  lemma EnqueueGraph(q: Queue, tx: Tx, order: seq<Ref>, sharers: seq<Ref>, q': Queue)
    requires Tracked(q) && Graph(q) && Placed(q, tx, order, sharers, q')
    requires Relinked(q.heap, q.next, order, sharers, q'.heap) && Selected(q, tx, order, sharers)
    ensures Graph(q')
  {
    EnqueueEdges(q, tx, order, sharers, q');
    EnqueueBlockers(q, order, sharers, q');
    EnqueueBlocked(q, tx, order, sharers, q');
    EnqueueJoined(q, tx, order, sharers, q');
    EnqueueOrdered(q, tx, order, sharers, q');
  }

  lemma EnqueueShape(q: Queue, tx: Tx, order: seq<Ref>, sharers: seq<Ref>, q': Queue)
    requires Shape(q) && Placed(q, tx, order, sharers, q')
    requires q'.ready == (if order == [] then q.ready + [q.next] else q.ready)
    requires q'.waiting == (if order == [] then q.waiting else q.waiting + [q.next])
    requires q'.pending == q.pending && Filed(q, tx, q')
    ensures Shape(q')
  {
    EnqueueLive(q, tx, order, sharers, q');
    EnqueueLists(q, tx, order, sharers, q');
    EnqueuePendingMap(q, tx, order, sharers, q');
    EnqueueIndexed(q, tx, order, sharers, q');
  }

  lemma {:induction false} EnqueueKeepsShape(q: Queue, tx: Tx, order: seq<Ref>)
    requires Shape(q) && Allocated(q) && tx.hash !in q.byHash
    requires IterationOrder(order, Conflicts(q, Participants(tx)))
    ensures Shape(Enqueue(q, tx, order))
  {
    EnqueueEffect(q, tx, order);
    EnqueueFiled(q, tx, order);
    EnqueueShape(q, tx, order, WaitingSharers(q, Participants(tx)), Enqueue(q, tx, order));
  }

  lemma {:induction false} EnqueueKeepsGraph(q: Queue, tx: Tx, order: seq<Ref>)
    requires Inv(q) && Allocated(q) && tx.hash !in q.byHash
    requires IterationOrder(order, Conflicts(q, Participants(tx)))
    ensures Graph(Enqueue(q, tx, order))
  {
    EnqueueEffect(q, tx, order);
    Select(q, tx, order);
    EnqueueGraph(q, tx, order, WaitingSharers(q, Participants(tx)), Enqueue(q, tx, order));
  }

  lemma {:induction false} EnqueueInv(q: Queue, tx: Tx, order: seq<Ref>)
    requires Inv(q) && Allocated(q) && tx.hash !in q.byHash
    requires IterationOrder(order, Conflicts(q, Participants(tx)))
    ensures Inv(Enqueue(q, tx, order))
  {
    EnqueueKeepsShape(q, tx, order);
    EnqueueKeepsGraph(q, tx, order);
  }

  /* ---- Dequeue ---- */

  /** Same live entries, same edges, same waiting ones. */
  ghost predicate SameGraph(q: Queue, q': Queue) {
    forall r ::
      && (Live(q', r) <==> Live(q, r))
      && (Live(q, r) ==>
            && q'.heap[r].tx == q.heap[r].tx && q'.heap[r].blocks == q.heap[r].blocks
            && q'.heap[r].isBlockedBy == q.heap[r].isBlockedBy
            && (q'.heap[r].status == Waiting <==> q.heap[r].status == Waiting))
  }

  lemma SameGraphKeeps(q: Queue, q': Queue)
    requires Graph(q) && SameGraph(q, q')
    ensures Graph(q')
  {
    forall a, b | Live(q', a) && Live(q', b) && a != b && Shares(q', a, b)
      ensures a in q'.heap[b].isBlockedBy || b in q'.heap[a].isBlockedBy
    {
      assert Live(q, a) && Live(q, b) && Shares(q, a, b);
    }
  }

  lemma DequeueLists(q: Queue)
    requires Tracked(q) && Lists(q) && q.ready != [] && Live(q, q.ready[0])
    ensures Tracked(Dequeue(q)) && Lists(Dequeue(q)) && SameGraph(q, Dequeue(q))
  {
    var e, q' := q.ready[0], Dequeue(q);
    assert q.ready == [e] + q'.ready;
    assert e in q.ready;
    assert forall r :: r in q'.ready <==> r in q.ready && r != e;
    assert forall r :: Live(q', r) <==> Live(q, r);
  }

  lemma DequeuePendingMap(q: Queue)
    requires Tracked(q) && PendingMap(q) && q.ready != [] && Live(q, q.ready[0])
    requires Tracked(Dequeue(q))
    ensures PendingMap(Dequeue(q))
  {
    var e, q' := q.ready[0], Dequeue(q);
    assert forall h :: h in q.byHash && h != q.heap[e].tx.hash ==> q.byHash[h] != e;
  }

  lemma DequeueShape(q: Queue)
    requires Shape(q) && q.ready != [] && Live(q, q.ready[0])
    ensures Shape(Dequeue(q))
  {
    DequeueLists(q);
    DequeuePendingMap(q);
    assert forall p :: Listed(Dequeue(q), p) == Listed(q, p);
  }

  lemma DequeueGraph(q: Queue)
    requires Tracked(q) && Lists(q) && Graph(q) && q.ready != [] && Live(q, q.ready[0])
    ensures Graph(Dequeue(q))
  {
    DequeueLists(q);
    SameGraphKeeps(q, Dequeue(q));
  }

  lemma DequeueInv(q: Queue)
    requires Inv(q) && q.ready != []
    ensures q.ready[0] in q.heap && Inv(Dequeue(q))
  {
    assert q.ready[0] in q.ready;
    DequeueShape(q);
    DequeueGraph(q);
  }

  /* ---- Complete ---- */

  /** Part way through completing e, with `gone` already walked: each met entry lost that many e's. */
  ghost predicate Unblocking(q: Queue, e: Ref, gone: seq<Ref>, q': Queue) {
    && SameFrame(q, q')
    && (forall r, x :: r in q.heap ==>
          Count(q'.heap[r].isBlockedBy, x) == Count(q.heap[r].isBlockedBy, x) - if x == e then Count(gone, r) else 0)
  }

  /** An entry left without blockers has become ready. */
  ghost predicate Promoted(q: Queue, q': Queue) {
    && q'.heap.Keys == q.heap.Keys
    && forall r :: Live(q, r) ==>
        q'.heap[r].status ==
        if q.heap[r].status == Waiting && q'.heap[r].isBlockedBy == [] then Ready else q.heap[r].status
  }

  lemma UnblockStep(q: Queue, e: Ref, gone: seq<Ref>, q': Queue, t: Ref)
    requires Unblocking(q, e, gone, q') && t in q.heap && e in q'.heap[t].isBlockedBy
    ensures Unblocking(q, e, gone + [t], Unblock(q', e, t))
  {
    var left := RemoveFromSlice(q'.heap[t].isBlockedBy, e);
    ReblockedFrame(q', t, left);
    forall r, x | r in q.heap
      ensures Count(Reblocked(q', t, left).heap[r].isBlockedBy, x)
           == Count(q.heap[r].isBlockedBy, x) - if x == e then Count(gone + [t], r) else 0
    {
      RemoveFromSliceCounts(q'.heap[t].isBlockedBy, e, x);
      CountConcat(gone, [t], r);
    }
  }

  lemma ReblockedLists(q: Queue, t: Ref, left: seq<Ref>)
    requires Lists(q) && Live(q, t) && q.heap[t].status == Waiting
    ensures Lists(Reblocked(q, t, left))
  {
    var q' := Reblocked(q, t, left);
    assert t in q.waiting && t !in q.ready;
    assert forall r :: Live(q', r) <==> Live(q, r);
  }

  lemma ReblockedPromotes(q: Queue, q': Queue, t: Ref, left: seq<Ref>)
    requires SameFrame(q, q') && Promoted(q, q') && Lists(q') && Live(q, t)
    requires q.heap[t].status == Waiting && q'.heap[t].isBlockedBy != []
    ensures Promoted(q, Reblocked(q', t, left)) && Lists(Reblocked(q', t, left))
  {
    assert Live(q', t) && q'.heap[t].status == Waiting;
    ReblockedLists(q', t, left);
  }

  /** Completing e walks its blocks list; every met entry loses e and is promoted when free. */
  lemma {:induction false} UnblockAllEffect(q: Queue, e: Ref, ts: seq<Ref>)
    requires Lists(q) && Blocked(q)
    requires forall t :: t in ts ==> Live(q, t) && q.heap[t].status == Waiting
    requires forall t :: t in ts ==> Count(ts, t) <= Count(q.heap[t].isBlockedBy, e)
    ensures Unblocking(q, e, ts, UnblockAll(q, e, ts))
    ensures Promoted(q, UnblockAll(q, e, ts)) && Lists(UnblockAll(q, e, ts))
  {
    if ts == [] {
    } else {
      var n := |ts| - 1;
      var t, before := ts[n], ts[..n];
      assert ts == before + [t] && t in ts;
      forall r { CountConcat(before, [t], r); }
      UnblockAllEffect(q, e, before);
      var q' := UnblockAll(q, e, before);
      assert Count(q'.heap[t].isBlockedBy, e) > 0;
      UnblockStep(q, e, before, q', t);
      ReblockedPromotes(q, q', t, RemoveFromSlice(q'.heap[t].isBlockedBy, e));
    }
  }

  lemma RemoveNoDup(s: seq<Ref>, x: Ref)
    requires NoDup(s)
    ensures NoDup(RemoveFromSlice(s, x))
    ensures forall y :: y in RemoveFromSlice(s, x) <==> y in s && y != x
  {
    forall y
      ensures y in RemoveFromSlice(s, x) <==> y in s && y != x
    {
      RemoveFromSliceCounts(s, x, y);
      if x in s { CountNoDup(s, x); }
    }
  }

  lemma {:induction false} UnindexAt(m: map<Address, seq<Ref>>, ps: seq<Address>, e: Ref, p: Address)
    requires NoDup(ps)
    ensures var m' := Unindex(m, ps, e);
            && (p in m' <==> p in m && (p in ps ==> RemoveFromSlice(m[p], e) != []))
            && (p in m' ==> m'[p] == if p in ps then RemoveFromSlice(m[p], e) else m[p])
  {
    if ps != [] {
      var n := |ps| - 1;
      UnindexAt(m, ps[..n], e, p);
      assert ps == ps[..n] + [ps[n]];
    }
  }

  /** e was pending: it is gone, and the others are as live as before. */
  ghost predicate Removed(q: Queue, e: Ref, q': Queue) {
    && (forall r :: Live(q', r) <==> Live(q, r) && r != e)
    && (forall r :: Live(q', r) ==> q'.heap[r].tx == q.heap[r].tx && q'.heap[r].blocks == q.heap[r].blocks)
  }

  /** One participant's list afterwards. */
  lemma {:induction false} UnindexListed(q: Queue, e: Ref, q': Queue, p: Address)
    requires Indexed(q) && Live(q, e)
    requires q'.byParticipant == Unindex(q.byParticipant, Participants(q.heap[e].tx), e)
    ensures NoDup(Listed(q', p)) && (p in q'.byParticipant ==> q'.byParticipant[p] != [])
    ensures forall r :: r in Listed(q', p) <==> r in Listed(q, p) && r != e
  {
    var ps := Participants(q.heap[e].tx);
    ParticipantsOnce(q.heap[e].tx);
    UnindexAt(q.byParticipant, ps, e, p);
    RemoveNoDup(Listed(q, p), e);
    assert e in Listed(q, p) <==> p in ps;
  }

  lemma {:induction false} UnindexIndexed(q: Queue, e: Ref, q': Queue)
    requires Indexed(q) && Live(q, e) && Removed(q, e, q')
    requires q'.byParticipant == Unindex(q.byParticipant, Participants(q.heap[e].tx), e)
    ensures Indexed(q')
  {
    forall p
      ensures NoDup(Listed(q', p)) && (p in q'.byParticipant ==> q'.byParticipant[p] != [])
      ensures forall r :: r in Listed(q', p) <==> r in Listed(q, p) && r != e
    {
      UnindexListed(q, e, q', p);
    }
    forall p, r
      ensures r in Listed(q', p) <==> Live(q', r) && p in Participants(q'.heap[r].tx)
    {
      assert r in Listed(q, p) <==> Live(q, r) && p in Participants(q.heap[r].tx);
    }
  }

  /** Without e, the blockers of every other entry are what they were, less e. */
  ghost predicate Freed(q: Queue, e: Ref, q': Queue) {
    forall r, x :: Live(q, r) && r != e ==>
      && r in q'.heap
      && Count(q'.heap[r].isBlockedBy, x) == if x == e then 0 else Count(q.heap[r].isBlockedBy, x)
  }

  ghost predicate Restatused(q: Queue, e: Ref, q': Queue) {
    forall r :: Live(q, r) && r != e ==>
      && r in q'.heap
      && q'.heap[r].status ==
         if q.heap[r].status == Waiting && q'.heap[r].isBlockedBy == [] then Ready else q.heap[r].status
  }

  lemma RemovedEdges(q: Queue, e: Ref, q': Queue)
    requires Edges(q) && Live(q, e) && q.heap[e].isBlockedBy == []
    requires Removed(q, e, q') && Freed(q, e, q')
    ensures Edges(q')
  {
    forall a, b | Live(q', a) && Live(q', b)
      ensures Count(q'.heap[a].blocks, b) == Count(q'.heap[b].isBlockedBy, a)
    {
      assert Count(q.heap[a].blocks, b) == Count(q.heap[b].isBlockedBy, a);
    }
    forall a, b | Live(q', a) && b in q'.heap[a].blocks
      ensures Live(q', b)
    {
      assert Live(q, b);
      assert Count(q.heap[a].blocks, b) == Count(q.heap[b].isBlockedBy, a);
    }
    forall a, b | Live(q', b) && a in q'.heap[b].isBlockedBy
      ensures Live(q', a)
    {
      assert Count(q'.heap[b].isBlockedBy, a) > 0;
    }
  }

  lemma RemovedBlocked(q: Queue, e: Ref, q': Queue)
    requires Blocked(q) && Removed(q, e, q') && Freed(q, e, q') && Restatused(q, e, q')
    ensures Blocked(q')
  {
    forall r | Live(q', r)
      ensures q'.heap[r].status == Waiting <==> q'.heap[r].isBlockedBy != []
    {
      if q'.heap[r].isBlockedBy != [] {
        var x := q'.heap[r].isBlockedBy[0];
        assert Count(q'.heap[r].isBlockedBy, x) > 0;
        assert Count(q.heap[r].isBlockedBy, x) > 0;
      }
    }
  }

  lemma RemovedJoined(q: Queue, e: Ref, q': Queue)
    requires Joined(q) && Removed(q, e, q') && Freed(q, e, q')
    ensures Joined(q')
  {
    forall a, b | Live(q', a) && Live(q', b) && a != b && Shares(q', a, b)
      ensures a in q'.heap[b].isBlockedBy || b in q'.heap[a].isBlockedBy
    {
      assert Shares(q, a, b);
      assert Count(q'.heap[b].isBlockedBy, a) == Count(q.heap[b].isBlockedBy, a);
      assert Count(q'.heap[a].isBlockedBy, b) == Count(q.heap[a].isBlockedBy, b);
    }
  }

  lemma RemovedOrdered(q: Queue, e: Ref, q': Queue)
    requires Ordered(q) && Removed(q, e, q') && Freed(q, e, q') && Restatused(q, e, q')
    ensures Ordered(q')
  {
    forall a, b | Live(q', a) && Live(q', b) && a in q'.heap[b].isBlockedBy
                  && q'.heap[a].status == Waiting && q'.heap[b].status == Waiting
      ensures b < a
    {
      assert Count(q'.heap[b].isBlockedBy, a) == Count(q.heap[b].isBlockedBy, a);
    }
  }

  lemma RemovedGraph(q: Queue, e: Ref, q': Queue)
    requires Graph(q) && Live(q, e) && q.heap[e].isBlockedBy == []
    requires Removed(q, e, q') && Freed(q, e, q') && Restatused(q, e, q')
    ensures Graph(q')
  {
    RemovedEdges(q, e, q');
    RemovedBlocked(q, e, q');
    RemovedJoined(q, e, q');
    RemovedOrdered(q, e, q');
  }

  /** q'' is q' without e's hash and list entries; q' let go of e's dependents. */
  ghost predicate Untracked(q: Queue, e: Ref, q': Queue, q'': Queue) {
    && Live(q, e)
    && SameFrame(q.(pending := q.pending - {q.heap[e].tx.hash}), q')
    && q'' == q'.(byHash := q'.byHash - {q.heap[e].tx.hash}, byParticipant := q''.byParticipant)
  }

  lemma UntrackRemoves(q: Queue, e: Ref, q': Queue, q'': Queue)
    requires Tracked(q) && Untracked(q, e, q', q'')
    ensures Tracked(q'') && Removed(q, e, q'')
    ensures forall r :: Live(q', r) <==> Live(q, r)
  {
    assert forall r :: Live(q', r) <==> Live(q, r);
  }

  lemma UntrackLists(q: Queue, e: Ref, q': Queue, q'': Queue)
    requires Tracked(q) && Untracked(q, e, q', q'') && Lists(q')
    requires q'.heap[e].status == Pending
    ensures Lists(q'')
  {
    UntrackRemoves(q, e, q', q'');
    assert e !in q'.ready && e !in q'.waiting;
  }

  lemma UntrackPendingMap(q: Queue, e: Ref, q': Queue, q'': Queue)
    requires Tracked(q) && PendingMap(q) && Untracked(q, e, q', q'') && Promoted(q, q')
    requires Tracked(q'')
    ensures PendingMap(q'')
  {
    var hash := q.heap[e].tx.hash;
    forall h
      ensures h in q''.pending <==> h in q''.byHash && q''.heap[q''.byHash[h]].status == Pending
      ensures h in q''.pending ==> q''.pending[h] == q''.heap[q''.byHash[h]].tx
    {
      if h in q.byHash && h != hash {
        assert Live(q, q.byHash[h]);
      }
    }
  }

  lemma {:induction false} BlockedByPending(q: Queue, e: Ref)
    requires Tracked(q) && Edges(q) && Blocked(q) && Live(q, e)
    ensures forall t :: t in q.heap[e].blocks ==> Live(q, t) && q.heap[t].status == Waiting
    ensures forall t :: t in q.heap[e].blocks ==> Count(q.heap[e].blocks, t) <= Count(q.heap[t].isBlockedBy, e)
  {
    forall t | t in q.heap[e].blocks
      ensures Live(q, t) && q.heap[t].status == Waiting && Count(q.heap[e].blocks, t) <= Count(q.heap[t].isBlockedBy, e)
    {
      assert Live(q, t);
      assert Count(q.heap[e].blocks, t) == Count(q.heap[t].isBlockedBy, e);
    }
  }

  lemma {:induction false} CompleteUnblocks(q: Queue, e: Ref, q0: Queue)
    requires Tracked(q) && Lists(q) && Edges(q) && Blocked(q) && Live(q, e)
    requires q0 == q.(pending := q.pending - {q.heap[e].tx.hash})
    ensures forall t :: t in q.heap[e].blocks ==> t in q.heap
    ensures var q' := UnblockAll(q0, e, q.heap[e].blocks);
            Unblocking(q0, e, q.heap[e].blocks, q') && Promoted(q0, q') && Lists(q')
  {
    assert forall r :: Live(q0, r) <==> Live(q, r);
    BlockedByPending(q, e);
    UnblockAllEffect(q0, e, q.heap[e].blocks);
  }

  lemma CompleteFrees(q: Queue, e: Ref, q0: Queue, q': Queue, q'': Queue)
    requires Edges(q) && Live(q, e)
    requires q0.heap == q.heap && q0.byHash == q.byHash && q''.heap == q'.heap
    requires Unblocking(q0, e, q.heap[e].blocks, q') && Promoted(q0, q')
    ensures Freed(q, e, q'') && Restatused(q, e, q'')
  {
    assert forall r :: Live(q0, r) <==> Live(q, r);
    forall r, x | Live(q, r) && r != e
      ensures Count(q'.heap[r].isBlockedBy, x) == if x == e then 0 else Count(q.heap[r].isBlockedBy, x)
    {
      assert Count(q.heap[e].blocks, r) == Count(q.heap[r].isBlockedBy, e);
    }
  }

  lemma InvBlocksAllocated(q: Queue)
    requires Tracked(q) && Edges(q)
    ensures BlocksAllocated(q)
  {
    forall h, b | h in q.byHash && b in q.heap[q.byHash[h]].blocks
      ensures b in q.heap
    {
      assert Live(q, q.byHash[h]);
      assert Live(q, b);
    }
  }

  /** A pending transaction, or an unknown hash, is what Complete expects. */
  ghost predicate Completable(q: Queue, hash: Hash) {
    hash !in q.byHash || (q.byHash[hash] in q.heap && q.heap[q.byHash[hash]].status == Pending)
  }

  lemma CompleteTracked(q: Queue, hash: Hash)
    requires Inv(q) && BlocksAllocated(q) && hash in q.byHash && q.heap[q.byHash[hash]].status == Pending
    ensures Inv(Complete(q, hash)) && Removed(q, q.byHash[hash], Complete(q, hash))
    ensures Restatused(q, q.byHash[hash], Complete(q, hash))
  {
    var e, q0, q'' := q.byHash[hash], q.(pending := q.pending - {hash}), Complete(q, hash);
    CompleteUnblocks(q, e, q0);
    var q' := UnblockAll(q0, e, q.heap[e].blocks);
    assert forall r :: Live(q0, r) <==> Live(q, r);
    assert Promoted(q, q');
    UntrackRemoves(q, e, q', q'');
    UntrackLists(q, e, q', q'');
    UntrackPendingMap(q, e, q', q'');
    UnindexIndexed(q, e, q'');
    CompleteFrees(q, e, q0, q', q'');
    RemovedGraph(q, e, q'');
  }
}
