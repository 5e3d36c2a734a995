/** Whole runs of the dependency-graph queue: nodes are fed back once, endorsements are reused once. */
module DepGraphRuns {
  import opened Prelude
  import opened DepGraphModel
  import opened ReuseWindow

  /* ---- node bookkeeping ---- */

  ghost predicate Holds(tracked: map<Hash, Tracked>, h: Hash, n: Node) {
    h in tracked && tracked[h].node == Some(n)
  }

  /** Nodes held are released ones not yet fed back, and no two transactions hold the same one. */
  ghost predicate Nodes(tracked: map<Hash, Tracked>, delivered: set<Node>, fed: seq<Node>) {
    && NoDup(fed)
    && (forall n :: n in fed ==> n in delivered)
    && (forall h, n :: Holds(tracked, h, n) ==> n in delivered && n !in fed)
    && (forall h, h', n :: Holds(tracked, h, n) && Holds(tracked, h', n) ==> h == h')
  }

  /** Every released node is either held or fed back. */
  ghost predicate Accounted(tracked: map<Hash, Tracked>, delivered: set<Node>, fed: seq<Node>) {
    forall n :: n in delivered ==> n in fed || exists h :: Holds(tracked, h, n)
  }

  ghost function Ids(nodes: seq<Released>): set<Node> {
    set r | r in nodes :: r.node
  }

  /** The manager releases each node once. */
  ghost predicate FreshBatch(nodes: seq<Released>, delivered: set<Node>) {
    && (forall i, j :: 0 <= i < j < |nodes| ==> nodes[i].node != nodes[j].node)
    && (forall i :: 0 <= i < |nodes| ==> nodes[i].node !in delivered)
  }

  /** No node of the batch is filed with a transaction that already holds one. */
  ghost predicate NoOverwrite(q: Queue, nodes: seq<Released>) {
    nodes == [] || (
      var n := |nodes| - 1;
      var q' := MarkReady(q, nodes[..n]).0;
      NoOverwrite(q, nodes[..n])
      && (nodes[n].ref.Some? && nodes[n].ref.value in q'.tracked ==> q'.tracked[nodes[n].ref.value].node == None))
  }

  lemma OrphanNodes(tracked: map<Hash, Tracked>, delivered: set<Node>, fed: seq<Node>, n: Node)
    requires Nodes(tracked, delivered, fed) && n !in delivered
    ensures Nodes(tracked, delivered + {n}, fed + [n])
    ensures Accounted(tracked, delivered + {n}, fed + [n]) <==> Accounted(tracked, delivered, fed)
  {
  }

  lemma FiledNodes(tracked: map<Hash, Tracked>, delivered: set<Node>, fed: seq<Node>, h: Hash, n: Node)
    requires Nodes(tracked, delivered, fed) && n !in delivered && h in tracked
    ensures var tracked' := tracked[h := tracked[h].(node := Some(n))];
            && Nodes(tracked', delivered + {n}, fed)
            && (Accounted(tracked', delivered + {n}, fed) <==>
                  Accounted(tracked, delivered, fed) && tracked[h].node == None)
  {
    var tracked' := tracked[h := tracked[h].(node := Some(n))];
    assert forall x, m :: Holds(tracked', x, m) <==> if x == h then m == n else Holds(tracked, x, m);
    if tracked[h].node.Some? {
      var lost := tracked[h].node.value;
      assert Holds(tracked, h, lost);
      assert lost in delivered + {n} && lost !in fed && forall x :: !Holds(tracked', x, lost);
    } else if Accounted(tracked, delivered, fed) {
      forall m | m in delivered + {n}
        ensures m in fed || exists x :: Holds(tracked', x, m)
      {
        if m == n {
          assert Holds(tracked', h, m);
        } else if m !in fed {
          var x :| Holds(tracked, x, m);
          assert Holds(tracked', x, m);
        }
      }
    } else {
      var lost :| lost in delivered && lost !in fed && forall x :: !Holds(tracked, x, lost);
      assert lost in delivered + {n} && forall x :: !Holds(tracked', x, lost);
    }
  }

  /** Filing a batch keeps every node in one place, and loses none exactly when nothing is overwritten. */
  lemma {:induction false} MarkReadyNodes(q: Queue, nodes: seq<Released>, delivered: set<Node>, fed: seq<Node>)
    requires Nodes(q.tracked, delivered, fed) && FreshBatch(nodes, delivered)
    ensures var (q', orphans) := MarkReady(q, nodes);
            && Nodes(q'.tracked, delivered + Ids(nodes), fed + orphans)
            && (Accounted(q.tracked, delivered, fed) ==>
                  (Accounted(q'.tracked, delivered + Ids(nodes), fed + orphans) <==> NoOverwrite(q, nodes)))
  {
    if nodes == [] {
      assert delivered + Ids(nodes) == delivered && fed + [] == fed;
    } else {
      var n := |nodes| - 1;
      var r, before := nodes[n], nodes[..n];
      MarkReadyNodes(q, before, delivered, fed);
      var (q', orphans) := MarkReady(q, before);
      var delivered' := delivered + Ids(before);
      assert nodes == before + [r];
      assert delivered + Ids(nodes) == delivered' + {r.node};
      assert r.node !in delivered';
      if r.ref == None || r.ref.value !in q'.tracked {
        OrphanNodes(q'.tracked, delivered', fed + orphans, r.node);
        assert fed + (orphans + [r.node]) == fed + orphans + [r.node];
      } else {
        FiledNodes(q'.tracked, delivered', fed + orphans, r.ref.value, r.node);
      }
    }
  }

  lemma TakenNodes(tracked: map<Hash, Tracked>, delivered: set<Node>, fed: seq<Node>, h: Hash)
    requires Nodes(tracked, delivered, fed) && h in tracked
    ensures var fed' := fed + if tracked[h].node == None then [] else [tracked[h].node.value];
            && Nodes(tracked - {h}, delivered, fed')
            && (Accounted(tracked, delivered, fed) ==> Accounted(tracked - {h}, delivered, fed'))
  {
    var tracked' := tracked - {h};
    var fed' := fed + if tracked[h].node == None then [] else [tracked[h].node.value];
    assert forall x, m :: Holds(tracked', x, m) <==> x != h && Holds(tracked, x, m);
    if tracked[h].node.Some? {
      assert Holds(tracked, h, tracked[h].node.value);
    }
    if Accounted(tracked, delivered, fed) {
      forall m | m in delivered
        ensures m in fed' || exists x :: Holds(tracked', x, m)
      {
        if m !in fed {
          var x :| Holds(tracked, x, m);
          assert x != h ==> Holds(tracked', x, m);
        }
      }
    }
  }

  /** Untracking feeds back each held node once and loses none. */
  lemma {:induction false} TakeNodesOnce(q: Queue, hashes: seq<Hash>, delivered: set<Node>, fed: seq<Node>)
    requires Nodes(q.tracked, delivered, fed)
    ensures var (q', nodes) := TakeNodes(q, hashes);
            && Nodes(q'.tracked, delivered, fed + nodes)
            && (Accounted(q.tracked, delivered, fed) ==> Accounted(q'.tracked, delivered, fed + nodes))
  {
    if hashes == [] {
      assert fed + [] == fed;
    } else {
      var n := |hashes| - 1;
      TakeNodesOnce(q, hashes[..n], delivered, fed);
      var (q', nodes) := TakeNodes(q, hashes[..n]);
      if hashes[n] in q'.tracked {
        TakenNodes(q'.tracked, delivered, fed + nodes, hashes[n]);
        var held := q'.tracked[hashes[n]].node;
        var last := if held == None then [] else [held.value];
        assert fed + (nodes + last) == fed + nodes + last;
      }
    }
  }

  /* ---- runs ---- */

  /** The queue; the keys each counted block wrote; the nodes released to it and those it fed back; the transactions
      released while tracked, and those handed out, in order. */
  datatype System = System(
    q: Queue,
    history: seq<set<Key>>,
    delivered: set<Node>,
    fed: seq<Node>,
    filed: seq<Hash>,
    served: seq<Hash>)

  /** What the valid transactions of a block that are tracked were kept as writing. */
  ghost function KeysWritten(tracked: map<Hash, Tracked>, txs: seq<Committed>): set<Key> {
    set i, k | 0 <= i < |txs| && txs[i].valid && txs[i].hash in tracked && k in tracked[txs[i].hash].writeKeys :: k
  }

  lemma {:induction false} BlockKeysIff(tracked: map<Hash, Tracked>, txs: seq<Committed>, k: Key)
    ensures k in BlockKeys(tracked, txs) <==>
              exists i :: 0 <= i < |txs| && txs[i].valid && txs[i].hash in tracked
                          && k in tracked[txs[i].hash].writeKeys
  {
    if txs != [] {
      var n := |txs| - 1;
      BlockKeysIff(tracked, txs[..n], k);
      assert forall i :: 0 <= i < n ==> txs[..n][i] == txs[i];
    }
  }

  lemma {:induction false} KeysWrittenAre(tracked: map<Hash, Tracked>, txs: seq<Committed>)
    ensures KeySet(BlockKeys(tracked, txs)) == KeysWritten(tracked, txs)
  {
    forall k
      ensures k in KeySet(BlockKeys(tracked, txs)) <==> k in KeysWritten(tracked, txs)
    {
      BlockKeysIff(tracked, txs, k);
    }
  }

  /** The transactions among these nodes that are tracked, in order. */
  function TrackedRefs(tracked: map<Hash, Tracked>, nodes: seq<Released>): seq<Hash> {
    if nodes == [] then []
    else
      (if nodes[0].ref.Some? && nodes[0].ref.value in tracked then [nodes[0].ref.value] else [])
      + TrackedRefs(tracked, nodes[1..])
  }

  datatype Step =
    | Enqueue(hash: Hash)
    | Keep(hash: Hash, readSeq: U64, end: Endorsement, readKeys: seq<Key>, writeKeys: seq<Key>)
    | Reuse(hash: Hash)
    | Deliver(nodes: seq<Released>)
    | Dequeue
    | Complete(hash: Hash)
    | Block(txs: seq<Committed>)
    | Drop(hash: Hash)

  /** What the surroundings guarantee: nodes are released once, an endorsement is executed at a block
      already counted, and fewer than 2^64 blocks are counted. */
  ghost predicate Allowed(s: System, step: Step) {
    match step
    case Keep(_, readSeq, _, _, _) => readSeq <= s.q.window.commitSeq
    case Deliver(nodes) => FreshBatch(nodes, s.delivered)
    case Block(_) => |s.q.window.recent| == REUSE_WINDOW && s.q.window.commitSeq < MAX_U64
    case _ => true
  }

  ghost function Apply(s: System, step: Step): System
    requires Allowed(s, step)
  {
    match step
    case Enqueue(h) =>
      if h in s.q.tracked then s else s.(q := s.q.(tracked := s.q.tracked[h := FreshTracked]))
    case Keep(h, readSeq, end, rs, ws) => s.(q := KeepEndorsement(s.q, h, readSeq, end, rs, ws))
    case Reuse(h) => s.(q := ReusableEndorsement(s.q, h).0)
    case Deliver(nodes) =>
      var (q', orphans) := MarkReady(s.q, nodes);
      s.(q := q', delivered := s.delivered + Ids(nodes), fed := s.fed + orphans,
         filed := s.filed + TrackedRefs(s.q.tracked, nodes))
    case Dequeue =>
      if s.q.ready == [] then s else s.(q := s.q.(ready := s.q.ready[1..]), served := s.served + [s.q.ready[0]])
    case Complete(h) =>
      var (q', nodes) := TakeNodes(s.q, [h]);
      s.(q := q', fed := s.fed + nodes)
    case Block(txs) =>
      var (q', nodes) := Handle(s.q, txs);
      s.(q := q', fed := s.fed + nodes,
         history := if txs == [] then s.history else s.history + [KeysWritten(s.q.tracked, txs)])
    case Drop(h) => s.(q := s.q.(tracked := s.q.tracked - {h}))
  }

  /** Every kept endorsement was executed at a block already counted. */
  ghost predicate SeqsPast(q: Queue) {
    forall h :: h in q.tracked ==> q.tracked[h].readSeq <= q.window.commitSeq
  }

  ghost predicate Inv(s: System) {
    Exact(s.q.window, s.history) && Nodes(s.q.tracked, s.delivered, s.fed) && SeqsPast(s.q)
  }

  const Initial := System(EmptyQueue, [], {}, [], [], [])

  /** Same nodes held by the same transactions. */
  lemma SameHolders(t: map<Hash, Tracked>, t': map<Hash, Tracked>, delivered: set<Node>, fed: seq<Node>)
    requires Nodes(t, delivered, fed) && forall h, n :: Holds(t', h, n) <==> Holds(t, h, n)
    ensures Nodes(t', delivered, fed) && (Accounted(t, delivered, fed) ==> Accounted(t', delivered, fed))
  {
  }

  lemma {:induction false} MarkReadyRest(q: Queue, nodes: seq<Released>)
    requires SeqsPast(q)
    ensures SeqsPast(MarkReady(q, nodes).0) && MarkReady(q, nodes).0.window == q.window
    ensures forall h :: h in MarkReady(q, nodes).0.tracked <==> h in q.tracked
    ensures forall h :: h in q.tracked ==> MarkReady(q, nodes).0.tracked[h].end == q.tracked[h].end
  {
    if nodes != [] { MarkReadyRest(q, nodes[..|nodes| - 1]); }
  }

  lemma {:induction false} TakeNodesRest(q: Queue, hashes: seq<Hash>)
    ensures TakeNodes(q, hashes).0.window == q.window
    ensures forall h :: h in TakeNodes(q, hashes).0.tracked ==>
              h in q.tracked && TakeNodes(q, hashes).0.tracked[h] == q.tracked[h]
  {
    if hashes != [] { TakeNodesRest(q, hashes[..|hashes| - 1]); }
  }

  lemma BlockInv(s: System, txs: seq<Committed>)
    requires Inv(s) && s.q.window.commitSeq < MAX_U64
    ensures Inv(Apply(s, Block(txs)))
    ensures Accounted(s.q.tracked, s.delivered, s.fed) ==>
              var s' := Apply(s, Block(txs)); Accounted(s'.q.tracked, s'.delivered, s'.fed)
  {
    if txs == [] {
      assert s.fed + [] == s.fed;
    } else {
      var keys := BlockKeys(s.q.tracked, txs);
      KeysWrittenAre(s.q.tracked, txs);
      RecordExact(s.q.window, s.history, keys);
      var q := s.q.(window := Record(s.q.window, keys));
      TakeNodesRest(q, Hashes(txs));
      TakeNodesOnce(q, Hashes(txs), s.delivered, s.fed);
    }
  }

  /** A step that neither loses a node to an overwrite nor drops a transaction that holds one. */
  ghost predicate Careful(s: System, step: Step) {
    match step
    case Deliver(nodes) => NoOverwrite(s.q, nodes)
    case Drop(h) => h in s.q.tracked ==> s.q.tracked[h].node == None
    case _ => true
  }

  ghost predicate AllAccounted(s: System) {
    Accounted(s.q.tracked, s.delivered, s.fed)
  }

  lemma DropCarefulIff(s: System, h: Hash)
    requires Inv(s) && AllAccounted(s)
    ensures AllAccounted(Apply(s, Drop(h))) <==> Careful(s, Drop(h))
  {
    var s' := Apply(s, Drop(h));
    assert forall x, n :: Holds(s'.q.tracked, x, n) <==> x != h && Holds(s.q.tracked, x, n);
    if Careful(s, Drop(h)) {
      SameHolders(s.q.tracked, s'.q.tracked, s.delivered, s.fed);
    } else {
      var n := s.q.tracked[h].node.value;
      assert Holds(s.q.tracked, h, n);
      assert n in s'.delivered && n !in s'.fed && forall x :: !Holds(s'.q.tracked, x, n);
    }
  }

  /** Every step keeps the invariant, and keeps every node accounted for exactly when it is careful. */
  lemma StepInv(s: System, step: Step)
    requires Inv(s) && Allowed(s, step)
    ensures Inv(Apply(s, step))
    ensures AllAccounted(s) ==> (AllAccounted(Apply(s, step)) <==> Careful(s, step))
  {
    var s' := Apply(s, step);
    match step
    case Deliver(nodes) =>
      MarkReadyNodes(s.q, nodes, s.delivered, s.fed);
      MarkReadyRest(s.q, nodes);
    case Complete(h) =>
      TakeNodesOnce(s.q, [h], s.delivered, s.fed);
      TakeNodesRest(s.q, [h]);
    case Block(txs) =>
      BlockInv(s, txs);
    case Drop(h) =>
      assert forall x, n :: Holds(s'.q.tracked, x, n) ==> Holds(s.q.tracked, x, n);
      if AllAccounted(s) {
        DropCarefulIff(s, h);
      }
    case _ =>
      SameHolders(s.q.tracked, s'.q.tracked, s.delivered, s.fed);
  }

  /* ---- lost nodes ---- */

  ghost predicate Unheld(tracked: map<Hash, Tracked>, n: Node) {
    forall h :: h in tracked ==> tracked[h].node != Some(n)
  }

  /** Released, not fed back, and held by no transaction. */
  ghost predicate Lost(s: System, n: Node) {
    n in s.delivered && n !in s.fed && Unheld(s.q.tracked, n)
  }

  lemma UnheldKept(tracked: map<Hash, Tracked>, h: Hash, t: Tracked, n: Node)
    requires Unheld(tracked, n)
    ensures t.node != Some(n) ==> Unheld(tracked[h := t], n)
    ensures Unheld(tracked - {h}, n)
  {
  }

  lemma {:induction false} MarkReadyHeld(q: Queue, nodes: seq<Released>, n: Node)
    requires n !in Ids(nodes) && Unheld(q.tracked, n)
    ensures n !in MarkReady(q, nodes).1 && Unheld(MarkReady(q, nodes).0.tracked, n)
  {
    if nodes != [] {
      var r, before := nodes[|nodes| - 1], nodes[..|nodes| - 1];
      Snoc(nodes);
      assert r in nodes && forall x :: x in before ==> x in nodes;
      MarkReadyHeld(q, before, n);
      var tracked := MarkReady(q, before).0.tracked;
      if r.ref.Some? && r.ref.value in tracked {
        UnheldKept(tracked, r.ref.value, tracked[r.ref.value].(node := Some(r.node)), n);
      }
    }
  }

  lemma {:induction false} TakeNodesHeld(q: Queue, hashes: seq<Hash>, n: Node)
    requires Unheld(q.tracked, n)
    ensures n !in TakeNodes(q, hashes).1 && Unheld(TakeNodes(q, hashes).0.tracked, n)
  {
    if hashes != [] {
      var before := hashes[..|hashes| - 1];
      TakeNodesHeld(q, before, n);
      UnheldKept(TakeNodes(q, before).0.tracked, hashes[|hashes| - 1], FreshTracked, n);
    }
  }

  lemma LostStays(s: System, step: Step, n: Node)
    requires Allowed(s, step) && Lost(s, n)
    ensures Lost(Apply(s, step), n)
  {
    var tracked := s.q.tracked;
    match step
    case Deliver(nodes) => MarkReadyHeld(s.q, nodes, n);
    case Complete(h) => TakeNodesHeld(s.q, [h], n);
    case Block(txs) =>
      if txs != [] {
        TakeNodesHeld(s.q.(window := Record(s.q.window, BlockKeys(tracked, txs))), Hashes(txs), n);
      }
    case Enqueue(h) => UnheldKept(tracked, h, FreshTracked, n);
    case Keep(h, readSeq, end, rs, ws) =>
      if h in tracked {
        UnheldKept(tracked, h, Tracked(tracked[h].node, Some(end), readSeq, rs, ws), n);
      }
    case Reuse(h) =>
      if h in tracked {
        UnheldKept(tracked, h, tracked[h].(end := None), n);
      }
    case Drop(h) => UnheldKept(tracked, h, FreshTracked, n);
    case Dequeue =>
  }

  ghost predicate Run(s: System, steps: seq<Step>, s': System)
    decreases |steps|
  {
    if steps == [] then s' == s
    else Allowed(s, steps[0]) && Run(Apply(s, steps[0]), steps[1..], s')
  }

  ghost predicate CarefulRun(s: System, steps: seq<Step>)
    decreases |steps|
  {
    steps == [] || (Allowed(s, steps[0]) && Careful(s, steps[0]) && CarefulRun(Apply(s, steps[0]), steps[1..]))
  }

  /** A lost node is never held or fed back again. */
  lemma {:induction false} LostForever(s: System, steps: seq<Step>, s': System, n: Node)
    requires Run(s, steps, s') && Lost(s, n)
    ensures Lost(s', n)
    decreases |steps|
  {
    if steps != [] {
      LostStays(s, steps[0], n);
      LostForever(Apply(s, steps[0]), steps[1..], s', n);
    }
  }

  lemma {:induction false} RunInv(s: System, steps: seq<Step>, s': System)
    requires Inv(s) && Run(s, steps, s')
    ensures Inv(s')
    ensures AllAccounted(s) ==> (AllAccounted(s') <==> CarefulRun(s, steps))
    decreases |steps|
  {
    if steps != [] {
      var s1 := Apply(s, steps[0]);
      StepInv(s, steps[0]);
      RunInv(s1, steps[1..], s');
      if !AllAccounted(s1) {
        var n :| n in s1.delivered && n !in s1.fed && forall h :: !Holds(s1.q.tracked, h, n);
        assert forall h :: h in s1.q.tracked && s1.q.tracked[h].node == Some(n) ==> Holds(s1.q.tracked, h, n);
        LostForever(s1, steps[1..], s', n);
      }
    }
  }

  /** Over any run no node is fed back twice, and none that is fed back is still held; every released node is held
      or fed back exactly when no step overwrote or dropped a held one. */
  lemma {:induction false} FedBackOnce(steps: seq<Step>, s: System)
    requires Run(Initial, steps, s)
    ensures NoDup(s.fed)
    ensures forall h, n :: Holds(s.q.tracked, h, n) ==> n !in s.fed
    ensures (forall n :: n in s.delivered <==> n in s.fed || exists h :: Holds(s.q.tracked, h, n)) <==>
              CarefulRun(Initial, steps)
  {
    NoBlocksExact();
    RunInv(Initial, steps, s);
  }

  lemma {:induction false} RunTail(s: System, steps: seq<Step>, s': System)
    requires Run(s, steps, s') && steps != []
    ensures Allowed(s, steps[0]) && Run(Apply(s, steps[0]), steps[1..], s')
  {
  }

  lemma {:induction false} FiledTwice(h: Hash, first: Node, second: Node, q: Queue)
    requires q.tracked == map[h := FreshTracked]
    ensures var (q', orphans) := MarkReady(q, [Released(first, Some(h)), Released(second, Some(h))]);
            q'.tracked == map[h := FreshTracked.(node := Some(second))] && orphans == []
  {
    var nodes := [Released(first, Some(h)), Released(second, Some(h))];
    assert nodes[..1] == [nodes[0]] && [nodes[0]][..0] == [];
    assert MarkReady(q, []) == (q, []);
    assert MarkReady(q, [nodes[0]]).0.tracked == map[h := FreshTracked.(node := Some(first))];
  }

  /** A transaction enqueued, completed before its node came, and enqueued again, so that two nodes are released for it:
      whatever follows, the first is never held or fed back. */
  lemma {:induction false} OverwrittenNodeIsLost(h: Hash, first: Node, second: Node, steps: seq<Step>, s: System)
    requires first != second && Run(Initial, steps, s) && |steps| > 3
    requires steps[0] == Enqueue(h) && steps[1] == Complete(h) && steps[2] == Enqueue(h)
    requires steps[3] == Deliver([Released(first, Some(h)), Released(second, Some(h))])
    ensures Lost(s, first)
  {
    var nodes := [Released(first, Some(h)), Released(second, Some(h))];
    assert nodes[0] in nodes && [h][..0] == [];
    RunTail(Initial, steps, s);
    var s1 := Apply(Initial, steps[0]);
    RunTail(s1, steps[1..], s);
    var s2 := Apply(s1, steps[1]);
    assert TakeNodes(s1.q, []) == (s1.q, []) && s2.q.tracked == map[] && s2.fed == [];
    RunTail(s2, steps[1..][1..], s);
    var s3 := Apply(s2, steps[2]);
    FiledTwice(h, first, second, s3.q);
    var rest := steps[1..][1..][1..];
    RunTail(s3, rest, s);
    LostForever(Apply(s3, steps[3]), rest[1..], s, first);
  }

  /** In every reachable queue an endorsement is handed over exactly when one is kept, fewer than
      64 blocks were counted since it was executed, and none of them wrote a key it read. */
  lemma {:induction false} ReuseExact(steps: seq<Step>, s: System, hash: Hash)
    requires Run(Initial, steps, s)
    ensures ReusableEndorsement(s.q, hash).1.Some? <==>
              && hash in s.q.tracked && s.q.tracked[hash].end.Some?
              && |s.history| - s.q.tracked[hash].readSeq < 64
              && forall i, k :: s.q.tracked[hash].readSeq <= i < |s.history| && k in s.q.tracked[hash].readKeys ==>
                   k !in s.history[i]
  {
    NoBlocksExact();
    RunInv(Initial, steps, s);
    if hash in s.q.tracked {
      CurrentExact(s.q.window, s.history, s.q.tracked[hash]);
    }
  }

  ghost predicate Spent(q: Queue, hash: Hash) {
    hash in q.tracked ==> q.tracked[hash].end == None
  }

  lemma {:induction false} SpentStays(s: System, steps: seq<Step>, s': System, hash: Hash)
    requires Inv(s) && Spent(s.q, hash) && Run(s, steps, s')
    requires forall i :: 0 <= i < |steps| && steps[i].Keep? ==> steps[i].hash != hash
    ensures Spent(s'.q, hash)
    decreases |steps|
  {
    if steps != [] {
      var s1 := Apply(s, steps[0]);
      match steps[0] {
        case Deliver(nodes) => MarkReadyRest(s.q, nodes);
        case Complete(h) => TakeNodesRest(s.q, [h]);
        case Block(txs) =>
          if txs != [] {
            TakeNodesRest(s.q.(window := Record(s.q.window, BlockKeys(s.q.tracked, txs))), Hashes(txs));
          }
        case _ =>
      }
      StepInv(s, steps[0]);
      SpentStays(s1, steps[1..], s', hash);
    }
  }

  /** After one call every later call reports nothing, until a new endorsement is kept. */
  lemma {:induction false} ReuseOnce(s: System, steps: seq<Step>, s': System, hash: Hash)
    requires Inv(s) && Run(Apply(s, Reuse(hash)), steps, s')
    requires forall i :: 0 <= i < |steps| && steps[i].Keep? ==> steps[i].hash != hash
    ensures ReusableEndorsement(s'.q, hash).1 == None
  {
    StepInv(s, Reuse(hash));
    SpentStays(Apply(s, Reuse(hash)), steps, s', hash);
  }
}
