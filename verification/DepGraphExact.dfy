/** What each step of the dependency-graph queue leaves, transaction by transaction, and the order it serves in. */
module DepGraphExact {
  import opened Prelude
  import opened DepGraphModel
  import opened DepGraphRuns

  /* ---- released nodes ---- */

  lemma {:induction false} RefsConcat(tracked: map<Hash, Tracked>, a: seq<Released>, b: seq<Released>)
    ensures TrackedRefs(tracked, a + b) == TrackedRefs(tracked, a) + TrackedRefs(tracked, b)
  {
    if a == [] {
      assert a + b == b;
    } else {
      assert (a + b)[1..] == a[1..] + b;
      RefsConcat(tracked, a[1..], b);
    }
  }

  lemma {:induction false} SameRefs(t: map<Hash, Tracked>, t': map<Hash, Tracked>, nodes: seq<Released>)
    requires t'.Keys == t.Keys
    ensures TrackedRefs(t', nodes) == TrackedRefs(t, nodes)
  {
    if nodes != [] {
      SameRefs(t, t', nodes[1..]);
    }
  }

  /** The transactions released while tracked go to the end of the ready list, in the order of their nodes. */
  lemma {:induction false} ReadyGrows(q: Queue, nodes: seq<Released>)
    ensures MarkReady(q, nodes).0.tracked.Keys == q.tracked.Keys
    ensures MarkReady(q, nodes).0.ready == q.ready + TrackedRefs(q.tracked, nodes)
  {
    if nodes == [] {
      assert q.ready + [] == q.ready;
    } else {
      var n := |nodes| - 1;
      var r := nodes[n];
      ReadyGrows(q, nodes[..n]);
      Snoc(nodes);
      RefsConcat(q.tracked, nodes[..n], [r]);
      assert [r][1..] == [] && TrackedRefs(q.tracked, []) == [];
      Associate(q.ready, TrackedRefs(q.tracked, nodes[..n]), TrackedRefs(q.tracked, [r]));
    }
  }

  /** The i-th of these nodes is the last one for h. */
  ghost predicate LastFor(nodes: seq<Released>, h: Hash, i: nat) {
    i < |nodes| && nodes[i].ref == Some(h) && forall j :: i < j < |nodes| ==> nodes[j].ref != Some(h)
  }

  /** A tracked transaction holds the last node released for it, else what it held; nothing else about it changes. */
  lemma {:induction false} HeldAfter(q: Queue, nodes: seq<Released>, h: Hash)
    requires h in q.tracked
    ensures h in MarkReady(q, nodes).0.tracked
    ensures var t := MarkReady(q, nodes).0.tracked[h];
            && (forall i: nat :: LastFor(nodes, h, i) ==> t == q.tracked[h].(node := Some(nodes[i].node)))
            && ((forall i :: 0 <= i < |nodes| ==> nodes[i].ref != Some(h)) ==> t == q.tracked[h])
  {
    if nodes != [] {
      var n := |nodes| - 1;
      HeldAfter(q, nodes[..n], h);
      assert forall i :: 0 <= i < n ==> nodes[..n][i] == nodes[i];
      forall i: nat | LastFor(nodes, h, i)
        ensures i == n || (nodes[n].ref != Some(h) && LastFor(nodes[..n], h, i))
      {
      }
      if nodes[n].ref != Some(h) {
        assert MarkReady(q, nodes).0.tracked[h] == MarkReady(q, nodes[..n]).0.tracked[h];
      } else {
        KeepsRest(q, nodes[..n], h);
      }
    }
  }

  lemma {:induction false} KeepsRest(q: Queue, nodes: seq<Released>, h: Hash)
    requires h in q.tracked
    ensures h in MarkReady(q, nodes).0.tracked
    ensures MarkReady(q, nodes).0.tracked[h].(node := q.tracked[h].node) == q.tracked[h]
  {
    if nodes != [] {
      KeepsRest(q, nodes[..|nodes| - 1], h);
    }
  }

  /** The nodes fed straight back are those whose transaction is not tracked. */
  lemma {:induction false} OrphansIff(q: Queue, nodes: seq<Released>, n: Node)
    ensures n in MarkReady(q, nodes).1 <==>
              exists i :: 0 <= i < |nodes| && nodes[i].node == n
                          && (nodes[i].ref == None || nodes[i].ref.value !in q.tracked)
  {
    if nodes != [] {
      var m := |nodes| - 1;
      OrphansIff(q, nodes[..m], n);
      ReadyGrows(q, nodes[..m]);
      assert forall i :: 0 <= i < m ==> nodes[..m][i] == nodes[i];
    }
  }

  /* ---- completed transactions ---- */

  /** Exactly these transactions are untracked, and exactly the nodes they held come back. */
  lemma {:induction false} TakenExactly(q: Queue, hashes: seq<Hash>, h: Hash, n: Node)
    ensures var (q', nodes) := TakeNodes(q, hashes);
            && (h in q'.tracked <==> h in q.tracked && h !in hashes)
            && (h in q'.tracked ==> q'.tracked[h] == q.tracked[h])
            && (n in nodes <==> exists x :: x in hashes && x in q.tracked && q.tracked[x].node == Some(n))
            && q'.ready == q.ready && q'.window == q.window
  {
    if hashes != [] {
      var m := |hashes| - 1;
      Snoc(hashes);
      TakenExactly(q, hashes[..m], h, n);
      TakenExactly(q, hashes[..m], hashes[m], n);
      assert forall x :: x in hashes <==> x in hashes[..m] || x == hashes[m];
    }
  }

  /* ---- endorsements ---- */

  /** Keeping an endorsement sets its four fields for a tracked transaction and changes nothing else. */
  lemma KeptExactly(q: Queue, hash: Hash, readSeq: U64, end: Endorsement, rs: seq<Key>, ws: seq<Key>, h: Hash)
    ensures var q' := KeepEndorsement(q, hash, readSeq, end, rs, ws);
            && q'.tracked.Keys == q.tracked.Keys && q'.ready == q.ready && q'.window == q.window
            && (h in q.tracked && h != hash ==> q'.tracked[h] == q.tracked[h])
            && (hash in q.tracked ==>
                  var t := q'.tracked[hash];
                  && t.end == Some(end) && t.readSeq == readSeq && t.readKeys == rs && t.writeKeys == ws
                  && t.node == q.tracked[hash].node)
  {
  }

  /** t carries nothing yet, or what some Keep of this run gave, less an endorsement handed over since. */
  ghost predicate FromKeep(steps: seq<Step>, h: Hash, t: Tracked) {
    || (t.end == None && t.readSeq == 0 && t.readKeys == [] && t.writeKeys == [])
    || exists i :: 0 <= i < |steps| && KeptBy(steps[i], h, t)
  }

  predicate KeptBy(step: Step, h: Hash, t: Tracked) {
    && step.Keep? && step.hash == h && t.readSeq == step.readSeq && t.readKeys == step.readKeys
    && t.writeKeys == step.writeKeys && (t.end == None || t.end == Some(step.end))
  }

  ghost predicate AllFromKeep(steps: seq<Step>, q: Queue) {
    forall h :: h in q.tracked ==> FromKeep(steps, h, q.tracked[h])
  }

  lemma FromKeepLater(steps: seq<Step>, step: Step, h: Hash, t: Tracked, t': Tracked)
    requires FromKeep(steps, h, t) && t'.readSeq == t.readSeq && t'.readKeys == t.readKeys
    requires t'.writeKeys == t.writeKeys && (t'.end == None || t'.end == t.end)
    ensures FromKeep(steps + [step], h, t')
  {
    if i :| 0 <= i < |steps| && KeptBy(steps[i], h, t) {
      assert KeptBy((steps + [step])[i], h, t');
    }
  }

  lemma StepFromKeep(s: System, steps: seq<Step>, step: Step)
    requires AllFromKeep(steps, s.q) && Allowed(s, step)
    ensures AllFromKeep(steps + [step], Apply(s, step).q)
  {
    var s' := Apply(s, step);
    forall h | h in s'.q.tracked
      ensures FromKeep(steps + [step], h, s'.q.tracked[h])
    {
      match step
      case Keep(hash, _, _, _, _) =>
        if h == hash {
          assert KeptBy((steps + [step])[|steps|], h, s'.q.tracked[h]);
        } else {
          FromKeepLater(steps, step, h, s.q.tracked[h], s'.q.tracked[h]);
        }
      case Deliver(nodes) =>
        ReadyGrows(s.q, nodes);
        KeepsRest(s.q, nodes, h);
        FromKeepLater(steps, step, h, s.q.tracked[h], s'.q.tracked[h]);
      case Complete(hash) =>
        TakenExactly(s.q, [hash], h, 0);
        FromKeepLater(steps, step, h, s.q.tracked[h], s'.q.tracked[h]);
      case Block(txs) =>
        if txs != [] {
          TakenExactly(s.q.(window := Record(s.q.window, BlockKeys(s.q.tracked, txs))), Hashes(txs), h, 0);
        }
        FromKeepLater(steps, step, h, s.q.tracked[h], s'.q.tracked[h]);
      case _ =>
        if h in s.q.tracked {
          FromKeepLater(steps, step, h, s.q.tracked[h], s'.q.tracked[h]);
        }
    }
  }

  /* ---- runs ---- */

  ghost predicate Fifo(s: System) {
    s.served + s.q.ready == s.filed
  }

  lemma StepFifo(s: System, step: Step)
    requires Fifo(s) && Allowed(s, step)
    ensures Fifo(Apply(s, step))
  {
    match step
    case Deliver(nodes) =>
      ReadyGrows(s.q, nodes);
      Associate(s.served, s.q.ready, TrackedRefs(s.q.tracked, nodes));
    case Dequeue =>
      if s.q.ready != [] {
        assert s.q.ready == [s.q.ready[0]] + s.q.ready[1..];
        Associate(s.served, [s.q.ready[0]], s.q.ready[1..]);
      }
    case Complete(h) => TakenExactly(s.q, [h], 0, 0);
    case Block(txs) =>
      if txs != [] {
        TakenExactly(s.q.(window := Record(s.q.window, BlockKeys(s.q.tracked, txs))), Hashes(txs), 0, 0);
      }
    case _ =>
  }

  lemma {:induction false} RunKeeps(s: System, before: seq<Step>, steps: seq<Step>, s': System)
    requires Run(s, steps, s') && Fifo(s) && AllFromKeep(before, s.q)
    ensures Fifo(s') && AllFromKeep(before + steps, s'.q)
    decreases |steps|
  {
    if steps == [] {
      assert before + steps == before;
    } else {
      StepFifo(s, steps[0]);
      StepFromKeep(s, before, steps[0]);
      RunKeeps(Apply(s, steps[0]), before + [steps[0]], steps[1..], s');
      assert before + [steps[0]] + steps[1..] == before + steps;
    }
  }

  /** Over every run transactions are handed out in the order they were released, each as often, none skipped: what was
      served and what is still ready is what was released while tracked. */
  lemma {:induction false} ServedInOrder(steps: seq<Step>, s: System)
    requires Run(Initial, steps, s)
    ensures s.served + s.q.ready == s.filed
  {
    RunKeeps(Initial, [], steps, s);
  }

  /** Over every run what is kept for a transaction, its write keys above all, is what some Keep of the run gave. */
  lemma {:induction false} KeptFrom(steps: seq<Step>, s: System, h: Hash)
    requires Run(Initial, steps, s) && h in s.q.tracked
    ensures FromKeep(steps, h, s.q.tracked[h])
  {
    RunKeeps(Initial, [], steps, s);
    assert [] + steps == steps;
  }
}
