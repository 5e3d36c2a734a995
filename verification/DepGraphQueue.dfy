/** The part of the dependency-graph queue that runs under its lock, as the object the gateway uses. */
module DepGraphQueue {
  import opened Prelude
  import opened DepGraphModel

  class DepGraphQueue {
    var tracked: map<Hash, Tracked>
    var ready: seq<Hash>
    var commitSeq: U64
    var lastWrite: map<Key, U64>
    const recent: array<seq<Key>>
    /** Everything sent back to the manager so far. */
    var validated: seq<Node>

    ghost function View(): Queue
      reads this, recent
    {
      Queue(tracked, ready, Window(commitSeq, lastWrite, recent[..]))
    }

    ghost predicate Valid()
      reads this
    {
      recent.Length == REUSE_WINDOW
    }

    constructor ()
      ensures Valid() && View() == EmptyQueue && validated == [] && fresh(recent)
    {
      tracked, ready, commitSeq, lastWrite, validated := map[], [], 0, map[], [];
      recent := new seq<Key>[REUSE_WINDOW](_ => []);
      new;
      assert recent[..] == NoBlocks.recent;
    }

    method KeepEndorsement(hash: Hash, seqNo: U64, end: Endorsement, readKeys: seq<Key>, writeKeys: seq<Key>)
      modifies this`tracked
      ensures View() == DepGraphModel.KeepEndorsement(old(View()), hash, seqNo, end, readKeys, writeKeys)
    {
      if hash in tracked {
        tracked := tracked[hash := Tracked(tracked[hash].node, Some(end), seqNo, readKeys, writeKeys)];
      }
    }

    /** Hands an endorsement over once, if nothing it read was overwritten since. */
    method ReusableEndorsement(hash: Hash) returns (end: Option<Endorsement>)
      modifies this`tracked
      ensures (View(), end) == DepGraphModel.ReusableEndorsement(old(View()), hash)
    {
      if hash !in tracked || tracked[hash].end == None {
        return None;
      }
      var t := tracked[hash];
      tracked := tracked[hash := t.(end := None)];
      if Sub64(commitSeq, t.readSeq) >= REUSE_WINDOW {
        return None;
      }
      var i := 0;
      while i < |t.readKeys|
        invariant i <= |t.readKeys|
        invariant forall j :: 0 <= j < i ==> LastWrite(lastWrite, t.readKeys[j]) <= t.readSeq
      {
        if LastWrite(lastWrite, t.readKeys[i]) > t.readSeq {
          return None;
        }
        i := i + 1;
      }
      return t.end;
    }

    /** Counts one block: forgets the keys of the block leaving the window, notes the new ones. */
    method RecordCommitted(txs: seq<Committed>)
      requires Valid()
      modifies this`commitSeq, this`lastWrite, recent
      ensures View().window == Record(old(View().window), BlockKeys(tracked, txs))
    {
      commitSeq := Inc(commitSeq);
      var slot := commitSeq % REUSE_WINDOW;
      Forget(recent[slot], Sub64(commitSeq, REUSE_WINDOW));
      ghost var base := lastWrite;
      recent[slot] := [];
      var t := 0;
      while t < |txs|
        invariant t <= |txs| && commitSeq == Inc(old(commitSeq))
        invariant recent[..] == old(recent[..])[slot := BlockKeys(tracked, txs[..t])]
        invariant recent[slot] == BlockKeys(tracked, txs[..t])
        invariant lastWrite == Mark(base, recent[slot], commitSeq)
      {
        assert txs[..t + 1][..t] == txs[..t];
        assert recent[slot] + [] == recent[slot];
        if txs[t].valid && txs[t].hash in tracked {
          Note(tracked[txs[t].hash].writeKeys, slot, base);
        }
        t := t + 1;
      }
      assert txs[..t] == txs;
    }

    method Forget(keys: seq<Key>, oldest: U64)
      modifies this`lastWrite
      ensures lastWrite == Evict(old(lastWrite), keys, oldest)
    {
      var i := 0;
      while i < |keys|
        invariant i <= |keys| && lastWrite == Evict(old(lastWrite), keys[..i], oldest)
      {
        assert keys[..i + 1][..i] == keys[..i];
        if LastWrite(lastWrite, keys[i]) == oldest {
          lastWrite := lastWrite - {keys[i]};
        }
        i := i + 1;
      }
      assert keys[..i] == keys;
    }

    /** Marks keys as written by the current block. */
    method Note(keys: seq<Key>, slot: nat, ghost base: map<Key, U64>)
      requires Valid() && slot < REUSE_WINDOW && lastWrite == Mark(base, recent[slot], commitSeq)
      modifies this`lastWrite, recent
      ensures recent[..] == old(recent[..])[slot := old(recent[slot]) + keys]
      ensures lastWrite == Mark(base, recent[slot], commitSeq)
    {
      var i := 0;
      assert old(recent[slot]) + keys[..0] == recent[slot];
      while i < |keys|
        invariant i <= |keys|
        invariant recent[..] == old(recent[..])[slot := old(recent[slot]) + keys[..i]]
        invariant lastWrite == Mark(base, recent[slot], commitSeq)
      {
        var grown := recent[slot] + [keys[i]];
        assert grown[..|grown| - 1] == recent[slot];
        assert old(recent[slot]) + keys[..i + 1] == grown;
        lastWrite := lastWrite[keys[i] := commitSeq];
        recent[slot] := grown;
        i := i + 1;
      }
      assert keys[..i] == keys;
    }

    /** Files released nodes; nodes nobody waits for go straight back. */
    method MarkReady(nodes: seq<Released>)
      modifies this`tracked, this`ready, this`validated
      ensures View() == DepGraphModel.MarkReady(old(View()), nodes).0
      ensures validated == old(validated) + DepGraphModel.MarkReady(old(View()), nodes).1
    {
      var orphans := [];
      var i := 0;
      while i < |nodes|
        invariant i <= |nodes| && validated == old(validated)
        invariant (View(), orphans) == DepGraphModel.MarkReady(old(View()), nodes[..i])
      {
        assert nodes[..i + 1][..i] == nodes[..i];
        var r := nodes[i];
        if r.ref == None || r.ref.value !in tracked {
          orphans := orphans + [r.node];
        } else {
          tracked := tracked[r.ref.value := tracked[r.ref.value].(node := Some(r.node))];
          ready := ready + [r.ref.value];
        }
        i := i + 1;
      }
      assert nodes[..i] == nodes;
      Release(orphans);
    }

    /** Untracks each hash and returns the nodes that still need feeding back. */
    method TakeNodes(hashes: seq<Hash>) returns (nodes: seq<Node>)
      modifies this`tracked
      ensures (View(), nodes) == DepGraphModel.TakeNodes(old(View()), hashes)
    {
      nodes := [];
      var i := 0;
      while i < |hashes|
        invariant i <= |hashes|
        invariant (View(), nodes) == DepGraphModel.TakeNodes(old(View()), hashes[..i])
      {
        assert hashes[..i + 1][..i] == hashes[..i];
        if hashes[i] in tracked {
          var held := tracked[hashes[i]].node;
          nodes := nodes + if held == None then [] else [held.value];
          tracked := tracked - {hashes[i]};
        }
        i := i + 1;
      }
      assert hashes[..i] == hashes;
    }

    method Release(nodes: seq<Node>)
      modifies this`validated
      ensures validated == old(validated) + nodes
    {
      if |nodes| > 0 {
        validated := validated + nodes;
      }
    }

    method Complete(hash: Hash)
      modifies this`tracked, this`validated
      ensures View() == DepGraphModel.TakeNodes(old(View()), [hash]).0
      ensures validated == old(validated) + DepGraphModel.TakeNodes(old(View()), [hash]).1
    {
      var nodes := TakeNodes([hash]);
      Release(nodes);
    }

    /** Tells the manager what committed, in one pass over the block. */
    method Handle(txs: seq<Committed>)
      requires Valid()
      modifies this, recent
      ensures View() == DepGraphModel.Handle(old(View()), txs).0
      ensures validated == old(validated) + DepGraphModel.Handle(old(View()), txs).1
    {
      if |txs| == 0 {
        return;
      }
      RecordCommitted(txs);
      var nodes := TakeNodes(Hashes(txs));
      Release(nodes);
    }
  }
}
