/** The queue as the object the gateway uses: fields updated in place under one lock. */
module TxQueueV2 {
  import opened Prelude
  import opened TxQueueModel
  import opened TxQueueSafety
  import opened TxQueueRuns

  /** Swap-with-last removal of the first occurrence. */
  method RemoveFirst(slice: seq<Ref>, target: Ref) returns (r: seq<Ref>)
    ensures r == RemoveFromSlice(slice, target)
  {
    var i := 0;
    while i < |slice|
      invariant i <= |slice| && target !in slice[..i]
    {
      if slice[i] == target {
        assert slice == slice[..i] + slice[i..];
        assert FirstIndex(slice, target) == i;
        var last := |slice| - 1;
        return slice[i := slice[last]][..last];
      }
      i := i + 1;
    }
    assert slice == slice[..i];
    return slice;
  }

  class TxQueueV2 {
    var heap: map<Ref, Entry>
    var next: Ref
    var readyList: seq<Ref>
    var waitingList: seq<Ref>
    var participantMap: map<Address, seq<Ref>>
    var hashMap: map<Hash, Ref>
    var pendingMap: map<Hash, Tx>
    var done: bool

    ghost function View(): Queue
      reads this
    {
      Queue(heap, next, readyList, waitingList, participantMap, hashMap, pendingMap)
    }

    ghost predicate Valid()
      reads this
    {
      Inv(View())
    }

    constructor ()
      ensures Valid() && View() == Empty && !done
    {
      heap, next, readyList, waitingList := map[], 0, [], [];
      participantMap, hashMap, pendingMap, done := map[], map[], map[], false;
    }

    /** Splits one participant's list into entries to wait for and entries to hold back. */
    method Classify(txs: seq<Ref>) returns (conflicts: set<Ref>, waiting: seq<Ref>)
      requires forall r :: r in txs ==> r in heap
      ensures conflicts == InFlightOf(heap, txs) && waiting == WaitingOf(heap, txs)
    {
      conflicts, waiting := {}, [];
      var j := 0;
      while j < |txs|
        invariant j <= |txs|
        invariant conflicts == InFlightOf(heap, txs[..j]) && waiting == WaitingOf(heap, txs[..j])
      {
        assert txs[..j + 1] == txs[..j] + [txs[j]];
        assert txs[..j + 1][..j] == txs[..j];
        if InFlight(heap[txs[j]]) {
          conflicts := conflicts + {txs[j]};
        } else {
          waiting := waiting + [txs[j]];
        }
        j := j + 1;
      }
      assert txs[..j] == txs;
    }

    /** Finds the in-flight entries to wait for and the waiting entries to hold back. */
    method FindSharers(participants: seq<Address>) returns (conflicts: set<Ref>, waiting: seq<Ref>)
      requires Allocated(View())
      ensures conflicts == Conflicts(View(), participants)
      ensures waiting == WaitingSharers(View(), participants)
    {
      conflicts, waiting := {}, [];
      var i := 0;
      while i < |participants|
        invariant i <= |participants|
        invariant conflicts == Conflicts(View(), participants[..i])
        invariant waiting == WaitingSharers(View(), participants[..i])
      {
        var c, w := Classify(if participants[i] in participantMap then participantMap[participants[i]] else []);
        assert participants[..i + 1][..i] == participants[..i];
        conflicts, waiting := conflicts + c, waiting + w;
        i := i + 1;
      }
      assert participants[..i] == participants;
    }

    /** Accepts tx unless its hash is tracked; `order` is the order the conflict set was ranged over. */
    method Enqueue(tx: Tx) returns (accepted: bool, ghost order: seq<Ref>)
      requires Valid()
      modifies this
      ensures Valid() && done == old(done)
      ensures accepted <==> tx.hash !in old(hashMap)
      ensures !accepted ==> View() == old(View())
      ensures accepted ==>
                && Allocated(old(View()))
                && IterationOrder(order, Conflicts(old(View()), Participants(tx)))
                && View() == TxQueueModel.Enqueue(old(View()), tx, order)
    {
      order := [];
      if tx.hash in hashMap {
        return false, [];
      }
      InvAllocated(View());
      ghost var q := View();
      order := Insert(tx);
      EnqueueInv(q, tx, order);
      return true, order;
    }

    method Insert(tx: Tx) returns (ghost order: seq<Ref>)
      requires Allocated(View()) && tx.hash !in hashMap
      modifies this
      ensures IterationOrder(order, Conflicts(old(View()), Participants(tx)))
      ensures View() == TxQueueModel.Enqueue(old(View()), tx, order) && done == old(done)
    {
      var conflicts, waiting := FindSharers(Participants(tx));
      SharersAllocated(View(), Participants(tx));
      order := InsertBetween(tx, conflicts, waiting);
    }

    method InsertBetween(tx: Tx, conflicts: set<Ref>, waiting: seq<Ref>) returns (ghost order: seq<Ref>)
      requires (forall r :: r in conflicts ==> r in heap) && forall r :: r in waiting ==> r in heap
      modifies this
      ensures IterationOrder(order, conflicts) && done == old(done)
      ensures View() == Inserted(old(View()), tx, order, waiting)
    {
      var e := next;
      var isBlockedBy := WaitFor(conflicts, e);
      order := isBlockedBy;
      Hold(waiting, e);
      Place(e, Entry(tx, if conflicts == {} then Ready else Waiting, waiting, isBlockedBy));
      Index(Participants(tx), e);
    }

    /** Puts the new entry on the list of its status and under its hash. */
    method Place(e: Ref, entry: Entry)
      requires e == next && entry.status != Pending
      modifies this`heap, this`next, this`readyList, this`waitingList, this`hashMap
      ensures heap == old(heap)[e := entry] && next == e + 1 && hashMap == old(hashMap)[entry.tx.hash := e]
      ensures readyList == if entry.status == Ready then old(readyList) + [e] else old(readyList)
      ensures waitingList == if entry.status == Ready then old(waitingList) else old(waitingList) + [e]
    {
      heap := heap[e := entry];
      next := next + 1;
      if entry.status == Waiting {
        waitingList := waitingList + [e];
      } else {
        readyList := readyList + [e];
      }
      hashMap := hashMap[entry.tx.hash := e];
    }

    /** Adds e to the blocks list of every conflicting entry, in whatever order the set is ranged over. */
    method WaitFor(conflicts: set<Ref>, e: Ref) returns (isBlockedBy: seq<Ref>)
      requires forall r :: r in conflicts ==> r in heap
      modifies this`heap
      ensures IterationOrder(isBlockedBy, conflicts) && (conflicts == {} <==> isBlockedBy == [])
      ensures heap == AddBlocks(old(heap), isBlockedBy, e)
    {
      isBlockedBy := [];
      var rest := conflicts;
      while rest != {}
        invariant forall r :: r in isBlockedBy ==> r in old(heap)
        invariant heap == AddBlocks(old(heap), isBlockedBy, e)
        invariant |isBlockedBy| + |rest| == |conflicts|
        invariant NoDup(isBlockedBy) && rest <= conflicts && forall r :: r in isBlockedBy <==> r in conflicts - rest
        decreases rest
      {
        var c :| c in rest;
        assert c !in isBlockedBy;
        heap := heap[c := heap[c].(blocks := heap[c].blocks + [e])];
        isBlockedBy := isBlockedBy + [c];
        rest := rest - {c};
        assert isBlockedBy[..|isBlockedBy| - 1] + [c] == isBlockedBy;
      }
    }

    /** Makes every given waiting entry wait for e as well. */
    method Hold(waiting: seq<Ref>, e: Ref)
      requires forall r :: r in waiting ==> r in heap
      modifies this`heap
      ensures heap == AddBlockedBy(old(heap), waiting, e)
    {
      var i := 0;
      while i < |waiting|
        invariant i <= |waiting| && heap == AddBlockedBy(old(heap), waiting[..i], e)
      {
        var w := waiting[i];
        assert waiting[..i + 1][..i] == waiting[..i];
        heap := heap[w := heap[w].(isBlockedBy := heap[w].isBlockedBy + [e])];
        i := i + 1;
      }
      assert waiting[..i] == waiting;
    }

    method Index(participants: seq<Address>, e: Ref)
      modifies this`participantMap
      ensures participantMap == IndexUnder(old(participantMap), participants, e)
    {
      var i := 0;
      while i < |participants|
        invariant i <= |participants| && participantMap == IndexUnder(old(participantMap), participants[..i], e)
      {
        var p := participants[i];
        assert participants[..i + 1][..i] == participants[..i];
        participantMap := participantMap[p := (if p in participantMap then participantMap[p] else []) + [e]];
        i := i + 1;
      }
      assert participants[..i] == participants;
    }

    /** Hands out the oldest ready transaction; None once the queue is closed and nothing is ready.
        While it is open and empty the call waits, so it has no outcome to describe. */
    method Dequeue() returns (tx: Option<Tx>)
      requires Valid() && (readyList != [] || done)
      modifies this
      ensures Valid() && done == old(done)
      ensures tx == None <==> old(readyList) == []
      ensures tx == None ==> View() == old(View())
      ensures tx != None ==>
                && old(readyList)[0] in old(heap)
                && View() == TxQueueModel.Dequeue(old(View()))
                && tx.value == old(heap)[old(readyList)[0]].tx
    {
      if readyList == [] {
        return None;
      }
      DequeueInv(View());
      var t := PopReady();
      return Some(t);
    }

    method PopReady() returns (tx: Tx)
      requires readyList != [] && readyList[0] in heap
      modifies this
      ensures View() == TxQueueModel.Dequeue(old(View())) && done == old(done)
      ensures tx == old(heap)[old(readyList)[0]].tx
    {
      var e := readyList[0];
      var entry := heap[e];
      readyList := readyList[1..];
      heap := heap[e := entry.(status := Pending)];
      pendingMap := pendingMap[entry.tx.hash := entry.tx];
      return entry.tx;
    }

    /** Untracks a transaction and promotes what waited only for it. */
    method CompleteUnlocked(hash: Hash) returns (promoted: nat)
      requires BlocksAllocated(View())
      modifies this
      ensures View() == TxQueueModel.Complete(old(View()), hash) && done == old(done)
      ensures |readyList| == |old(readyList)| + promoted
    {
      promoted := 0;
      pendingMap := pendingMap - {hash};
      if hash !in hashMap {
        return;
      }
      var e := hashMap[hash];
      var participants := Participants(heap[e].tx);
      promoted := UnblockDependents(e, heap[e].blocks);
      Retire(e, hash, participants);
    }

    method Retire(e: Ref, hash: Hash, participants: seq<Address>)
      modifies this`hashMap, this`participantMap
      ensures View() == Retired(old(View()), e, hash, participants)
    {
      hashMap := hashMap - {hash};
      Unfile(participants, e);
    }

    method UnblockDependents(e: Ref, blocks: seq<Ref>) returns (promoted: nat)
      requires forall t :: t in blocks ==> t in heap
      modifies this
      ensures View() == UnblockAll(old(View()), e, blocks) && done == old(done)
      ensures |readyList| == |old(readyList)| + promoted
    {
      promoted := 0;
      var i := 0;
      while i < |blocks|
        invariant i <= |blocks| && heap.Keys == old(heap.Keys) && done == old(done)
        invariant View() == UnblockAll(old(View()), e, blocks[..i])
        invariant |readyList| == |old(readyList)| + promoted
      {
        assert blocks[..i + 1][..i] == blocks[..i];
        assert blocks[i] in blocks;
        var freed := UnblockOne(e, blocks[i]);
        promoted := promoted + if freed then 1 else 0;
        i := i + 1;
      }
      assert blocks[..i] == blocks;
    }

    method UnblockOne(e: Ref, b: Ref) returns (freed: bool)
      requires b in heap
      modifies this
      ensures View() == Unblock(old(View()), e, b) && done == old(done)
      ensures |readyList| == |old(readyList)| + if freed then 1 else 0
    {
      var left := RemoveFirst(heap[b].isBlockedBy, e);
      heap := heap[b := heap[b].(isBlockedBy := left)];
      freed := left == [];
      if freed {
        waitingList := Unlink(waitingList, b);
        heap := heap[b := heap[b].(status := Ready)];
        readyList := readyList + [b];
      }
    }

    method Unfile(participants: seq<Address>, e: Ref)
      modifies this`participantMap
      ensures participantMap == Unindex(old(participantMap), participants, e)
    {
      var i := 0;
      while i < |participants|
        invariant i <= |participants| && participantMap == Unindex(old(participantMap), participants[..i], e)
      {
        var p := participants[i];
        assert participants[..i + 1][..i] == participants[..i];
        if p in participantMap {
          var left := RemoveFirst(participantMap[p], e);
          participantMap := if left == [] then participantMap - {p} else participantMap[p := left];
        }
        i := i + 1;
      }
      assert participants[..i] == participants;
    }

    /** Consistent afterwards exactly when the hash was pending or unknown. */
    method Complete(hash: Hash)
      requires Valid()
      modifies this
      ensures BlocksAllocated(old(View())) && View() == TxQueueModel.Complete(old(View()), hash)
      ensures Valid() <==> Completable(old(View()), hash)
      ensures done == old(done)
    {
      CompleteInvIff(View(), hash);
      var _ := CompleteUnlocked(hash);
    }

    /** A committed block completes each of its transactions; consistent afterwards exactly when all of them were
        pending or unknown. */
    method Handle(txHashes: seq<Hash>)
      requires Valid()
      modifies this
      ensures BlocksAllocated(old(View())) && View() == TxQueueModel.Handle(old(View()), txHashes)
      ensures Valid() <==> forall h :: h in txHashes ==> Completable(old(View()), h)
      ensures done == old(done)
    {
      InvBlocksAllocated(View());
      var i := 0;
      while i < |txHashes|
        invariant i <= |txHashes| && BlocksAllocated(View()) && done == old(done)
        invariant View() == TxQueueModel.Handle(old(View()), txHashes[..i])
      {
        assert txHashes[..i + 1][..i] == txHashes[..i];
        CompleteBlocksAllocated(View(), txHashes[i]);
        var _ := CompleteUnlocked(txHashes[i]);
        i := i + 1;
      }
      assert txHashes[..i] == txHashes;
      HandleInvIff(old(View()), txHashes);
    }

    /** The transaction if it is ready, waiting or being processed. */
    method IsPending(hash: Hash) returns (tx: Option<Tx>)
      requires Valid()
      ensures tx == if hash in hashMap then Some(heap[hashMap[hash]].tx) else None
    {
      if hash in pendingMap {
        return Some(pendingMap[hash]);
      }
      if hash in hashMap {
        return Some(heap[hashMap[hash]].tx);
      }
      return None;
    }

    method Close()
      modifies this`done
      ensures done
    {
      done := true;
    }
  }
}
