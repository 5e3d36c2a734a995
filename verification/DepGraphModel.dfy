/** The steps the dependency-graph queue takes under its lock, as functions of its state. */
module DepGraphModel {
  import opened Prelude

  // They decide which nodes of the external manager the queue holds, and which endorsements can be reused.

  type Hash = nat
  type Key = string
  type Node = nat
  type Endorsement = nat

  /** How many blocks an endorsement can be reused across. */
  const REUSE_WINDOW: nat := 64

  /** One transaction between Enqueue and Complete. */
  datatype Tracked = Tracked(node: Option<Node>, end: Option<Endorsement>, readSeq: U64, readKeys: seq<Key>,
                             writeKeys: seq<Key>)

  const FreshTracked := Tracked(None, None, 0, [], [])

  /** commitSeq counts blocks, lastWrite maps a key to the block that last wrote it, recent lists keys by block. */
  datatype Window = Window(commitSeq: U64, lastWrite: map<Key, U64>, recent: seq<seq<Key>>)

  datatype Queue = Queue(tracked: map<Hash, Tracked>, ready: seq<Hash>, window: Window)

  /** A committed transaction as a block reports it. */
  datatype Committed = Committed(hash: Hash, valid: bool)

  /** A node the manager released; the reference may be one this queue never made. */
  datatype Released = Released(node: Node, ref: Option<Hash>)

  /* ---- the reuse window ---- */

  /** Go's uint64 subtraction. */
  function Sub64(a: U64, b: U64): U64 {
    if a >= b then a - b else TWO_64 + a - b
  }

  function LastWrite(lastWrite: map<Key, U64>, k: Key): U64 {
    if k in lastWrite then lastWrite[k] else 0
  }

  /** Drops the keys whose last write is the block falling out of the window. */
  function Evict(lastWrite: map<Key, U64>, keys: seq<Key>, oldest: U64): map<Key, U64> {
    if keys == [] then lastWrite
    else
      var n := |keys| - 1;
      var m := Evict(lastWrite, keys[..n], oldest);
      if LastWrite(m, keys[n]) == oldest then m - {keys[n]} else m
  }

  function Mark(lastWrite: map<Key, U64>, keys: seq<Key>, now: U64): map<Key, U64> {
    if keys == [] then lastWrite
    else var n := |keys| - 1; Mark(lastWrite, keys[..n], now)[keys[n] := now]
  }

  /** The keys the valid tracked transactions of a block wrote. */
  function BlockKeys(tracked: map<Hash, Tracked>, txs: seq<Committed>): seq<Key> {
    if txs == [] then []
    else
      var n := |txs| - 1;
      BlockKeys(tracked, txs[..n])
      + if txs[n].valid && txs[n].hash in tracked then tracked[txs[n].hash].writeKeys else []
  }

  /** Counts one block that wrote these keys. */
  function Record(w: Window, keys: seq<Key>): (r: Window)
    requires |w.recent| == REUSE_WINDOW
    ensures |r.recent| == REUSE_WINDOW
  {
    var now := Inc(w.commitSeq);
    var slot := now % REUSE_WINDOW;
    Window(now, Mark(Evict(w.lastWrite, w.recent[slot], Sub64(now, REUSE_WINDOW)), keys, now), w.recent[slot := keys])
  }

  /** Whether the endorsement of t is still current. */
  predicate Current(w: Window, t: Tracked) {
    && Sub64(w.commitSeq, t.readSeq) < REUSE_WINDOW
    && forall i :: 0 <= i < |t.readKeys| ==> LastWrite(w.lastWrite, t.readKeys[i]) <= t.readSeq
  }

  function KeepEndorsement(q: Queue, hash: Hash, readSeq: U64, end: Endorsement, readKeys: seq<Key>,
                           writeKeys: seq<Key>): Queue {
    if hash !in q.tracked then q
    else q.(tracked := q.tracked[hash := Tracked(q.tracked[hash].node, Some(end), readSeq, readKeys, writeKeys)])
  }

  /** The endorsement handed over, and the queue without it. */
  function ReusableEndorsement(q: Queue, hash: Hash): (Queue, Option<Endorsement>) {
    if hash !in q.tracked || q.tracked[hash].end == None then (q, None)
    else
      var t := q.tracked[hash];
      (q.(tracked := q.tracked[hash := t.(end := None)]), if Current(q.window, t) then t.end else None)
  }

  /* ---- nodes ---- */

  /** Files released nodes with their transactions; those without one come back as orphans. */
  function MarkReady(q: Queue, nodes: seq<Released>): (Queue, seq<Node>) {
    if nodes == [] then (q, [])
    else
      var n := |nodes| - 1;
      var (q', orphans) := MarkReady(q, nodes[..n]);
      var r := nodes[n];
      if r.ref == None || r.ref.value !in q'.tracked then (q', orphans + [r.node])
      else
        var t := q'.tracked[r.ref.value];
        (q'.(tracked := q'.tracked[r.ref.value := t.(node := Some(r.node))], ready := q'.ready + [r.ref.value]),
         orphans)
  }

  /** Untracks each hash and collects the nodes to feed back. */
  function TakeNodes(q: Queue, hashes: seq<Hash>): (Queue, seq<Node>) {
    if hashes == [] then (q, [])
    else
      var n := |hashes| - 1;
      var (q', nodes) := TakeNodes(q, hashes[..n]);
      if hashes[n] !in q'.tracked then (q', nodes)
      else
        var held := q'.tracked[hashes[n]].node;
        (q'.(tracked := q'.tracked - {hashes[n]}), nodes + if held == None then [] else [held.value])
  }

  function Hashes(txs: seq<Committed>): (hs: seq<Hash>)
    ensures |hs| == |txs| && forall i :: 0 <= i < |txs| ==> hs[i] == txs[i].hash
  {
    seq(|txs|, i requires 0 <= i < |txs| => txs[i].hash)
  }

  /** Records the block's writes, then untracks its transactions; an empty block changes nothing. */
  function Handle(q: Queue, txs: seq<Committed>): (Queue, seq<Node>)
    requires |q.window.recent| == REUSE_WINDOW
  {
    if txs == [] then (q, [])
    else TakeNodes(q.(window := Record(q.window, BlockKeys(q.tracked, txs))), Hashes(txs))
  }

  const NoBlocks := Window(0, map[], seq(REUSE_WINDOW, _ => []))

  const EmptyQueue := Queue(map[], [], NoBlocks)
}
