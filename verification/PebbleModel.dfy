/** The persistent store as a map whose commits are atomic. */
module PebbleModel {
  import opened Prelude
  import opened Records
  import opened LightModel
  import opened LogTime
  import opened KeyCodec

  // There is one current record per key; superseded records are kept aside, with an index of them by the block that
  // created them, and readers pin heights.

  datatype Cell = Rec(r: Record) | Num(n: U64) | Nothing

  type Db = map<DbKey, Cell>

  /** oldest is the lowest height still answerable; pins counts the open readers at each height. */
  datatype Pebble = Pebble(db: Db, size: nat, head: U64, started: bool, oldest: U64, pins: map<U64, nat>)

  const DEFAULT_SIZE := 128

  function CellAt(db: Db, x: DbKey): Option<Cell> {
    if x in db then Some(db[x]) else None
  }

  function RecordAt(db: Db, x: DbKey): Option<Record> {
    if x in db && db[x].Rec? then Some(db[x].r) else None
  }

  function Current(db: Db, k: Key): Option<Record> {
    RecordAt(db, DataKey(k))
  }

  function NumberAt(db: Db, x: DbKey): Option<U64> {
    if x in db && db[x].Num? then Some(db[x].n) else None
  }

  /** Opens a database: what was committed, no readers. */
  function Open(db: Db, size: int): Pebble {
    var head, oldest := NumberAt(db, MetaBlock), NumberAt(db, MetaOldest);
    Pebble(db, if size <= 0 then DEFAULT_SIZE else size,
           if head.Some? then head.value else 0, head.Some?, if oldest.Some? then oldest.value else 0, map[])
  }

  /* ---- committing ---- */

  /** Keeps a superseded record, named by the block that supersedes it. */
  function StageHistory(batch: Db, block: U64, k: Key, prev: Record): Db {
    batch[HistKey(k, prev.block, prev.tx) := Rec(prev)][IndexKey(block, k, prev.block, prev.tx) := Nothing]
  }

  /** One write: the key's first in the block also keeps what it supersedes. */
  function StageOne(db: Db, batch: Db, block: U64, first: bool, u: Update): Db {
    var prev, last := Current(db, u.key), Current(batch, u.key);
    var b := if first && prev.Some? then StageHistory(batch, block, u.key, prev.value) else batch;
    b[DataKey(u.key) := Rec(ToRecord(u, if last == None then 0 else Inc(last.value.version)))]
  }

  /** The batch after a block's writes. */
  function Staged(db: Db, block: U64, ups: seq<Update>): Db {
    if ups == [] then db
    else
      var n := |ups| - 1;
      StageOne(db, Staged(db, block, ups[..n]), block, !Wrote(ups[..n], ups[n].key), ups[n])
  }

  /** The lowest height a reader is pinned to, or the greatest there is. */
  ghost function Lowest(pins: set<U64>): U64 {
    if pins == {} then MAX_U64
    else
      var p :| p in pins;
      var q := Lowest(pins - {p});
      if p < q then p else q
  }

  lemma {:induction false} LowestIs(pins: set<U64>)
    ensures (Lowest(pins) in pins || Lowest(pins) == MAX_U64) && forall p :: p in pins ==> Lowest(pins) <= p
  {
    if pins != {} {
      var p :| p in pins && Lowest(pins) == if p < Lowest(pins - {p}) then p else Lowest(pins - {p});
      LowestIs(pins - {p});
      forall q | q in pins
        ensures Lowest(pins) <= q
      {
        assert q == p || q in pins - {p};
      }
    }
  }

  lemma {:induction false} LowestUnique(pins: set<U64>, low: U64)
    requires (low in pins || low == MAX_U64) && forall p :: p in pins ==> low <= p
    ensures low == Lowest(pins)
  {
    LowestIs(pins);
  }

  /** How far a commit prunes: what leaves the window, but nothing an open reader needs. */
  ghost function Cutoff(p: Pebble, block: U64): Option<U64> {
    if block < p.size + 1 then None
    else
      var c, pin := block - p.size - 1, Lowest(p.pins.Keys);
      Some(if pin < c then pin else c)
  }

  /** An entry the committed index dates at or below the cutoff. */
  ghost predicate Aged(db: Db, x: DbKey, cutoff: U64) {
    || (x.IndexKey? && x in db && x.creator <= cutoff)
    || (x.HistKey? && exists c: U64 :: c <= cutoff && IndexKey(c, x.k, x.block, x.tx) in db)
  }

  ghost function Pruned(db: Db, batch: Db, cutoff: U64): Db {
    map x | x in batch && !Aged(db, x, cutoff) :: batch[x]
  }

  /** The new lower bound of the window, which never falls. */
  function NewOldest(oldest: U64, cutoff: Option<U64>): U64 {
    if cutoff.Some? && cutoff.value >= oldest && cutoff.value < MAX_U64 then cutoff.value + 1 else oldest
  }

  /** A batch pruned, with the lower bound recorded if it rose. */
  ghost function PrunedBatch(p: Pebble, batch: Db, block: U64): Db {
    var cutoff := Cutoff(p, block);
    var pruned := if cutoff.Some? then Pruned(p.db, batch, cutoff.value) else batch;
    var oldest := NewOldest(p.oldest, cutoff);
    if oldest > p.oldest then pruned[MetaOldest := Num(oldest)] else pruned
  }

  /** One atomic batch: the writes, what they supersede, the prune and the checkpoint. */
  ghost function Commit(p: Pebble, block: U64, ups: seq<Update>): Pebble {
    p.(db := PrunedBatch(p, Staged(p.db, block, ups), block)[MetaBlock := Num(block)],
       head := block, started := true, oldest := NewOldest(p.oldest, Cutoff(p, block)))
  }

  /** The stored record is this write. */
  predicate Stored(db: Db, u: Update) {
    var r := Current(db, u.key);
    && r.Some? && r.value.block == u.block && r.value.isDelete == u.isDelete
    && Raw(r.value.value) == Raw(u.value) && r.value.txId == u.txId
  }

  ghost predicate TipReplayOk(db: Db, ups: seq<Update>) {
    forall k :: k in Final(ups) ==> Stored(db, Final(ups)[k])
  }

  ghost function CommitBlock(p: Pebble, block: U64, ups: seq<Update>): (Pebble, bool) {
    if p.started && block < p.head then (p, true)
    else if p.started && block == p.head then (p, TipReplayOk(p.db, ups))
    else (Commit(p, block, ups), true)
  }

  /* ---- readers ---- */

  /** The height a request is served at. */
  function Height(p: Pebble, block: Option<U64>): U64 {
    if block.Some? && block.value < p.head then block.value else p.head
  }

  function PinCount(pins: map<U64, nat>, h: U64): nat {
    if h in pins then pins[h] else 0
  }

  /** Pins the height, unless it was pruned. */
  function NewSnapshot(p: Pebble, block: Option<U64>): Option<Pebble> {
    var h := Height(p, block);
    if h < p.oldest then None else Some(p.(pins := p.pins[h := PinCount(p.pins, h) + 1]))
  }

  function Release(p: Pebble, h: U64): Pebble {
    p.(pins := if PinCount(p.pins, h) > 1 then p.pins[h := p.pins[h] - 1] else p.pins - {h})
  }

  /** The first read of Get settles it when the current record is not newer than the reader. */
  predicate Hit(db: Db, k: Key, h: U64) {
    Current(db, k).Some? && Current(db, k).value.block <= h
  }

  /** (block, tx) names the newest kept record of k at or below h. */
  ghost predicate Newest(db: Db, k: Key, h: U64, block: U64, tx: U64) {
    && HistKey(k, block, tx) in db && block <= h
    && forall b: U64, t: U64 :: HistKey(k, b, t) in db && b <= h ==> b < block || (b == block && t <= tx)
  }

  /** What the second read of Get, the scan of the history, may return. */
  ghost predicate Scanned(db: Db, k: Key, h: U64, r: Option<Record>) {
    || (r == None && forall b: U64, t: U64 :: HistKey(k, b, t) in db ==> b > h)
    || exists b: U64, t: U64 :: Newest(db, k, h, b, t) && RecordAt(db, HistKey(k, b, t)) == r && r.Some?
  }
}
