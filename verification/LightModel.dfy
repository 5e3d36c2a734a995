/** Whole-map snapshots, the check of a redelivered block, and the ring of recent snapshots. */
module LightModel {
  import opened Prelude
  import opened Records
  import opened WorldLog

  /** An immutable state of the store; only the one before the first block is a placeholder. */
  datatype Snapshot = Snapshot(block: U64, data: map<Key, Record>, placeholder: bool)

  const Before := Snapshot(0, map[], true)

  /* ---- a redelivered block ---- */

  /** The last write of each key. */
  function Final(ups: seq<Update>): map<Key, Update> {
    if ups == [] then map[] else var n := |ups| - 1; Final(ups[..n])[ups[n].key := ups[n]]
  }

  /** A write already in place: same transaction, same tombstone, and the same bytes unless it is one. */
  predicate InPlace(data: map<Key, Record>, u: Update) {
    && u.key in data && data[u.key].isDelete == u.isDelete && data[u.key].txId == u.txId
    && (u.isDelete || Raw(data[u.key].value) == Raw(u.value))
  }

  ghost predicate ReplayOk(data: map<Key, Record>, ups: seq<Update>) {
    forall k :: k in Final(ups) ==> InPlace(data, Final(ups)[k])
  }

  lemma {:induction false} FinalKey(ups: seq<Update>, k: Key)
    requires k in Final(ups)
    ensures Final(ups)[k].key == k && Final(ups)[k] in ups
  {
    var n := |ups| - 1;
    if ups[n].key != k {
      FinalKey(ups[..n], k);
    }
  }

  /** After a batch, each key it wrote holds the batch's last write of that key. */
  lemma {:induction false} FinalApplied(data: map<Key, Record>, ups: seq<Update>, k: Key)
    requires k in Final(ups)
    ensures k in ApplyAll(data, ups)
    ensures var r := ApplyAll(data, ups)[k]; ToRecord(Final(ups)[k], r.version) == r
  {
    var n := |ups| - 1;
    if ups[n].key != k {
      FinalApplied(data, ups[..n], k);
    }
  }

  /** A batch just applied passes the check. */
  lemma {:induction false} AppliedReplays(data: map<Key, Record>, ups: seq<Update>)
    ensures ReplayOk(ApplyAll(data, ups), ups)
  {
    forall k | k in Final(ups)
      ensures InPlace(ApplyAll(data, ups), Final(ups)[k])
    {
      FinalKey(ups, k);
      FinalApplied(data, ups, k);
    }
  }

  /* ---- the ring ---- */

  datatype Light = Light(current: Snapshot, history: seq<Option<Snapshot>>, nextIndex: nat)

  function NewLight(size: nat): Light {
    Light(Before, seq(size, _ => None), 0)
  }

  /** The ring index is usable. */
  predicate RingOk(s: Light) {
    s.nextIndex < |s.history|
  }

  /** The first slot holding a snapshot of exactly this block. */
  function FindExact(history: seq<Option<Snapshot>>, block: U64): Option<Snapshot> {
    if history == [] then None
    else if history[0].Some? && history[0].value.block == block then history[0]
    else FindExact(history[1..], block)
  }

  /** None asks for the tip; a height at or past the tip gets the tip as well. */
  function NewSnapshot(s: Light, block: Option<U64>): Option<Snapshot> {
    if block == None || block.value >= s.current.block then Some(s.current) else FindExact(s.history, block.value)
  }

  /** The old tip goes into the next slot. */
  function ApplyBlock(s: Light, block: U64, ups: seq<Update>): Light
    requires RingOk(s)
  {
    Light(Snapshot(block, ApplyAll(s.current.data, ups), false),
          s.history[s.nextIndex := Some(s.current)],
          if s.nextIndex + 1 == |s.history| then 0 else s.nextIndex + 1)
  }

  /** Older blocks are skipped, the tip is checked, a newer one applied; the flag is whether it succeeds. */
  ghost function Handle(s: Light, b: Block): (Light, bool)
    requires RingOk(s)
  {
    if !s.current.placeholder && b.number < s.current.block then (s, true)
    else if !s.current.placeholder && b.number == s.current.block then (s, ReplayOk(s.current.data, BlockUpdates(b)))
    else (ApplyBlock(s, b.number, BlockUpdates(b)), true)
  }

  ghost function Run(s: Light, bs: seq<Block>): (s': Light)
    requires RingOk(s)
    ensures RingOk(s') && |s'.history| == |s.history|
  {
    if bs == [] then s else var n := |bs| - 1; Handle(Run(s, bs[..n]), bs[n]).0
  }
}
