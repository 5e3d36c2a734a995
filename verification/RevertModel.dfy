/** The store that can be rewound: an oldest-first window of snapshots, and a merge that keeps versions. */
module RevertModel {
  import opened Prelude
  import opened Records
  import opened WorldLog
  import opened LightModel

  /* ---- looking for a height ---- */

  /** The last slot of exactly this block, and the first slot of the highest block below it. */
  function Scan(history: seq<Option<Snapshot>>, block: U64): (r: (Option<nat>, Option<nat>))
    ensures r.0.Some? ==> r.0.value < |history| && history[r.0.value].Some?
    ensures r.1.Some? ==> r.1.value < |history| && history[r.1.value].Some?
  {
    if history == [] then (None, None)
    else
      var n := |history| - 1;
      var r := Scan(history[..n], block);
      if history[n] == None then r
      else if history[n].value.block == block then (Some(n), r.1)
      else if history[n].value.block < block
              && (r.1 == None || history[n].value.block > history[r.1.value].value.block) then (r.0, Some(n))
      else r
  }

  function NearestSnapshot(s: Light, block: Option<U64>): Option<Snapshot> {
    if block == None || block.value >= s.current.block then Some(s.current)
    else
      var found := Scan(s.history, block.value);
      if found.0.Some? then s.history[found.0.value]
      else if found.1.Some? then s.history[found.1.value]
      else None
  }

  /* ---- new blocks ---- */

  /** The window index is usable. */
  predicate WindowOk(s: Light) {
    s.nextIndex <= |s.history|
  }

  /** Appends the old tip; a full window forgets its oldest. */
  function ApplySequential(s: Light, block: U64, ups: seq<Update>): Light
    requires WindowOk(s)
  {
    var tip := Snapshot(block, ApplyAll(s.current.data, ups), false);
    if s.history == [] then s.(current := tip)
    else if s.nextIndex == |s.history| then Light(tip, s.history[1..] + [Some(s.current)], s.nextIndex)
    else Light(tip, s.history[s.nextIndex := Some(s.current)], s.nextIndex + 1)
  }

  ghost function HandleSequential(s: Light, b: Block): (Light, bool)
    requires WindowOk(s)
  {
    if !s.current.placeholder && b.number < s.current.block then (s, true)
    else if !s.current.placeholder && b.number == s.current.block then (s, ReplayOk(s.current.data, BlockUpdates(b)))
    else (ApplySequential(s, b.number, BlockUpdates(b)), true)
  }

  /* ---- rewinding ---- */

  /** The target's value, or a tombstone if it had none; everything else stays, the version above all. */
  function MergeRecord(current: Record, target: Option<Record>): Record {
    if target.Some? then current.(value := target.value.value, isDelete := target.value.isDelete)
    else current.(value := None, isDelete := true)
  }

  function Merge(current: map<Key, Record>, target: map<Key, Record>): map<Key, Record> {
    map k | k in current :: MergeRecord(current[k], Lookup(target, k))
  }

  /** The slots from i up to n emptied. */
  function Cleared(history: seq<Option<Snapshot>>, i: nat, n: nat): seq<Option<Snapshot>>
    requires i <= n <= |history|
  {
    history[..i] + seq(n - i, _ => None) + history[n..]
  }

  /** The slot to rewind to: exactly this block, or for a past height the nearest below it. */
  function TargetSlot(s: Light, block: U64): (t: Option<nat>)
    ensures t.Some? ==> t.value < |s.history| && s.history[t.value].Some?
  {
    var found := Scan(s.history, block);
    if found.0.Some? then found.0 else if block < s.current.block then found.1 else None
  }

  function RevertToBlock(s: Light, block: U64): (Light, bool)
    requires WindowOk(s)
  {
    if s.current.block == block then (s, true)
    else
      match TargetSlot(s, block)
      case None => (s, false)
      case Some(t) =>
        var tip := Snapshot(block, Merge(s.current.data, s.history[t].value.data), false);
        (Light(tip, if t <= s.nextIndex then Cleared(s.history, t, s.nextIndex) else s.history, t), true)
  }
}
