/** The in-memory store: a tip, a ring of earlier snapshots, and one writer. */
module LightKVS {
  import opened Prelude
  import opened Records
  import opened WorldLog
  import opened LightModel

  /** Applies a batch, giving each write the key's previous version plus one, within the batch too. */
  method ApplyUpdates(oldData: map<Key, Record>, updates: seq<Update>) returns (newData: map<Key, Record>)
    ensures newData == ApplyAll(oldData, updates)
  {
    newData := oldData;
    var nextVersion: map<Key, U64> := map[];
    var i := 0;
    while i < |updates|
      invariant i <= |updates| && newData == ApplyAll(oldData, updates[..i])
      invariant forall k :: k in nextVersion ==> k in newData && nextVersion[k] == Inc(newData[k].version)
      invariant forall k :: k !in nextVersion ==> Lookup(newData, k) == Lookup(oldData, k)
    {
      var update := updates[i];
      var version: U64 := 0;
      if update.key in nextVersion {
        version := nextVersion[update.key];
      } else if update.key in oldData {
        assert Lookup(newData, update.key) == Lookup(oldData, update.key);
        version := Inc(oldData[update.key].version);
      } else {
        assert Lookup(newData, update.key) == Lookup(oldData, update.key);
      }
      TakeNext(updates, i);
      Append(updates[..i], update);
      nextVersion := nextVersion[update.key := Inc(version)];
      newData := newData[update.key := ToRecord(update, version)];
      i := i + 1;
    }
    assert updates[..i] == updates;
  }

  /** Checks a redelivery of the tip: the last write of each key must be in place. */
  method VerifyReplay(current: Snapshot, updates: seq<Update>) returns (ok: bool)
    ensures ok <==> ReplayOk(current.data, updates)
  {
    var final: map<Key, Update> := map[];
    var i := 0;
    while i < |updates|
      invariant i <= |updates| && final == Final(updates[..i])
    {
      TakeNext(updates, i);
      Append(updates[..i], updates[i]);
      final := final[updates[i].key := updates[i]];
      i := i + 1;
    }
    assert updates[..i] == updates;
    var keys := final.Keys;
    while keys != {}
      invariant keys <= final.Keys
      invariant forall k :: k in final && k !in keys ==> InPlace(current.data, final[k])
      decreases keys
    {
      var key :| key in keys;
      if !InPlace(current.data, final[key]) {
        return false;
      }
      keys := keys - {key};
    }
    return true;
  }

  class LightKVS {
    var current: Snapshot
    var history: array<Option<Snapshot>>
    var nextIndex: nat

    ghost function View(): Light
      reads this, history
    {
      Light(current, history[..], nextIndex)
    }

    ghost predicate Valid()
      reads this
    {
      nextIndex < history.Length
    }

    /** A ring without slots is made as well, but crashes on the first block. */
    constructor (size: nat)
      ensures View() == NewLight(size) && fresh(history) && (Valid() <==> size > 0)
    {
      current := Before;
      history := new Option<Snapshot>[size](_ => None);
      nextIndex := 0;
    }

    method NewSnapshot(block: Option<U64>) returns (r: Option<Snapshot>)
      ensures r == LightModel.NewSnapshot(View(), block)
    {
      if block == None || block.value >= current.block {
        return Some(current);
      }
      var i := 0;
      while i < history.Length
        invariant i <= history.Length
        invariant FindExact(history[..], block.value) == FindExact(history[i..], block.value)
      {
        assert history[i..][1..] == history[i + 1..];
        if history[i].Some? && history[i].value.block == block.value {
          return history[i];
        }
        i := i + 1;
      }
      return None;
    }

    /** Advances even when there is nothing to write. */
    method ApplyBlock(block: U64, updates: seq<Update>)
      requires Valid()
      modifies this, history
      ensures Valid() && history == old(history) && View() == LightModel.ApplyBlock(old(View()), block, updates)
    {
      var data := ApplyUpdates(current.data, updates);
      history[nextIndex] := Some(current);
      nextIndex := (nextIndex + 1) % history.Length;
      current := Snapshot(block, data, false);
    }

    method Handle(b: Block) returns (ok: bool)
      requires Valid()
      modifies this, history
      ensures Valid() && history == old(history) && (View(), ok) == LightModel.Handle(old(View()), b)
    {
      if !current.placeholder && b.number < current.block {
        return true;
      }
      var updates := CollectBlock(b);
      if !current.placeholder && b.number == current.block {
        ok := VerifyReplay(current, updates);
        return;
      }
      ApplyBlock(b.number, updates);
      return true;
    }
  }
}
