/** The store that can be rewound, as an object around a LightKVS. */
module RevertibleLightKVS {
  import opened Prelude
  import opened Records
  import opened WorldLog
  import opened LightModel
  import opened RevertModel
  import opened LightKVS

  class RevertibleLightKVS {
    const base: LightKVS

    ghost function View(): Light
      reads base, base.history
    {
      base.View()
    }

    ghost predicate Valid()
      reads base
    {
      base.nextIndex <= base.history.Length
    }

    /** Whatever the wrapped store kept stays in its slots; only the index starts again. */
    constructor (base: LightKVS)
      modifies base
      ensures Valid() && this.base == base && View() == old(base.View()).(nextIndex := 0)
    {
      this.base := base;
      new;
      base.nextIndex := 0;
    }

    /** One pass over the window. */
    method Search(block: U64) returns (exact: Option<nat>, best: Option<nat>)
      ensures (exact, best) == Scan(base.history[..], block)
    {
      exact, best := None, None;
      var i := 0;
      while i < base.history.Length
        invariant i <= base.history.Length
        invariant (exact, best) == Scan(base.history[..i], block)
      {
        assert base.history[..i + 1][..i] == base.history[..i];
        var slot := base.history[i];
        if slot.Some? {
          if slot.value.block == block {
            exact := Some(i);
          } else if slot.value.block < block
                    && (best == None || slot.value.block > base.history[best.value].value.block) {
            best := Some(i);
          }
        }
        i := i + 1;
      }
      assert base.history[..i] == base.history[..];
    }

    method NewSnapshot(block: Option<U64>) returns (r: Option<Snapshot>)
      ensures r == NearestSnapshot(View(), block)
    {
      if block == None || block.value >= base.current.block {
        return Some(base.current);
      }
      var exact, best := Search(block.value);
      if exact.Some? {
        return base.history[exact.value];
      }
      if best.Some? {
        return base.history[best.value];
      }
      return None;
    }

    /** Moves every kept snapshot one slot down. */
    method Shift()
      requires base.history.Length > 0
      modifies base.history
      ensures base.history[..base.history.Length - 1] == old(base.history[1..])
    {
      ghost var was := base.history[..];
      var i := 1;
      while i < base.history.Length
        invariant 1 <= i <= base.history.Length
        invariant forall j :: 0 <= j < i - 1 ==> base.history[j] == was[j + 1]
        invariant forall j :: i <= j < base.history.Length ==> base.history[j] == was[j]
      {
        base.history[i - 1] := base.history[i];
        i := i + 1;
      }
    }

    method ApplyBlockSequential(block: U64, updates: seq<Update>)
      requires Valid()
      modifies base, base.history
      ensures Valid() && base.history == old(base.history)
      ensures View() == ApplySequential(old(View()), block, updates)
    {
      var data := ApplyUpdates(base.current.data, updates);
      var count := base.nextIndex;
      if base.history.Length > 0 {
        if count == base.history.Length {
          Shift();
          count := count - 1;
        }
        base.history[count] := Some(base.current);
        base.nextIndex := count + 1;
      }
      base.current := Snapshot(block, data, false);
    }

    method Handle(b: Block) returns (ok: bool)
      requires Valid()
      modifies base, base.history
      ensures Valid() && base.history == old(base.history) && (View(), ok) == HandleSequential(old(View()), b)
    {
      if !base.current.placeholder && b.number < base.current.block {
        return true;
      }
      var updates := CollectBlock(b);
      if !base.current.placeholder && b.number == base.current.block {
        ok := VerifyReplay(base.current, updates);
        return;
      }
      ApplyBlockSequential(b.number, updates);
      return true;
    }

    method RevertToBlock(block: U64) returns (ok: bool)
      requires Valid()
      modifies base, base.history
      ensures Valid() && base.history == old(base.history)
      ensures (View(), ok) == RevertModel.RevertToBlock(old(View()), block)
    {
      if base.current.block == block {
        return true;
      }
      var target, best := Search(block);
      if target == None && block < base.current.block {
        target := best;
      }
      if target == None {
        return false;
      }
      var merged := MergeData(base.current.data, base.history[target.value].value.data);
      base.current := Snapshot(block, merged, false);
      Trim(target.value);
      return true;
    }

    /** Empties the slots from i to the index, which moves there. */
    method Trim(i: nat)
      requires Valid() && i <= base.history.Length
      modifies base`nextIndex, base.history
      ensures base.nextIndex == i
      ensures base.history[..]
              == old(if i <= base.nextIndex then Cleared(base.history[..], i, base.nextIndex) else base.history[..])
    {
      var count := base.nextIndex;
      ghost var was := base.history[..];
      var j := i;
      while j < count
        invariant i <= j && (i <= count ==> j <= count) && (i > count ==> j == i)
        invariant forall k :: 0 <= k < base.history.Length ==> base.history[k] == if i <= k < j then None else was[k]
      {
        base.history[j] := None;
        j := j + 1;
      }
      assert base.history[..] == if i <= count then Cleared(was, i, count) else was;
      base.nextIndex := i;
    }
  }

  /** One pass over the current keys, which include every key of the target. */
  method MergeData(current: map<Key, Record>, target: map<Key, Record>) returns (merged: map<Key, Record>)
    ensures merged == Merge(current, target)
  {
    merged := map[];
    var keys := current.Keys;
    while keys != {}
      invariant keys <= current.Keys && merged.Keys == current.Keys - keys
      invariant forall k :: k in merged ==> merged[k] == MergeRecord(current[k], Lookup(target, k))
      decreases keys
    {
      var key :| key in keys;
      if key in target {
        merged := merged[key := current[key].(value := target[key].value, isDelete := target[key].isDelete)];
      } else {
        merged := merged[key := current[key].(value := None, isDelete := true)];
      }
      keys := keys - {key};
    }
  }
}
