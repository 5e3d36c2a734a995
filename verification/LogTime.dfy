/** Heights and supersession in the log of committed writes. */
module LogTime {
  import opened Prelude
  import opened Records
  import opened WorldLog

  ghost predicate Sorted(log: seq<Update>) {
    forall i, j :: 0 <= i < j < |log| ==> log[i].block <= log[j].block
  }

  predicate Wrote(ups: seq<Update>, k: Key) {
    WriteCount(ups, k) > 0
  }

  /** The block of the first write of k above b. */
  function NextBlock(log: seq<Update>, k: Key, b: U64): Option<U64> {
    if log == [] then None
    else
      var n := |log| - 1;
      var r := NextBlock(log[..n], k, b);
      if r.Some? then r else if log[n].key == k && log[n].block > b then Some(log[n].block) else None
  }

  lemma {:induction false} AsOfBlock(log: seq<Update>, k: Key, h: U64)
    ensures AsOf(log, k, h).Some? ==>
              AsOf(log, k, h).value.block <= h && AsOf(log, k, AsOf(log, k, h).value.block) == AsOf(log, k, h)
  {
    if log != [] {
      AsOfBlock(log[..|log| - 1], k, h);
    }
  }

  lemma SortedTop(log: seq<Update>)
    requires log != [] && Sorted(log)
    ensures Sorted(log[..|log| - 1]) && AllBelow(log, log[|log| - 1].block)
  {
  }

  lemma {:induction false} AsOfBelow(log: seq<Update>, k: Key, h: U64, top: U64)
    requires AllBelow(log, top)
    ensures AsOf(log, k, h).Some? ==> AsOf(log, k, h).value.block <= top
  {
    if log != [] {
      AsOfBelow(log[..|log| - 1], k, h, top);
    }
  }

  /** A greater height shows the same write or a later one. */
  lemma {:induction false} AsOfMono(log: seq<Update>, k: Key, b: U64, h: U64)
    requires Sorted(log) && b <= h && AsOf(log, k, b).Some?
    ensures AsOf(log, k, h).Some? && AsOf(log, k, b).value.block <= AsOf(log, k, h).value.block
    ensures AsOf(log, k, h).value.block <= b ==> AsOf(log, k, h) == AsOf(log, k, b)
  {
    var n := |log| - 1;
    SortedTop(log);
    if log[n].key == k && log[n].block <= h {
      AsOfBelow(log, k, b, log[n].block);
    } else {
      AsOfMono(log[..n], k, b, h);
    }
  }

  /** Superseded within the log means: the latest write is above. */
  lemma {:induction false} NextIff(log: seq<Update>, k: Key, b: U64)
    requires Sorted(log)
    ensures NextBlock(log, k, b).Some? <==> Latest(log, k).Some? && Latest(log, k).value.block > b
  {
    if log != [] {
      var n := |log| - 1;
      SortedTop(log);
      NextIff(log[..n], k, b);
      AsOfBelow(log[..n], k, MAX_U64, log[n].block);
    }
  }

  /** A write still in force at h is superseded above h only. */
  lemma {:induction false} NextAbove(log: seq<Update>, k: Key, h: U64)
    requires Sorted(log) && AsOf(log, k, h).Some?
    ensures var r := AsOf(log, k, h).value; NextBlock(log, k, r.block).Some? ==> NextBlock(log, k, r.block).value > h
  {
    var n, r := |log| - 1, AsOf(log, k, h).value;
    SortedTop(log);
    if log[n].key == k && log[n].block <= h {
      NoneAbove(log[..n], k, log[n].block);
    } else {
      NextAbove(log[..n], k, h);
    }
  }

  lemma {:induction false} NoneAbove(log: seq<Update>, k: Key, b: U64)
    requires AllBelow(log, b)
    ensures NextBlock(log, k, b) == None
  {
    if log != [] {
      NoneAbove(log[..|log| - 1], k, b);
    }
  }

  /** Not superseded means latest. */
  lemma {:induction false} LatestIs(log: seq<Update>, k: Key, b: U64)
    requires Sorted(log) && AsOf(log, k, b).Some? && NextBlock(log, k, b) == None
    ensures Latest(log, k) == AsOf(log, k, b)
  {
    NextIff(log, k, b);
    AsOfMono(log, k, b, MAX_U64);
  }

  /* ---- one more block ---- */

  lemma SortedExtend(log: seq<Update>, ups: seq<Update>, block: U64)
    requires Sorted(log) && AllAt(ups, block) && forall i :: 0 <= i < |log| ==> log[i].block < block
    ensures Sorted(log + ups)
  {
  }

  lemma {:induction false} NextExtend(log: seq<Update>, ups: seq<Update>, block: U64, k: Key, b: U64)
    requires AllAt(ups, block)
    ensures NextBlock(log + ups, k, b) ==
              if NextBlock(log, k, b).Some? then NextBlock(log, k, b)
              else if Wrote(ups, k) && b < block then Some(block) else None
  {
    if ups == [] {
      assert log + ups == log;
    } else {
      var n := |ups| - 1;
      NextExtend(log, ups[..n], block, k, b);
      assert (log + ups)[..|log + ups| - 1] == log + ups[..n];
    }
  }
}
