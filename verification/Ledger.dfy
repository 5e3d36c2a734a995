/** The committed ledger as every store should see it: blocks in order, each once. */
module Ledger {
  import opened Prelude
  import opened Records
  import opened WorldLog

  datatype Ledger = Ledger(started: bool, tip: U64, log: seq<Update>)

  const NoBlocks := Ledger(false, 0, [])

  predicate IsNew(l: Ledger, b: Block) {
    !l.started || b.number > l.tip
  }

  function Extend(l: Ledger, b: Block): Ledger {
    if IsNew(l, b) then Ledger(true, b.number, l.log + BlockUpdates(b)) else l
  }

  function Of(bs: seq<Block>): Ledger {
    if bs == [] then NoBlocks else var n := |bs| - 1; Extend(Of(bs[..n]), bs[n])
  }

  /** The deliveries that are new when they arrive. */
  function Dedup(bs: seq<Block>): seq<Block> {
    if bs == [] then []
    else
      var n := |bs| - 1;
      Dedup(bs[..n]) + if IsNew(Of(bs[..n]), bs[n]) then [bs[n]] else []
  }

  /** Every delivery is of a new block or repeats an earlier one exactly. */
  ghost predicate Faithful(bs: seq<Block>) {
    forall i :: 0 <= i < |bs| ==> IsNew(Of(bs[..i]), bs[i]) || bs[i] in bs[..i]
  }

  ghost predicate LedgerOk(l: Ledger) {
    AllBelow(l.log, l.tip) && (!l.started ==> l.log == [] && l.tip == 0)
  }

  lemma {:induction false} DedupSame(bs: seq<Block>)
    ensures Of(Dedup(bs)) == Of(bs)
  {
    if bs != [] {
      var n := |bs| - 1;
      DedupSame(bs[..n]);
      Append(Dedup(bs[..n]), bs[n]);
      assert Dedup(bs[..n]) + [] == Dedup(bs[..n]);
    }
  }

  /** b is the tip block, and every delivery at its height was b. */
  ghost predicate TipIs(bs: seq<Block>, b: Block) {
    Of(bs).started && b.number == Of(bs).tip && forall x :: x in bs ==> x.number < b.number || x == b
  }

  lemma {:induction false} TipNext(bs: seq<Block>, t: Block, b: Block)
    requires TipIs(bs, t) && (IsNew(Of(bs), b) || b in bs)
    ensures TipIs(bs + [b], if IsNew(Of(bs), b) then b else t)
  {
    Append(bs, b);
  }

  lemma FaithfulPrefix(bs: seq<Block>)
    requires bs != [] && Faithful(bs)
    ensures Faithful(bs[..|bs| - 1])
  {
    var before := bs[..|bs| - 1];
    forall i | 0 <= i < |before|
      ensures IsNew(Of(before[..i]), before[i]) || before[i] in before[..i]
    {
      assert before[..i] == bs[..i] && before[i] == bs[i];
    }
  }
}
