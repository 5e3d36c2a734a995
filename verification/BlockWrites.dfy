/** What a block writes and what the log then says, told without the functions that collect and look it up. */
module BlockWrites {
  import opened Prelude
  import opened Records
  import opened WorldLog
  import Ledger

  /* ---- keys ---- */

  lemma {:induction false} ColonSplit(ns: Bytes, k: Bytes, ns': Bytes, k': Bytes)
    requires |ns| < |ns'| && FullKey(ns, k) == FullKey(ns', k')
    ensures exists rest :: ns' == ns + [58] + rest && k == rest + [58] + k'
  {
    var x, n, n' := FullKey(ns, k), |ns|, |ns'|;
    var rest := ns'[n + 1..];
    assert x[..n'] == ns' && x[..n] == ns && x[n] == 58 && x[n + 1..] == k;
    assert ns'[..n] == x[..n'][..n] == ns && ns'[n] == x[n];
    assert x[n'..] == [58] + k' && k == x[n + 1..n'] + x[n'..];
    assert rest == x[n + 1..n'] && ns' == ns + [58] + rest;
  }

  /** Two writes share a key exactly when they share namespace and key, or one namespace goes on, after a colon, into
      the key of the other. */
  lemma {:induction false} SameFullKeyIff(ns: Bytes, k: Bytes, ns': Bytes, k': Bytes)
    ensures FullKey(ns, k) == FullKey(ns', k') <==>
              || (ns == ns' && k == k')
              || (exists rest :: ns' == ns + [58] + rest && k == rest + [58] + k')
              || (exists rest :: ns == ns' + [58] + rest && k' == rest + [58] + k)
  {
    if FullKey(ns, k) == FullKey(ns', k') {
      if |ns| < |ns'| {
        ColonSplit(ns, k, ns', k');
      } else if |ns'| < |ns| {
        ColonSplit(ns', k', ns, k);
      } else {
        assert FullKey(ns, k)[..|ns|] == ns && FullKey(ns', k')[..|ns|] == ns';
        assert FullKey(ns, k)[|ns| + 1..] == k && FullKey(ns', k')[|ns| + 1..] == k';
      }
    } else {
      forall rest
        ensures !(ns' == ns + [58] + rest && k == rest + [58] + k')
        ensures !(ns == ns' + [58] + rest && k' == rest + [58] + k)
      {
        assert ns + [58] + (rest + [58] + k') == ns + [58] + rest + [58] + k';
        assert ns' + [58] + (rest + [58] + k) == ns' + [58] + rest + [58] + k;
      }
    }
  }

  /* ---- the writes of a block, part by part ---- */

  /** One write of one transaction. */
  lemma {:induction false} OneWrite(block: U64, tx: Tx, ns: Bytes, w: KeyWrite)
    ensures var ups := NsUpdates(block, tx, ns, [w]);
            && |ups| == 1 && ups[0].key == ns + [58] + w.key && ups[0].value == w.value && ups[0].isDelete == w.isDelete
            && ups[0].block == block && ups[0].tx == tx.number && ups[0].txId == tx.id
  {
    assert NsUpdates(block, tx, ns, [w][..0]) == [];
  }

  lemma {:induction false} NsConcat(block: U64, tx: Tx, ns: Bytes, a: seq<KeyWrite>, b: seq<KeyWrite>)
    ensures NsUpdates(block, tx, ns, a + b) == NsUpdates(block, tx, ns, a) + NsUpdates(block, tx, ns, b)
  {
    if b == [] {
      assert a + b == a;
    } else {
      var n := |b| - 1;
      NsConcat(block, tx, ns, a, b[..n]);
      assert (a + b)[..|a + b| - 1] == a + b[..n];
    }
  }

  lemma {:induction false} SetConcat(block: U64, tx: Tx, a: seq<NsWrites>, b: seq<NsWrites>)
    ensures SetUpdates(block, tx, a + b) == SetUpdates(block, tx, a) + SetUpdates(block, tx, b)
  {
    if b == [] {
      assert a + b == a;
    } else {
      var n := |b| - 1;
      SetConcat(block, tx, a, b[..n]);
      assert (a + b)[..|a + b| - 1] == a + b[..n];
    }
  }

  lemma {:induction false} TxConcat(block: U64, a: seq<Tx>, b: seq<Tx>)
    ensures TxUpdates(block, a + b) == TxUpdates(block, a) + TxUpdates(block, b)
  {
    if b == [] {
      assert a + b == a;
    } else {
      var n := |b| - 1;
      var last := if b[n].valid then SetUpdates(block, b[n], b[n].sets) else [];
      TxConcat(block, a, b[..n]);
      assert (a + b)[..|a + b| - 1] == a + b[..n] && (a + b)[|a + b| - 1] == b[n];
      Associate(TxUpdates(block, a), TxUpdates(block, b[..n]), last);
    }
  }

  lemma {:induction false} OneSet(block: U64, tx: Tx, s: NsWrites)
    ensures SetUpdates(block, tx, [s]) == NsUpdates(block, tx, s.namespace, s.writes)
  {
    assert SetUpdates(block, tx, [s][..0]) == [];
  }

  /** An invalid transaction writes nothing. */
  lemma {:induction false} OneTx(block: U64, tx: Tx)
    ensures TxUpdates(block, [tx]) == if tx.valid then SetUpdates(block, tx, tx.sets) else []
  {
    assert TxUpdates(block, [tx][..0]) == [];
  }

  /** The writes of a transaction around one of them: in order, under namespaced keys. */
  lemma {:induction false} WritesOfTx(block: U64, tx: Tx, sets: seq<NsWrites>, s: NsWrites, more: seq<NsWrites>,
                                      a: seq<KeyWrite>, w: KeyWrite, b: seq<KeyWrite>)
    requires tx.sets == sets + [s] + more && s.writes == a + [w] + b
    ensures var u := Update(s.namespace + [58] + w.key, w.value, block, tx.number, tx.id, w.isDelete);
            SetUpdates(block, tx, tx.sets)
            == SetUpdates(block, tx, sets)
               + (NsUpdates(block, tx, s.namespace, a) + [u] + NsUpdates(block, tx, s.namespace, b))
               + SetUpdates(block, tx, more)
  {
    SetConcat(block, tx, sets + [s], more);
    SetConcat(block, tx, sets, [s]);
    OneSet(block, tx, s);
    NsConcat(block, tx, s.namespace, a + [w], b);
    NsConcat(block, tx, s.namespace, a, [w]);
    OneWrite(block, tx, s.namespace, w);
  }

  /** The writes of a block around one transaction: in order, and nothing of an invalid one. */
  lemma {:induction false} WritesOfBlock(block: U64, before: seq<Tx>, tx: Tx, after: seq<Tx>)
    ensures BlockUpdates(Block(block, before + [tx] + after))
            == BlockUpdates(Block(block, before)) + (if tx.valid then SetUpdates(block, tx, tx.sets) else [])
               + BlockUpdates(Block(block, after))
  {
    TxConcat(block, before + [tx], after);
    TxConcat(block, before, [tx]);
    OneTx(block, tx);
  }

  /* ---- which writes there are ---- */

  /** u is the m-th write in the j-th namespace of this transaction. */
  predicate IsWrite(u: Update, block: U64, tx: Tx, j: nat, m: nat) {
    && j < |tx.sets| && m < |tx.sets[j].writes|
    && var w := tx.sets[j].writes[m];
       && u.key == tx.sets[j].namespace + [58] + w.key && u.value == w.value && u.isDelete == w.isDelete
       && u.block == block && u.tx == tx.number && u.txId == tx.id
  }

  lemma {:induction false} InNs(u: Update, block: U64, tx: Tx, ns: Bytes, writes: seq<KeyWrite>)
    ensures u in NsUpdates(block, tx, ns, writes) <==>
              exists m :: 0 <= m < |writes| && u == ToUpdate(block, tx, ns, writes[m])
  {
    if writes != [] {
      var n := |writes| - 1;
      InNs(u, block, tx, ns, writes[..n]);
      assert u in NsUpdates(block, tx, ns, writes) <==>
             u in NsUpdates(block, tx, ns, writes[..n]) || u == ToUpdate(block, tx, ns, writes[n]);
      assert forall m :: 0 <= m < n ==> writes[..n][m] == writes[m];
    }
  }

  lemma {:induction false} InSets(u: Update, block: U64, tx: Tx, sets: seq<NsWrites>)
    ensures u in SetUpdates(block, tx, sets) <==>
              exists j :: 0 <= j < |sets| && u in NsUpdates(block, tx, sets[j].namespace, sets[j].writes)
  {
    if sets != [] {
      var n := |sets| - 1;
      InSets(u, block, tx, sets[..n]);
      assert forall j :: 0 <= j < n ==> sets[..n][j] == sets[j];
    }
  }

  lemma {:induction false} InTxs(u: Update, block: U64, txs: seq<Tx>)
    ensures u in TxUpdates(block, txs) <==>
              exists i :: 0 <= i < |txs| && txs[i].valid && u in SetUpdates(block, txs[i], txs[i].sets)
  {
    if txs != [] {
      var n := |txs| - 1;
      InTxs(u, block, txs[..n]);
      assert forall i :: 0 <= i < n ==> txs[..n][i] == txs[i];
    }
  }

  lemma {:induction false} InTx(u: Update, block: U64, tx: Tx)
    ensures u in SetUpdates(block, tx, tx.sets) <==> exists j, m :: IsWrite(u, block, tx, j, m)
  {
    InSets(u, block, tx, tx.sets);
    forall j | 0 <= j < |tx.sets|
      ensures u in NsUpdates(block, tx, tx.sets[j].namespace, tx.sets[j].writes) <==>
                exists m :: IsWrite(u, block, tx, j, m)
    {
      InNs(u, block, tx, tx.sets[j].namespace, tx.sets[j].writes);
      assert forall m :: 0 <= m < |tx.sets[j].writes| ==>
          (IsWrite(u, block, tx, j, m) <==> u == ToUpdate(block, tx, tx.sets[j].namespace, tx.sets[j].writes[m]));
    }
  }

  /** A block writes exactly the writes of its valid transactions. */
  lemma {:induction false} BlockWritesIff(b: Block, u: Update)
    ensures u in BlockUpdates(b) <==>
              exists i, j, m :: 0 <= i < |b.txs| && b.txs[i].valid && IsWrite(u, b.number, b.txs[i], j, m)
  {
    InTxs(u, b.number, b.txs);
    forall i | 0 <= i < |b.txs|
      ensures u in SetUpdates(b.number, b.txs[i], b.txs[i].sets) <==>
                exists j, m :: IsWrite(u, b.number, b.txs[i], j, m)
    {
      InTx(u, b.number, b.txs[i]);
    }
  }

  /* ---- invalid transactions ---- */

  function OnlyValid(txs: seq<Tx>): seq<Tx> {
    if txs == [] then [] else (if txs[0].valid then [txs[0]] else []) + OnlyValid(txs[1..])
  }

  /** Leaving the invalid transactions out changes nothing. */
  lemma {:induction false} InvalidIgnored(b: Block)
    ensures BlockUpdates(Block(b.number, OnlyValid(b.txs))) == BlockUpdates(b)
  {
    InvalidDropped(b.number, b.txs);
  }

  lemma {:induction false} InvalidDropped(block: U64, txs: seq<Tx>)
    ensures TxUpdates(block, OnlyValid(txs)) == TxUpdates(block, txs)
  {
    if txs != [] {
      assert txs == [txs[0]] + txs[1..];
      TxConcat(block, [txs[0]], txs[1..]);
      OneTx(block, txs[0]);
      InvalidDropped(block, txs[1..]);
      TxConcat(block, if txs[0].valid then [txs[0]] else [], OnlyValid(txs[1..]));
    }
  }

  /** A block of invalid transactions leaves the log, and so every answer held against it, as it was. */
  lemma {:induction false} InvalidBlockIdle(bs: seq<Block>, b: Block)
    requires forall i :: 0 <= i < |b.txs| ==> !b.txs[i].valid
    ensures Ledger.Of(bs + [b]).log == Ledger.Of(bs).log
  {
    if BlockUpdates(b) != [] {
      BlockWritesIff(b, BlockUpdates(b)[0]);
    }
    Append(bs, b);
  }

  /* ---- what the log says ---- */

  /** How many of the first n writes are of k. */
  ghost function CountBefore(log: seq<Update>, k: Key, n: nat): nat
    requires n <= |log|
  {
    |set i | 0 <= i < n && log[i].key == k|
  }

  lemma {:induction false} CountIs(log: seq<Update>, k: Key, n: nat)
    requires n <= |log|
    ensures WriteCount(log[..n], k) == CountBefore(log, k, n)
  {
    var s := set i | 0 <= i < n && log[i].key == k;
    if n > 0 {
      CountIs(log, k, n - 1);
      var s' := set i | 0 <= i < n - 1 && log[i].key == k;
      assert log[..n][..n - 1] == log[..n - 1];
      assert s == s' + if log[n - 1].key == k then {n - 1} else {};
    } else {
      assert s == {};
    }
  }

  /** The i-th write is of k, at or below h, and no later one is. */
  ghost predicate LastAt(log: seq<Update>, k: Key, h: U64, i: nat) {
    && i < |log| && log[i].key == k && log[i].block <= h
    && forall j :: i < j < |log| && log[j].key == k ==> log[j].block > h
  }

  /** What the log says of a key at a height: nothing if it has no write there, and else the last one, field by field,
      its version being the number of earlier writes of the key modulo 2^64. */
  lemma {:induction false} AsOfIs(log: seq<Update>, k: Key, h: U64)
    ensures AsOf(log, k, h) == None <==> forall i :: 0 <= i < |log| && log[i].key == k ==> log[i].block > h
    ensures forall i: nat :: LastAt(log, k, h, i) ==>
              && AsOf(log, k, h).Some?
              && var r := AsOf(log, k, h).value;
                 && r.block == log[i].block && r.tx == log[i].tx && r.txId == log[i].txId
                 && r.isDelete == log[i].isDelete && r.value == log[i].value
                 && r.version == CountBefore(log, k, i) % TWO_64
  {
    if log != [] {
      var n := |log| - 1;
      AsOfIs(log[..n], k, h);
      forall i: nat | LastAt(log, k, h, i)
        ensures i == n || LastAt(log[..n], k, h, i)
        ensures i < n ==> CountBefore(log[..n], k, i) == CountBefore(log, k, i)
      {
        if i < n {
          assert forall j :: 0 <= j < n ==> log[..n][j] == log[j];
          assert (set j | 0 <= j < i && log[..n][j].key == k) == (set j | 0 <= j < i && log[j].key == k);
        }
      }
      CountIs(log, k, n);
      if AsOf(log[..n], k, h) == None {
        assert forall i :: 0 <= i < n ==> log[..n][i] == log[i];
      }
    }
  }
}
