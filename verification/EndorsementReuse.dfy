/** An endorsement handed over for reuse is what executing again would give. */
module EndorsementReuse {
  import opened Prelude
  import opened Records
  import opened WorldLog
  import opened StateModel
  import opened ReadSet
  import opened ReadSetExact
  import opened RoundTrip
  import Ledger
  import LightModel
  import LightRuns
  import DepGraphModel
  import DepGraphRuns

  // The queue decides by the keys of the blocks it counted, the execution by the records of a store. What ties them
  // together is that the queue sees every committed write: nobody else writes, and each transaction writes the keys
  // its first execution showed.

  /** How the queue names a key of the store. */
  type NameOf = Key -> DepGraphModel.Key

  /** How many of these blocks the queue counts: those with transactions. */
  function Counted(bs: seq<Block>): nat {
    if bs == [] then 0 else var n := |bs| - 1; Counted(bs[..n]) + if bs[n].txs == [] then 0 else 1
  }

  ghost predicate NotesBlock(name: NameOf, b: Block, keys: set<DepGraphModel.Key>) {
    forall u :: u in BlockUpdates(b) ==> name(u.key) in keys
  }

  /** The queue counted these blocks, and noted every key they wrote. */
  ghost predicate Noted(name: NameOf, bs: seq<Block>, history: seq<set<DepGraphModel.Key>>) {
    if bs == [] then history == []
    else
      var n, h := |bs| - 1, |history| - 1;
      if bs[n].txs == [] then Noted(name, bs[..n], history)
      else history != [] && Noted(name, bs[..n], history[..h]) && NotesBlock(name, bs[n], history[h])
  }

  lemma {:induction false} NotedLength(name: NameOf, bs: seq<Block>, history: seq<set<DepGraphModel.Key>>)
    requires Noted(name, bs, history)
    ensures |history| == Counted(bs)
  {
    if bs != [] {
      var n := |bs| - 1;
      NotedLength(name, bs[..n], if bs[n].txs == [] then history else history[..|history| - 1]);
    }
  }

  lemma {:induction false} CountedGrows(bs: seq<Block>, m: nat)
    requires m <= |bs|
    ensures Counted(bs[..m]) <= Counted(bs)
  {
    if m == |bs| {
      assert bs[..m] == bs;
    } else {
      CountedGrows(bs[..|bs| - 1], m);
      assert bs[..|bs| - 1][..m] == bs[..m];
    }
  }

  lemma {:induction false} LatestStill(log: seq<Update>, ups: seq<Update>, k: Key)
    requires forall u :: u in ups ==> u.key != k
    ensures Latest(log + ups, k) == Latest(log, k)
  {
    if ups == [] {
      assert log + ups == log;
    } else {
      var n := |ups| - 1;
      Snoc(ups);
      LatestStill(log, ups[..n], k);
      Associate(log, ups[..n], [ups[n]]);
      Append(log + ups[..n], ups[n]);
      assert ups[n] in ups;
    }
  }

  /** A block leaves a key alone that the queue did not note for it. */
  lemma BlockStill(name: NameOf, l: Ledger.Ledger, b: Block, keys: set<DepGraphModel.Key>, k: Key)
    requires b.txs == [] || (NotesBlock(name, b, keys) && name(k) !in keys)
    ensures Latest(Ledger.Extend(l, b).log, k) == Latest(l.log, k)
  {
    LatestStill(l.log, BlockUpdates(b), k);
  }

  /** A key that no block from number r on wrote holds what it held once r blocks were counted. */
  lemma {:induction false} KeyStill(name: NameOf, bs: seq<Block>, m: nat, history: seq<set<DepGraphModel.Key>>, r: nat,
                                    k: Key)
    requires Noted(name, bs, history) && m <= |bs| && r <= Counted(bs[..m])
    requires forall i :: r <= i < |history| ==> name(k) !in history[i]
    ensures Latest(Ledger.Of(bs).log, k) == Latest(Ledger.Of(bs[..m]).log, k)
  {
    if m == |bs| {
      assert bs[..m] == bs;
    } else {
      var n := |bs| - 1;
      var before := bs[..n];
      assert before[..m] == bs[..m];
      NotedLength(name, bs, history);
      CountedGrows(before, m);
      if bs[n].txs == [] {
        KeyStill(name, before, m, history, r, k);
        BlockStill(name, Ledger.Of(before), bs[n], {}, k);
      } else {
        var h := |history| - 1;
        KeyStill(name, before, m, history[..h], r, k);
        BlockStill(name, Ledger.Of(before), bs[n], history[h], k);
      }
    }
  }

  /** What an execution sees after these deliveries to the in-memory store. */
  ghost function TipEnv(size: nat, bs: seq<Block>, nm: Naming, monotonic: bool): Env
    requires size > 0
  {
    EnvOf(LightModel.Run(LightModel.NewLight(size), bs).current, nm, monotonic)
  }

  lemma {:induction false} TipHolds(size: nat, bs: seq<Block>, nm: Naming, monotonic: bool, k: StateKey)
    requires size > 0
    ensures TipEnv(size, bs, nm, monotonic).store(k) == Latest(Ledger.Of(bs).log, Place(nm, k))
  {
    LightRuns.RunInv(size, bs);
    TipReadsLog(LightModel.Run(LightModel.NewLight(size), bs), LightRuns.States(bs), Ledger.Of(bs), nm, monotonic);
  }

  /** These keys hold the same now as when the endorsement was made. */
  lemma {:induction false} TipsAgree(size: nat, name: NameOf, nm: Naming, monotonic: bool, bs: seq<Block>, m: nat,
                                     history: seq<set<DepGraphModel.Key>>, r: nat, keys: set<StateKey>)
    requires size > 0 && Noted(name, bs, history) && m <= |bs| && r <= Counted(bs[..m])
    requires forall k, i :: k in keys && r <= i < |history| ==> name(Place(nm, k)) !in history[i]
    ensures Agree(TipEnv(size, bs[..m], nm, monotonic), TipEnv(size, bs, nm, monotonic), keys)
  {
    var env, env' := TipEnv(size, bs[..m], nm, monotonic), TipEnv(size, bs, nm, monotonic);
    forall k | k in keys
      ensures VersionOf(env, k) == VersionOf(env', k) && ValueOf(env, k) == ValueOf(env', k)
    {
      KeyStill(name, bs, m, history, r, Place(nm, k));
      TipHolds(size, bs[..m], nm, monotonic, k);
      TipHolds(size, bs, nm, monotonic, k);
    }
  }

  /** The endorsement kept for a transaction: made from this run, which reported all it read, with its read keys. */
  ghost predicate Endorses(t: DepGraphModel.Tracked, name: NameOf, nm: Naming,
                           endorse: Trace -> DepGraphModel.Endorsement, run: Trace) {
    && t.end == Some(endorse(run)) && AllReported(run)
    && forall k :: k in Reads(run.db.cur.journal) ==> name(Place(nm, k)) in t.readKeys
  }

  /** Whatever the queue went through: when it hands an endorsement over, executing the same client again, on the
      state after every block counted since, runs the same and gives the same endorsement.  The first execution saw
      at least the blocks counted by then. */
  lemma {:induction false} ReuseSound(size: nat, name: NameOf, nm: Naming, monotonic: bool, bs: seq<Block>, m: nat,
                                      steps: seq<DepGraphRuns.Step>, s: DepGraphRuns.System,
                                      hash: DepGraphModel.Hash, endorse: Trace -> DepGraphModel.Endorsement,
                                      client: Client, ts: seq<Trace>, ts': seq<Trace>)
    requires size > 0 && DepGraphRuns.Run(DepGraphRuns.Initial, steps, s) && Noted(name, bs, s.history)
    requires DepGraphModel.ReusableEndorsement(s.q, hash).1.Some?
    requires m <= |bs| && s.q.tracked[hash].readSeq <= Counted(bs[..m])
    requires Plays(TipEnv(size, bs[..m], nm, monotonic), client, ts)
    requires Endorses(s.q.tracked[hash], name, nm, endorse, Last(ts))
    requires Plays(TipEnv(size, bs, nm, monotonic), client, ts') && |ts'| == |ts|
    ensures ts' == ts
    ensures DepGraphModel.ReusableEndorsement(s.q, hash).1 == Some(endorse(Last(ts')))
  {
    var t, keys := s.q.tracked[hash], Last(ts).touched;
    DepGraphRuns.ReuseExact(steps, s, hash);
    ReadsAreReadKeys(Last(ts).db.cur.journal);
    forall k, i | k in keys && t.readSeq <= i < |s.history|
      ensures name(Place(nm, k)) !in s.history[i]
    {
      assert k in Reads(Last(ts).db.cur.journal);
    }
    TipsAgree(size, name, nm, monotonic, bs, m, s.history, t.readSeq, keys);
    forall i | 0 <= i < |ts|
      ensures ts'[i] == ts[i]
    {
      RunAgrees(TipEnv(size, bs[..m], nm, monotonic), TipEnv(size, bs, nm, monotonic), client, ts, ts', i);
    }
  }

  /** A valid transaction that this queue does not track goes unnoticed, whatever it wrote: an endorsement is handed
      over after it, whatever that one read. */
  lemma {:induction false} UntrackedWriteMissed(h: DepGraphModel.Hash, other: DepGraphModel.Hash,
                                                end: DepGraphModel.Endorsement, keys: seq<DepGraphModel.Key>,
                                                s: DepGraphRuns.System)
    requires other != h
    requires var steps := [DepGraphRuns.Enqueue(h), DepGraphRuns.Keep(h, 0, end, keys, []),
                           DepGraphRuns.Block([DepGraphModel.Committed(other, true)])];
             DepGraphRuns.Run(DepGraphRuns.Initial, steps, s)
    ensures h in s.q.tracked && s.q.tracked[h] == DepGraphModel.Tracked(None, Some(end), 0, keys, [])
    ensures DepGraphModel.ReusableEndorsement(s.q, h).1 == Some(end)
  {
    var txs := [DepGraphModel.Committed(other, true)];
    var steps := [DepGraphRuns.Enqueue(h), DepGraphRuns.Keep(h, 0, end, keys, []), DepGraphRuns.Block(txs)];
    var s1 := DepGraphRuns.Apply(DepGraphRuns.Initial, steps[0]);
    var s2 := DepGraphRuns.Apply(s1, steps[1]);
    var s3 := DepGraphRuns.Apply(s2, steps[2]);
    assert steps[1..] == [steps[1], steps[2]] && steps[1..][1..] == [steps[2]] && [steps[2]][1..] == [];
    assert DepGraphRuns.Run(s1, steps[1..], s) && DepGraphRuns.Run(s2, [steps[2]], s) && DepGraphRuns.Run(s3, [], s);
    var t := DepGraphModel.Tracked(None, Some(end), 0, keys, []);
    assert s2.q.tracked == map[h := t];
    assert txs[..0] == [] && DepGraphModel.BlockKeys(s2.q.tracked, txs) == [];
    assert DepGraphModel.Hashes(txs) == [other] && [other][..0] == [];
    var q := s2.q.(window := DepGraphModel.Record(s2.q.window, []));
    assert DepGraphModel.TakeNodes(q, [other]).0 == q;
    assert DepGraphRuns.KeysWritten(s2.q.tracked, txs) == {};
    assert s3.q.tracked == map[h := t] && s3.history == [{}];
    DepGraphRuns.ReuseExact(steps, s, h);
  }
}
