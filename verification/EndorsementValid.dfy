/** An old endorsement passes the committer's version check exactly when executing again gives the same run. */
module EndorsementValid {
  import opened Prelude
  import opened Words
  import opened Records
  import opened WorldLog
  import opened StateModel
  import opened StateUndo
  import opened ReadSet
  import opened ReadSetExact
  import opened RoundTrip
  import opened EndorsementReuse
  import Ledger
  import LightRuns
  import LogTime
  import DepGraphModel
  import DepGraphRuns

  /* ---- two tips of one ledger ---- */

  /** A delete carries no value. */
  ghost predicate CleanLog(log: seq<Update>) {
    forall i :: 0 <= i < |log| && log[i].isDelete ==> log[i].value == None
  }

  /** No key was written so often that its version came round again. */
  ghost predicate Countable(log: seq<Update>) {
    forall k :: WriteCount(log, k) <= TWO_64
  }

  /** Later deliveries append writes of higher blocks. */
  lemma {:induction false} LogGrows(bs: seq<Block>, m: nat) returns (ups: seq<Update>)
    requires m <= |bs|
    ensures var l, l' := Ledger.Of(bs[..m]), Ledger.Of(bs);
            && l'.log == l.log + ups && l.tip <= l'.tip && Ledger.LedgerOk(l)
            && (l.started ==> l'.started && AllAbove(ups, l.tip))
    decreases |bs|
  {
    LightRuns.RunInv(1, bs[..m]);
    if m == |bs| {
      assert bs[..m] == bs;
      ups := [];
    } else {
      var n := |bs| - 1;
      var before := bs[..n];
      assert before[..m] == bs[..m];
      ups := LogGrows(before, m);
      if Ledger.IsNew(Ledger.Of(before), bs[n]) {
        TxUpdatesAt(bs[n].number, bs[n].txs);
        Associate(Ledger.Of(bs[..m]).log, ups, BlockUpdates(bs[n]));
        ups := ups + BlockUpdates(bs[n]);
      }
    }
  }

  /** A key's latest write is the one it had, or one of the new ones. */
  lemma {:induction false} LatestGrows(log: seq<Update>, ups: seq<Update>, k: Key)
    ensures WriteCount(log + ups, k) >= WriteCount(log, k)
    ensures WriteCount(log + ups, k) == WriteCount(log, k) ==> Latest(log + ups, k) == Latest(log, k)
    ensures WriteCount(log + ups, k) > WriteCount(log, k) ==>
              Latest(log + ups, k).Some? && exists u :: u in ups && u.block == Latest(log + ups, k).value.block
  {
    if ups == [] {
      assert log + ups == log;
    } else {
      var n := |ups| - 1;
      Snoc(ups);
      LatestGrows(log, ups[..n], k);
      Associate(log, ups[..n], [ups[n]]);
      Append(log + ups[..n], ups[n]);
      assert ups[n] in ups && forall u :: u in ups[..n] ==> u in ups;
    }
  }

  lemma {:induction false} LatestClean(log: seq<Update>, k: Key)
    requires CleanLog(log)
    ensures Latest(log, k).Some? && Latest(log, k).value.isDelete ==> Latest(log, k).value.value == None
  {
    if log != [] {
      LatestClean(log[..|log| - 1], k);
    }
  }

  /** What a version of the first tip and a later one have in common when they are equal. */
  lemma {:induction false} SameWrite(l: Ledger.Ledger, ups: seq<Update>, k: Key, monotonic: bool)
    requires Ledger.LedgerOk(l) && (l.started ==> AllAbove(ups, l.tip)) && (monotonic ==> Countable(l.log + ups))
    requires Latest(l.log, k).Some? && Latest(l.log + ups, k).Some?
    requires var r, r' := Latest(l.log, k).value, Latest(l.log + ups, k).value;
             if monotonic then r.version == r'.version else r.block == r'.block
    ensures Latest(l.log + ups, k) == Latest(l.log, k)
  {
    LatestGrows(l.log, ups, k);
    LatestVersion(l.log, k);
    LatestVersion(l.log + ups, k);
    LogTime.AsOfBelow(l.log, k, MAX_U64, l.tip);
    if monotonic {
      assert WriteCount(l.log + ups, k) <= TWO_64;
    }
  }

  lemma {:induction false} KeyFixed(env: Env, env': Env, l: Ledger.Ledger, ups: seq<Update>, k: StateKey, key: Key)
    requires env.store(k) == Latest(l.log, key) && env'.store(k) == Latest(l.log + ups, key)
    requires env'.monotonic == env.monotonic && CleanLog(l.log + ups) && (env.monotonic ==> Countable(l.log + ups))
    requires Ledger.LedgerOk(l) && (l.started ==> AllAbove(ups, l.tip))
    ensures VersionOf(env, k) == VersionOf(env', k) ==> ValueOf(env, k) == ValueOf(env', k)
  {
    if VersionOf(env, k) == VersionOf(env', k) {
      if VersionOf(env, k).Some? {
        SameWrite(l, ups, key, env.monotonic);
      } else {
        assert forall i :: 0 <= i < |l.log| ==> l.log[i] == (l.log + ups)[i];
        LatestClean(l.log, key);
        LatestClean(l.log + ups, key);
      }
    }
  }

  /** In two tips of one ledger a version fixes the value it stands for. */
  lemma {:induction false} TipsFixValues(size: nat, bs: seq<Block>, m: nat, nm: Naming, monotonic: bool)
    requires size > 0 && m <= |bs| && CleanLog(Ledger.Of(bs).log) && (monotonic ==> Countable(Ledger.Of(bs).log))
    ensures VersionFixesValue(TipEnv(size, bs[..m], nm, monotonic), TipEnv(size, bs, nm, monotonic))
  {
    var env, env' := TipEnv(size, bs[..m], nm, monotonic), TipEnv(size, bs, nm, monotonic);
    var ups := LogGrows(bs, m);
    forall k
      ensures VersionOf(env, k) == VersionOf(env', k) ==> ValueOf(env, k) == ValueOf(env', k)
    {
      TipHolds(size, bs[..m], nm, monotonic, k);
      TipHolds(size, bs, nm, monotonic, k);
      KeyFixed(env, env', Ledger.Of(bs[..m]), ups, k, Place(nm, k));
    }
  }

  /* ---- the version check ---- */

  /** The committer's check of a read set: every key still has the version it was read with. */
  ghost predicate Validates(env: Env, report: map<StateKey, Read>) {
    forall k :: k in report ==> report[k].version == VersionOf(env, k)
  }

  lemma CarriesOn(env: Env, s: seq<Entry>, t: seq<Entry>, u: seq<Entry>)
    requires Carries(env, s, t) && Carries(env, t, u)
    ensures Carries(env, s, u)
  {
  }

  lemma CommandCarries(env: Env, db: Db, c: Command)
    requires InRange(db) && Carries(env, [], db.cur.journal)
    ensures Carries(env, [], Run1(env, db, c).0.cur.journal)
  {
    match c
    case Do(op) =>
      StepCarries(env, db.cur, op);
      CarriesOn(env, [], db.cur.journal, Step(env, db.cur, op).0.journal);
    case Snapshot =>
    case Revert(id) =>
      var i := Find(db.revisions, id);
      if i < |db.revisions| {
        assert db.revisions[i] in db.revisions;
      }
  }

  lemma {:induction false} PlayCarries(env: Env, client: Client, ts: seq<Trace>, i: nat)
    requires Plays(env, client, ts) && i < |ts|
    ensures Carries(env, [], ts[i].db.cur.journal)
  {
    if i > 0 {
      PlayCarries(env, client, ts, i - 1);
      assert Follows(env, client, ts[i - 1], ts[i - 1 + 1]);
      CommandCarries(env, ts[i - 1].db, client(ts[i - 1].shown));
    }
  }

  lemma {:induction false} ReadsCarry(env: Env, journal: seq<Entry>, k: StateKey)
    requires Carries(env, [], journal) && k in Reads(journal)
    ensures Reads(journal)[k].version == VersionOf(env, k)
  {
    var n := |journal| - 1;
    if !(journal[n].ReadEntry? && journal[n].read.key == k) {
      ReadsCarry(env, journal[..n], k);
    }
  }

  /** Over every run a reported read carries the version the store has: none for a missing or deleted record; else the
      count of writes, or block and transaction, as versions are reported. */
  lemma {:induction false} ReportedVersions(env: Env, client: Client, ts: seq<Trace>, k: StateKey)
    requires Plays(env, client, ts) && k in Reads(Last(ts).db.cur.journal)
    ensures var v, r := Reads(Last(ts).db.cur.journal)[k].version, env.store(k);
            && (v == None <==> r == None || r.value.isDelete)
            && (v.Some? && env.monotonic ==> v.value.block == r.value.version && v.value.tx == 0)
            && (v.Some? && !env.monotonic ==> v.value.block == r.value.block && v.value.tx == r.value.tx)
  {
    PlayCarries(env, client, ts, |ts| - 1);
    ReadsCarry(env, Last(ts).db.cur.journal, k);
  }

  /** What a run reported passes the check of a store if and only if that store has the versions of its own. */
  lemma {:induction false} ValidatesIff(env: Env, env': Env, client: Client, ts: seq<Trace>)
    requires Plays(env, client, ts)
    ensures Validates(env', Reads(Last(ts).db.cur.journal)) <==> SameVersions(env, env', Reported(ts))
  {
    PlayCarries(env, client, ts, |ts| - 1);
    forall k | k in Reads(Last(ts).db.cur.journal)
      ensures Reads(Last(ts).db.cur.journal)[k].version == VersionOf(env, k)
    {
      ReadsCarry(env, Last(ts).db.cur.journal, k);
    }
  }

  /** A second run that is the same saw the same versions. */
  lemma {:induction false} SameRunSameVersions(env: Env, env': Env, client: Client, ts: seq<Trace>)
    requires Plays(env, client, ts) && Plays(env', client, ts)
    ensures SameVersions(env, env', Last(ts).touched)
  {
    forall k | k in Last(ts).touched
      ensures VersionOf(env, k) == VersionOf(env', k)
    {
      var j := TouchedAt(env, client, ts, k);
      assert Follows(env, client, ts[j], ts[j + 1]) && Follows(env', client, ts[j], ts[j + 1]);
      if VersionOf(env, k) != VersionOf(env', k) {
        TouchTells(env, env', ts[j], client(ts[j].shown), k);
      }
    }
  }

  /** Executing again on any later state of the ledger, whoever wrote to it: a run that reported all it read comes out
      the same if and only if what it reported passes the version check there. */
  lemma {:induction false} RunAgainIff(size: nat, bs: seq<Block>, m: nat, nm: Naming, monotonic: bool, client: Client,
                                       ts: seq<Trace>, ts': seq<Trace>)
    requires size > 0 && m <= |bs| && CleanLog(Ledger.Of(bs).log) && (monotonic ==> Countable(Ledger.Of(bs).log))
    requires Plays(TipEnv(size, bs[..m], nm, monotonic), client, ts) && AllReported(Last(ts))
    requires Plays(TipEnv(size, bs, nm, monotonic), client, ts') && |ts'| == |ts|
    ensures ts' == ts <==> Validates(TipEnv(size, bs, nm, monotonic), Reads(Last(ts).db.cur.journal))
  {
    var env, env' := TipEnv(size, bs[..m], nm, monotonic), TipEnv(size, bs, nm, monotonic);
    ValidatesIff(env, env', client, ts);
    ReadsAreReadKeys(Last(ts).db.cur.journal);
    if ts' == ts {
      SameRunSameVersions(env, env', client, ts);
    }
    if SameVersions(env, env', Reported(ts)) {
      TipsFixValues(size, bs, m, nm, monotonic);
      forall i | 0 <= i < |ts|
        ensures ts'[i] == ts[i]
      {
        RunDetermined(env, env', client, ts, ts', i);
      }
    }
  }

  /** So what the queue hands over after seeing every committed write passes the check on the state after every block
      it counted. */
  lemma {:induction false} ReusePasses(size: nat, name: NameOf, nm: Naming, monotonic: bool, bs: seq<Block>, m: nat,
                                       steps: seq<DepGraphRuns.Step>, s: DepGraphRuns.System,
                                       hash: DepGraphModel.Hash, endorse: Trace -> DepGraphModel.Endorsement,
                                       client: Client, ts: seq<Trace>)
    requires size > 0 && DepGraphRuns.Run(DepGraphRuns.Initial, steps, s) && Noted(name, bs, s.history)
    requires DepGraphModel.ReusableEndorsement(s.q, hash).1.Some?
    requires m <= |bs| && s.q.tracked[hash].readSeq <= Counted(bs[..m])
    requires Plays(TipEnv(size, bs[..m], nm, monotonic), client, ts)
    requires Endorses(s.q.tracked[hash], name, nm, endorse, Last(ts))
    ensures Validates(TipEnv(size, bs, nm, monotonic), Reads(Last(ts).db.cur.journal))
  {
    var env, env' := TipEnv(size, bs[..m], nm, monotonic), TipEnv(size, bs, nm, monotonic);
    var ts' := PlayExists(env', client, |ts| - 1);
    ReuseSound(size, name, nm, monotonic, bs, m, steps, s, hash, endorse, client, ts, ts');
    SameRunSameVersions(env, env', client, ts);
    ReadsAreReadKeys(Last(ts).db.cur.journal);
    ValidatesIff(env, env', client, ts);
  }

  /* ---- a write the queue does not see ---- */

  /** Reads one balance, again and again. */
  function Glance(a: Address): Client {
    _ => Do(GetBalance(a))
  }

  lemma SingleRead(r: Read)
    ensures Reads([ReadEntry(r)]) == map[r.key := r] && ReadKeys([ReadEntry(r)]) == {r.key}
  {
    var e := ReadEntry(r);
    assert [e][..0] == [] && e in [e];
  }

  lemma {:induction false} GlanceShows(env: Env, a: Address, ts: seq<Trace>)
    requires Plays(env, Glance(a), ts) && |ts| == 2
    ensures Last(ts).shown == [Number(ToWord(Raw(ValueOf(env, BalanceKey(a)))))]
    ensures Last(ts).db.cur.journal == [ReadEntry(Read(BalanceKey(a), VersionOf(env, BalanceKey(a))))]
    ensures Last(ts).touched == {BalanceKey(a)}
  {
    assert Follows(env, Glance(a), ts[0], ts[0 + 1]);
    assert LastWrite([], BalanceKey(a)) == None;
    var r := Read(BalanceKey(a), VersionOf(env, BalanceKey(a)));
    SingleRead(r);
    assert [ReadEntry(r)][0..] == [ReadEntry(r)];
  }

  lemma {:induction false} GlanceReports(env: Env, a: Address, ts: seq<Trace>)
    requires Plays(env, Glance(a), ts) && |ts| == 2
    ensures AllReported(Last(ts))
    ensures Reads(Last(ts).db.cur.journal) == map[BalanceKey(a) := Read(BalanceKey(a), VersionOf(env, BalanceKey(a)))]
  {
    GlanceShows(env, a, ts);
    SingleRead(Read(BalanceKey(a), VersionOf(env, BalanceKey(a))));
  }

  lemma {:induction false} BalanceShown(balance: Word)
    ensures ToWord(Raw(Some(Minimal(balance)))) == balance && ToWord(Raw(None)) == 0
  {
    WordRoundTrip(balance);
  }

  lemma {:induction false} GlanceTells(env: Env, env': Env, a: Address, balance: Word, ts: seq<Trace>, ts': seq<Trace>)
    requires Plays(env, Glance(a), ts) && Plays(env', Glance(a), ts') && |ts| == |ts'| == 2 && balance != 0
    requires ValueOf(env, BalanceKey(a)) == None && ValueOf(env', BalanceKey(a)) == Some(Minimal(balance))
    ensures Last(ts').shown != Last(ts).shown
  {
    GlanceShows(env, a, ts);
    GlanceShows(env', a, ts');
    BalanceShown(balance);
    assert Last(ts).shown[0] == Number(0) && Last(ts').shown[0] == Number(balance);
  }

  lemma {:induction false} GlanceFails(env: Env, env': Env, a: Address, ts: seq<Trace>)
    requires Plays(env, Glance(a), ts) && |ts| == 2
    requires VersionOf(env, BalanceKey(a)) != VersionOf(env', BalanceKey(a))
    ensures !Validates(env', Reads(Last(ts).db.cur.journal))
  {
    GlanceReports(env, a, ts);
    assert BalanceKey(a) in Reads(Last(ts).db.cur.journal);
  }

  /** A block in which somebody sets a balance. */
  function Payment(number: U64, tx: U64, id: Bytes, nm: Naming, a: Address, balance: Word): Block {
    CommitOf(number, tx, id, nm, [Write(BalanceKey(a), Some(Minimal(balance)), false)])
  }

  lemma {:induction false} PaymentSeen(size: nat, number: U64, tx: U64, id: Bytes, nm: Naming, monotonic: bool,
                                       a: Address, balance: Word)
    requires size > 0
    ensures ValueOf(TipEnv(size, [], nm, monotonic), BalanceKey(a)) == None
    ensures ValueOf(TipEnv(size, [Payment(number, tx, id, nm, a, balance)], nm, monotonic), BalanceKey(a))
            == Some(Minimal(balance))
    ensures VersionOf(TipEnv(size, [], nm, monotonic), BalanceKey(a)) == None
    ensures VersionOf(TipEnv(size, [Payment(number, tx, id, nm, a, balance)], nm, monotonic), BalanceKey(a)) != None
  {
    var b, ws := Payment(number, tx, id, nm, a, balance), [Write(BalanceKey(a), Some(Minimal(balance)), false)];
    TipHolds(size, [], nm, monotonic, BalanceKey(a));
    TipHolds(size, [b], nm, monotonic, BalanceKey(a));
    CommitUpdates(number, tx, id, nm, ws);
    AllCommitted([], number, tx, id, nm, ws);
    assert [b][..0] == [];
    assert Ledger.Of([b]).log == [] + UpdatesOf(number, tx, id, nm, ws);
    assert Holds(Latest(Ledger.Of([b]).log, Place(nm, ws[0].key)), ws[0]);
  }

  /** Before and after the payment. */
  lemma {:induction false} PaymentTells(size: nat, b: Block, nm: Naming, monotonic: bool, a: Address, balance: Word,
                                        ts: seq<Trace>, ts': seq<Trace>)
    requires size > 0 && balance != 0 && |ts| == |ts'| == 2
    requires exists number: U64, tx: U64, id: Bytes :: b == Payment(number, tx, id, nm, a, balance)
    requires Plays(TipEnv(size, [], nm, monotonic), Glance(a), ts)
    requires Plays(TipEnv(size, [b], nm, monotonic), Glance(a), ts')
    ensures Last(ts').shown != Last(ts).shown
    ensures !Validates(TipEnv(size, [b], nm, monotonic), Reads(Last(ts).db.cur.journal))
  {
    var number: U64, tx: U64, id: Bytes :| b == Payment(number, tx, id, nm, a, balance);
    PaymentSeen(size, number, tx, id, nm, monotonic, a, balance);
    GlanceTells(TipEnv(size, [], nm, monotonic), TipEnv(size, [b], nm, monotonic), a, balance, ts, ts');
    GlanceFails(TipEnv(size, [], nm, monotonic), TipEnv(size, [b], nm, monotonic), a, ts);
  }

  /** How the queue names a transaction of the ledger. */
  type HashOf = Bytes -> DepGraphModel.Hash

  /** A block of the ledger as the queue is told of it. */
  function Told(hashOf: HashOf, b: Block): seq<DepGraphModel.Committed> {
    seq(|b.txs|, i requires 0 <= i < |b.txs| => DepGraphModel.Committed(hashOf(b.txs[i].id), b.txs[i].valid))
  }

  /** Another gateway sets a balance that a kept endorsement read, and the queue counts that very block.  The
      endorsement is handed over; executing again shows another balance; and the endorsement fails the version check. */
  lemma {:induction false} UntrackedWriteFails(size: nat, number: U64, tx: U64, id: Bytes, nm: Naming, monotonic: bool,
                                               a: Address, balance: Word, name: NameOf, hashOf: HashOf,
                                               h: DepGraphModel.Hash, endorse: Trace -> DepGraphModel.Endorsement,
                                               ts: seq<Trace>, ts': seq<Trace>, s: DepGraphRuns.System)
    requires size > 0 && balance != 0 && hashOf(id) != h && |ts| == |ts'| == 2
    requires Plays(TipEnv(size, [], nm, monotonic), Glance(a), ts)
    requires Plays(TipEnv(size, [Payment(number, tx, id, nm, a, balance)], nm, monotonic), Glance(a), ts')
    requires var keep := DepGraphRuns.Keep(h, 0, endorse(Last(ts)), [name(Place(nm, BalanceKey(a)))], []);
             var count := DepGraphRuns.Block(Told(hashOf, Payment(number, tx, id, nm, a, balance)));
             DepGraphRuns.Run(DepGraphRuns.Initial, [DepGraphRuns.Enqueue(h), keep, count], s)
    ensures h in s.q.tracked && Endorses(s.q.tracked[h], name, nm, endorse, Last(ts))
    ensures DepGraphModel.ReusableEndorsement(s.q, h).1 == Some(endorse(Last(ts)))
    ensures Last(ts').shown != Last(ts).shown
    ensures var env' := TipEnv(size, [Payment(number, tx, id, nm, a, balance)], nm, monotonic);
            !Validates(env', Reads(Last(ts).db.cur.journal))
  {
    var b := Payment(number, tx, id, nm, a, balance);
    PaymentTells(size, b, nm, monotonic, a, balance, ts, ts');
    GlanceReports(TipEnv(size, [], nm, monotonic), a, ts);
    assert Told(hashOf, b) == [DepGraphModel.Committed(hashOf(id), true)];
    UntrackedWriteMissed(h, hashOf(id), endorse(Last(ts)), [name(Place(nm, BalanceKey(a)))], s);
  }
}
