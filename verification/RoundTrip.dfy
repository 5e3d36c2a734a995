/** What a transaction wrote is what the next one reads. */
module RoundTrip {
  import opened Prelude
  import opened Words
  import opened Records
  import opened WorldLog
  import opened StateModel
  import opened StateUndo
  import opened KeyText
  import Ledger
  import LightModel
  import LightRuns

  /** The namespace of the state keys, and how their addresses are cased. */
  datatype Naming = Naming(ns: Bytes, up: Casing)

  /** The full key of a state key. */
  function Place(nm: Naming, k: StateKey): Key {
    FullKey(nm.ns, Text(nm.up, k))
  }

  lemma PlaceInjective(nm: Naming, k: StateKey, k': StateKey)
    requires Place(nm, k) == Place(nm, k')
    ensures k == k'
  {
    var n := |nm.ns| + 1;
    assert Place(nm, k)[n..] == Text(nm.up, k) && Place(nm, k')[n..] == Text(nm.up, k');
    TextInjective(nm.up, k, k');
  }

  /** A store that answers with the latest committed writes. */
  ghost predicate ReadsLog(env: Env, nm: Naming, log: seq<Update>) {
    forall k :: env.store(k) == Latest(log, Place(nm, k))
  }

  /** What a state key holds now: the transaction's own last write, or the store's value. */
  function ValueNow(env: Env, journal: seq<Entry>, k: StateKey): Value {
    var w := LastWrite(journal, k);
    if w.Some? then Written(w.value) else ValueOf(env, k)
  }

  /* ---- journals ---- */

  /** A delete carries no value. */
  ghost predicate CleanDeletes(journal: seq<Entry>) {
    forall i :: 0 <= i < |journal| && journal[i].WriteEntry? && journal[i].write.isDelete ==>
      journal[i].write.value == None
  }

  lemma PutClean(st: State, k: StateKey, value: Bytes)
    requires CleanDeletes(st.journal)
    ensures CleanDeletes(Put(st, k, value).journal)
  {
  }

  lemma GetClean(env: Env, st: State, k: StateKey)
    requires CleanDeletes(st.journal)
    ensures CleanDeletes(Get(env, st, k).0.journal)
  {
  }

  lemma PushClean(st: State, e: Entry)
    requires CleanDeletes(st.journal) && !e.WriteEntry?
    ensures CleanDeletes(Push(st, e).journal)
  {
  }

  /** Up to three reads in turn. */
  lemma ReadsClean(env: Env, st: State, a: Address, st': State)
    requires CleanDeletes(st.journal)
    requires var st1 := Get(env, st, BalanceKey(a)).0;
             var st2 := Get(env, st1, NonceKey(a)).0;
             st' == st1 || st' == st2 || st' == Get(env, st2, CodeKey(a)).0
    ensures CleanDeletes(st'.journal)
  {
    var st1 := Get(env, st, BalanceKey(a)).0;
    GetClean(env, st, BalanceKey(a));
    var st2 := Get(env, st1, NonceKey(a)).0;
    GetClean(env, st1, NonceKey(a));
    GetClean(env, st2, CodeKey(a));
  }

  lemma BalanceClean(env: Env, st: State, a: Address, change: Word -> Word, amount: Word)
    requires CleanDeletes(st.journal)
    ensures CleanDeletes(ChangeBalance(env, st, a, change, amount).0.journal)
  {
    var got := Get(env, st, BalanceKey(a));
    GetClean(env, st, BalanceKey(a));
    PutClean(got.0, BalanceKey(a), Minimal(change(ToWord(Raw(got.1)))));
  }

  lemma DestructClean(env: Env, st: State, a: Address)
    requires CleanDeletes(st.journal)
    ensures CleanDeletes(DoSelfDestruct(env, st, a).journal)
  {
    var st1 := Get(env, st, BalanceKey(a)).0;
    GetClean(env, st, BalanceKey(a));
    PutClean(st1, BalanceKey(a), []);
    PushClean(st1, SelfDestructEntry(a));
    PushClean(Put(st1, BalanceKey(a), []), SelfDestructEntry(a));
  }

  lemma MarkClean(st: State, a: Address)
    requires CleanDeletes(st.journal)
    ensures CleanDeletes(MarkNewContract(st, a).journal)
  {
  }

  /** Operations on one state key. */
  lemma KeyStepClean(env: Env, st: State, op: Op)
    requires CleanDeletes(st.journal) && OnKeys(op)
    ensures CleanDeletes(Step(env, st, op).0.journal)
  {
    match op
    case GetBalance(a) => GetClean(env, st, BalanceKey(a));
    case AddBalance(a, amount) => BalanceClean(env, st, a, prev => (prev + amount) % TWO_256, amount);
    case SubBalance(a, amount) => BalanceClean(env, st, a, prev => (prev - amount) % TWO_256, amount);
    case GetNonce(a) => GetClean(env, st, NonceKey(a));
    case GetCode(a) => GetClean(env, st, CodeKey(a));
    case SetCode(a, code) => GetClean(env, st, CodeKey(a));
    case GetState(a, slot) => GetClean(env, st, StorageKey(a, slot));
    case Exist(a) => ReadsClean(env, st, a, DoExist(env, st, a).0);
    case Empty(a) => ReadsClean(env, st, a, DoEmpty(env, st, a).0);
    case _ =>
  }

  lemma RestStepClean(env: Env, st: State, op: Op)
    requires CleanDeletes(st.journal) && !OnKeys(op)
    ensures CleanDeletes(Step(env, st, op).0.journal)
  {
    match op
    case CreateAccount(a) =>
      var st1 := Put(st, BalanceKey(a), []);
      PutClean(st, BalanceKey(a), []);
      PutClean(st1, NonceKey(a), Fixed(0, 8));
      MarkClean(Put(st1, NonceKey(a), Fixed(0, 8)), a);
    case CreateContract(a) =>
      PutClean(st, CodeKey(a), []);
      MarkClean(Put(st, CodeKey(a), []), a);
    case SelfDestruct(a) => DestructClean(env, st, a);
    case _ =>
  }

  lemma StepClean(env: Env, db: Db, c: Command)
    requires InRange(db) && CleanDeletes(db.cur.journal)
    ensures CleanDeletes(Run1(env, db, c).0.cur.journal)
  {
    match c
    case Do(op) => if OnKeys(op) { KeyStepClean(env, db.cur, op); } else { RestStepClean(env, db.cur, op); }
    case Snapshot =>
    case Revert(id) =>
  }

  lemma {:induction false} RunClean(env: Env, db: Db, cs: seq<Command>, db': Db, out: seq<Obs>)
    requires Runs(env, db, cs, db', out) && CleanDeletes(db.cur.journal)
    ensures CleanDeletes(db'.cur.journal)
    decreases |cs|
  {
    if cs != [] {
      StepClean(env, db, cs[0]);
      RunClean(env, Run1(env, db, cs[0]).0, cs[1..], db', out[1..]);
    }
  }

  /** The write set holds the last write of each key. */
  lemma {:induction false} WritesLast(journal: seq<Entry>, k: StateKey)
    ensures k in Writes(journal) <==> LastWrite(journal, k).Some?
    ensures k in Writes(journal) ==> Writes(journal)[k] == LastWrite(journal, k).value && Writes(journal)[k].key == k
  {
    if journal != [] {
      WritesLast(journal[..|journal| - 1], k);
    }
  }

  lemma {:induction false} LastClean(journal: seq<Entry>, k: StateKey)
    requires CleanDeletes(journal) && LastWrite(journal, k).Some?
    ensures LastWrite(journal, k).value.isDelete ==> LastWrite(journal, k).value.value == None
  {
    var n := |journal| - 1;
    if !(journal[n].WriteEntry? && journal[n].write.key == k) {
      LastClean(journal[..n], k);
    }
  }

  /* ---- the commit ---- */

  /** These are the writes of the map, each once, in some order. */
  ghost predicate Lists(ws: seq<Write>, m: map<StateKey, Write>) {
    && (forall i :: 0 <= i < |ws| ==> ws[i].key in m && m[ws[i].key] == ws[i])
    && (forall k :: k in m ==> m[k] in ws)
    && Distinct(ws)
  }

  function ToKeyWrite(nm: Naming, w: Write): KeyWrite {
    KeyWrite(Text(nm.up, w.key), w.value, w.isDelete)
  }

  function KeyWrites(nm: Naming, ws: seq<Write>): seq<KeyWrite> {
    seq(|ws|, i requires 0 <= i < |ws| => ToKeyWrite(nm, ws[i]))
  }

  /** A block with one valid transaction that made these writes. */
  function CommitOf(number: U64, tx: U64, id: Bytes, nm: Naming, ws: seq<Write>): Block {
    Block(number, [Tx(tx, id, true, [NsWrites(nm.ns, KeyWrites(nm, ws))])])
  }

  function UpdateOf(number: U64, tx: U64, id: Bytes, nm: Naming, w: Write): Update {
    Update(Place(nm, w.key), w.value, number, tx, id, w.isDelete)
  }

  function UpdatesOf(number: U64, tx: U64, id: Bytes, nm: Naming, ws: seq<Write>): seq<Update> {
    if ws == [] then []
    else var n := |ws| - 1; UpdatesOf(number, tx, id, nm, ws[..n]) + [UpdateOf(number, tx, id, nm, ws[n])]
  }

  lemma {:induction false} NsUpdatesAre(number: U64, tx: Tx, nm: Naming, ws: seq<Write>)
    ensures NsUpdates(number, tx, nm.ns, KeyWrites(nm, ws)) == UpdatesOf(number, tx.number, tx.id, nm, ws)
  {
    if ws != [] {
      var n := |ws| - 1;
      NsUpdatesAre(number, tx, nm, ws[..n]);
      assert KeyWrites(nm, ws)[..n] == KeyWrites(nm, ws[..n]);
    }
  }

  lemma {:induction false} CommitUpdates(number: U64, tx: U64, id: Bytes, nm: Naming, ws: seq<Write>)
    ensures BlockUpdates(CommitOf(number, tx, id, nm, ws)) == UpdatesOf(number, tx, id, nm, ws)
  {
    var b := CommitOf(number, tx, id, nm, ws);
    var t, set1 := b.txs[0], b.txs[0].sets[0];
    NsUpdatesAre(number, t, nm, ws);
    assert b.txs[..0] == [] && t.sets[..0] == [];
    assert SetUpdates(number, t, t.sets) == [] + NsUpdates(number, t, nm.ns, set1.writes);
    assert TxUpdates(number, b.txs) == [] + SetUpdates(number, t, t.sets);
  }

  ghost predicate Distinct(ws: seq<Write>) {
    forall i, j :: 0 <= i < j < |ws| ==> ws[i].key != ws[j].key
  }

  predicate Holds(r: Option<Record>, w: Write) {
    r.Some? && r.value.value == w.value && r.value.isDelete == w.isDelete
  }

  /** One more write of the batch. */
  lemma LatestNext(log: seq<Update>, nm: Naming, w: Write, u: Update, k: StateKey)
    requires u.key == Place(nm, w.key) && u.value == w.value && u.isDelete == w.isDelete
    ensures w.key == k ==> Holds(Latest(log + [u], Place(nm, k)), w)
    ensures w.key != k ==> Latest(log + [u], Place(nm, k)) == Latest(log, Place(nm, k))
  {
    Append(log, u);
    if Place(nm, w.key) == Place(nm, k) {
      PlaceInjective(nm, w.key, k);
    }
  }

  /** A committed write is what its key holds, and every other key holds what it held. */
  ghost predicate Committed(log: seq<Update>, log': seq<Update>, nm: Naming, ws: seq<Write>) {
    && (forall i :: 0 <= i < |ws| ==> Holds(Latest(log', Place(nm, ws[i].key)), ws[i]))
    && (forall k :: (forall i :: 0 <= i < |ws| ==> ws[i].key != k) ==>
          Latest(log', Place(nm, k)) == Latest(log, Place(nm, k)))
  }

  lemma CommittedNext(log: seq<Update>, log': seq<Update>, nm: Naming, ws: seq<Write>, w: Write, u: Update)
    requires Committed(log, log', nm, ws) && Distinct(ws + [w])
    requires u.key == Place(nm, w.key) && u.value == w.value && u.isDelete == w.isDelete
    ensures Committed(log, log' + [u], nm, ws + [w])
  {
    var ws' := ws + [w];
    forall i | 0 <= i < |ws'|
      ensures Holds(Latest(log' + [u], Place(nm, ws'[i].key)), ws'[i])
    {
      LatestNext(log', nm, w, u, ws'[i].key);
      if i < |ws| {
        assert ws'[i] == ws[i] && ws'[i].key != ws'[|ws|].key;
      }
    }
    forall k | forall i :: 0 <= i < |ws'| ==> ws'[i].key != k
      ensures Latest(log' + [u], Place(nm, k)) == Latest(log, Place(nm, k))
    {
      LatestNext(log', nm, w, u, k);
      assert ws'[|ws|].key != k;
      assert forall i :: 0 <= i < |ws| ==> ws[i] == ws'[i];
    }
  }

  lemma {:induction false} AllCommitted(log: seq<Update>, number: U64, tx: U64, id: Bytes, nm: Naming, ws: seq<Write>)
    requires Distinct(ws)
    ensures Committed(log, log + UpdatesOf(number, tx, id, nm, ws), nm, ws)
  {
    if ws == [] {
      assert log + UpdatesOf(number, tx, id, nm, ws) == log;
    } else {
      var n := |ws| - 1;
      var u := UpdateOf(number, tx, id, nm, ws[n]);
      AllCommitted(log, number, tx, id, nm, ws[..n]);
      Snoc(ws);
      CommittedNext(log, log + UpdatesOf(number, tx, id, nm, ws[..n]), nm, ws[..n], ws[n], u);
      Associate(log, UpdatesOf(number, tx, id, nm, ws[..n]), [u]);
    }
  }

  lemma {:induction false} ValueKept(env: Env, env': Env, nm: Naming, log: seq<Update>, log': seq<Update>,
                                     journal: seq<Entry>, ws: seq<Write>, k: StateKey)
    requires ReadsLog(env, nm, log) && ReadsLog(env', nm, log') && Committed(log, log', nm, ws)
    requires CleanDeletes(journal) && Lists(ws, Writes(journal))
    ensures ValueNow(env', [], k) == ValueNow(env, journal, k)
  {
    WritesLast(journal, k);
    assert env.store(k) == Latest(log, Place(nm, k)) && env'.store(k) == Latest(log', Place(nm, k));
    if k in Writes(journal) {
      var w := Writes(journal)[k];
      assert w in ws;
      var i :| 0 <= i < |ws| && ws[i] == w;
      assert Holds(env'.store(k), ws[i]);
      LastClean(journal, k);
    }
  }

  /** The next transaction finds, under every state key, what this one left there. */
  lemma {:induction false} ValueCarries(env: Env, env': Env, nm: Naming, log: seq<Update>, journal: seq<Entry>,
                                        ws: seq<Write>, number: U64, tx: U64, id: Bytes, k: StateKey)
    requires ReadsLog(env, nm, log) && CleanDeletes(journal) && Lists(ws, Writes(journal))
    requires ReadsLog(env', nm, log + BlockUpdates(CommitOf(number, tx, id, nm, ws)))
    ensures ValueNow(env', [], k) == ValueNow(env, journal, k)
  {
    CommitUpdates(number, tx, id, nm, ws);
    AllCommitted(log, number, tx, id, nm, ws);
    ValueKept(env, env', nm, log, log + UpdatesOf(number, tx, id, nm, ws), journal, ws, k);
  }

  /* ---- what accounts look like ---- */

  /** The questions about an account. */
  predicate Asks(op: Op) {
    op.GetBalance? || op.GetNonce? || op.GetCode? || op.GetState? || op.Exist? || op.Empty?
  }

  lemma GetNow(env: Env, st: State, k: StateKey, k': StateKey)
    ensures Get(env, st, k).1 == ValueNow(env, st.journal, k)
    ensures ValueNow(env, Get(env, st, k).0.journal, k') == ValueNow(env, st.journal, k')
  {
    Append(st.journal, ReadEntry(Read(k, VersionOf(env, k))));
  }

  ghost predicate SameValues(env: Env, st: State, env': Env, st': State) {
    forall k :: ValueNow(env, st.journal, k) == ValueNow(env', st'.journal, k)
  }

  lemma SameAfterGet(env: Env, st: State, env': Env, st': State, k: StateKey)
    requires SameValues(env, st, env', st')
    ensures Get(env, st, k).1 == Get(env', st', k).1
    ensures SameValues(env, Get(env, st, k).0, env', Get(env', st', k).0)
  {
    forall k'
      ensures ValueNow(env, Get(env, st, k).0.journal, k') == ValueNow(env', Get(env', st', k).0.journal, k')
    {
      GetNow(env, st, k, k');
      GetNow(env', st', k, k');
      assert ValueNow(env, st.journal, k') == ValueNow(env', st'.journal, k');
    }
    GetNow(env, st, k, k);
    GetNow(env', st', k, k);
    assert ValueNow(env, st.journal, k) == ValueNow(env', st'.journal, k);
  }

  /** Balance, nonce and code read in turn. */
  lemma SameThree(env: Env, st: State, env': Env, st': State, a: Address)
    requires SameValues(env, st, env', st')
    ensures var g, g' := Get(env, st, BalanceKey(a)), Get(env', st', BalanceKey(a));
            var h, h' := Get(env, g.0, NonceKey(a)), Get(env', g'.0, NonceKey(a));
            g.1 == g'.1 && h.1 == h'.1 && Get(env, h.0, CodeKey(a)).1 == Get(env', h'.0, CodeKey(a)).1
  {
    SameAfterGet(env, st, env', st', BalanceKey(a));
    var st1, st1' := Get(env, st, BalanceKey(a)).0, Get(env', st', BalanceKey(a)).0;
    SameAfterGet(env, st1, env', st1', NonceKey(a));
    var st2, st2' := Get(env, st1, NonceKey(a)).0, Get(env', st1', NonceKey(a)).0;
    SameAfterGet(env, st2, env', st2', CodeKey(a));
  }

  lemma SameExist(env: Env, st: State, env': Env, st': State, a: Address)
    requires SameValues(env, st, env', st')
    ensures DoExist(env, st, a).1 == DoExist(env', st', a).1
  {
    SameThree(env, st, env', st', a);
  }

  lemma SameEmpty(env: Env, st: State, env': Env, st': State, a: Address)
    requires SameValues(env, st, env', st')
    ensures DoEmpty(env, st, a).1 == DoEmpty(env', st', a).1
  {
    SameThree(env, st, env', st', a);
  }

  lemma SameAnswer(env: Env, st: State, env': Env, st': State, op: Op)
    requires SameValues(env, st, env', st') && Asks(op)
    ensures Step(env, st, op).1 == Step(env', st', op).1
  {
    match op
    case GetBalance(a) => SameAfterGet(env, st, env', st', BalanceKey(a));
    case GetNonce(a) => SameAfterGet(env, st, env', st', NonceKey(a));
    case GetCode(a) => SameAfterGet(env, st, env', st', CodeKey(a));
    case GetState(a, slot) => SameAfterGet(env, st, env', st', StorageKey(a, slot));
    case Exist(a) => SameExist(env, st, env', st', a);
    case Empty(a) => SameEmpty(env, st, env', st', a);
  }

  /** After any run, reverts included: commit the write set, in any order, as a block; a new StateDB on the new
      state answers every question about every account as the old one did. */
  lemma {:induction false} CommitCarries(env: Env, env': Env, nm: Naming, log: seq<Update>, cs: seq<Command>, db: Db,
                                         out: seq<Obs>, ws: seq<Write>, number: U64, tx: U64, id: Bytes, op: Op)
    requires ReadsLog(env, nm, log) && Runs(env, NewDb, cs, db, out) && Lists(ws, Writes(db.cur.journal))
    requires ReadsLog(env', nm, log + BlockUpdates(CommitOf(number, tx, id, nm, ws)))
    requires Asks(op)
    ensures Step(env', EmptyState, op).1 == Step(env, db.cur, op).1
  {
    RunClean(env, NewDb, cs, db, out);
    forall k
      ensures ValueNow(env, db.cur.journal, k) == ValueNow(env', EmptyState.journal, k)
    {
      ValueCarries(env, env', nm, log, db.cur.journal, ws, number, tx, id, k);
    }
    SameAnswer(env, db.cur, env', EmptyState, op);
  }

  /* ---- through the in-memory store ---- */

  /** Reads from a snapshot of the in-memory store. */
  function EnvOf(sn: LightModel.Snapshot, nm: Naming, monotonic: bool): Env {
    Env(k => Lookup(sn.data, Place(nm, k)), monotonic)
  }

  lemma TipReadsLog(s: LightModel.Light, T: seq<LightModel.Snapshot>, l: Ledger.Ledger, nm: Naming, monotonic: bool)
    requires LightRuns.Inv(s, T, l)
    ensures ReadsLog(EnvOf(s.current, nm, monotonic), nm, l.log)
  {
    forall k
      ensures EnvOf(s.current, nm, monotonic).store(k) == Latest(l.log, Place(nm, k))
    {
      assert Lookup(s.current.data, Place(nm, k)) == Latest(l.log, Place(nm, k));
    }
  }

  /** The whole way: a transaction on the tip of the store, its writes delivered as the next block, and a new
      StateDB on the new tip. */
  lemma {:induction false} LightCarries(size: nat, bs: seq<Block>, nm: Naming, monotonic: bool, cs: seq<Command>,
                                        db: Db, out: seq<Obs>, ws: seq<Write>, number: U64, tx: U64, id: Bytes,
                                        op: Op)
    requires size > 0 && Ledger.IsNew(Ledger.Of(bs), CommitOf(number, tx, id, nm, ws)) && Asks(op)
    requires var env := EnvOf(LightModel.Run(LightModel.NewLight(size), bs).current, nm, monotonic);
             Runs(env, NewDb, cs, db, out) && Lists(ws, Writes(db.cur.journal))
    ensures var s := LightModel.Run(LightModel.NewLight(size), bs);
            var s' := LightModel.Handle(s, CommitOf(number, tx, id, nm, ws)).0;
            Step(EnvOf(s'.current, nm, monotonic), EmptyState, op).1
            == Step(EnvOf(s.current, nm, monotonic), db.cur, op).1
  {
    var s, l, b := LightModel.Run(LightModel.NewLight(size), bs), Ledger.Of(bs), CommitOf(number, tx, id, nm, ws);
    LightRuns.RunInv(size, bs);
    LightRuns.HandleInv(s, LightRuns.States(bs), l, b);
    TipReadsLog(s, LightRuns.States(bs), l, nm, monotonic);
    var T', s' := LightRuns.States(bs) + [LightRuns.Next(LightRuns.States(bs), b)], LightModel.Handle(s, b).0;
    TipReadsLog(s', T', Ledger.Extend(l, b), nm, monotonic);
    CommitCarries(EnvOf(s.current, nm, monotonic), EnvOf(s'.current, nm, monotonic), nm, l.log, cs, db, out,
                  ws, number, tx, id, op);
  }
}
