/** Reverting by undoing the journal is the same as going back to a saved copy. */
module StateUndo {
  import opened Prelude
  import opened Words
  import opened Records
  import opened StateModel

  // The reference machine saves the whole state at every snapshot and restores the copy on revert. The journalled
  // machine agrees with it on every state and every answer over all nested runs, as long as no transaction is
  // prepared inside a snapshot and no revert crosses the second self-destruct of an account.

  /** Accessed slots belong to accessed addresses; only non-zero transient words are kept. */
  ghost predicate WF(st: State) {
    && (forall p :: p in st.warmSlots ==> p.0 in st.warm)
    && (forall p :: p in st.transient ==> st.transient[p] != 0)
  }

  /** The addresses self-destructed in these journal entries. */
  ghost function Destroyed(entries: seq<Entry>): set<Address> {
    set e | e in entries && e.SelfDestructEntry? :: e.a
  }

  /** st' is st after more operations: undoing what was journalled since gives st back, except for logs,
      which a revert truncates, and marks of accounts that were self-destructed again since. */
  ghost predicate Extends(st: State, st': State) {
    && st.journal <= st'.journal && st.logs <= st'.logs && WF(st) && WF(st')
    && UndoTo(st', |st.journal|)
       == st.(logs := st'.logs, destructed := st.destructed - Destroyed(st'.journal[|st.journal|..]))
  }

  lemma ExtendsSelf(st: State)
    requires WF(st)
    ensures Extends(st, st)
  {
    assert st.journal[|st.journal|..] == [];
    assert st.destructed - {} == st.destructed;
  }

  lemma {:induction false} UndoSplit(st: State, m: nat, n: nat)
    requires n <= m <= |st.journal|
    ensures UndoTo(st, n) == UndoTo(UndoTo(st, m), n)
    decreases |st.journal|
  {
    if m < |st.journal| {
      var k := |st.journal| - 1;
      UndoSplit(UndoEntry(st, st.journal[k]).(journal := st.journal[..k]), m, n);
    }
  }

  lemma UndoEntryCommutes(st: State, e: Entry, logs: seq<Log>, gone: set<Address>)
    ensures UndoEntry(st.(logs := logs, destructed := st.destructed - gone), e)
         == UndoEntry(st, e).(logs := logs, destructed := UndoEntry(st, e).destructed - gone)
  {
    if e.SelfDestructEntry? {
      assert st.destructed - gone - {e.a} == st.destructed - {e.a} - gone;
    }
  }

  /** Undoing neither looks at the logs nor adds a mark. */
  lemma {:induction false} UndoCommutes(st: State, n: nat, logs: seq<Log>, gone: set<Address>)
    requires n <= |st.journal|
    ensures UndoTo(st.(logs := logs, destructed := st.destructed - gone), n)
         == UndoTo(st, n).(logs := logs, destructed := UndoTo(st, n).destructed - gone)
    decreases |st.journal|
  {
    if n < |st.journal| {
      var k := |st.journal| - 1;
      var e := st.journal[k];
      var st1 := UndoEntry(st, e).(journal := st.journal[..k]);
      var st' := st.(logs := logs, destructed := st.destructed - gone);
      UndoCommutes(st1, n, logs, gone);
      UndoEntryCommutes(st, e, logs, gone);
      assert UndoEntry(st', e).(journal := st.journal[..k]) == st1.(logs := logs, destructed := st1.destructed - gone);
    }
  }

  lemma DestroyedConcat(s: seq<Entry>, t: seq<Entry>)
    ensures Destroyed(s + t) == Destroyed(s) + Destroyed(t)
  {
  }

  /** Undoing all of c that was journalled since a. */
  lemma {:induction false} UndoBoth(a: State, b: State, c: State)
    requires Extends(a, b) && Extends(b, c)
    ensures var d1, d2 := Destroyed(b.journal[|a.journal|..]), Destroyed(c.journal[|b.journal|..]);
            UndoTo(c, |a.journal|) == a.(logs := c.logs, destructed := a.destructed - d1 - d2)
  {
    UndoSplit(c, |b.journal|, |a.journal|);
    UndoCommutes(b, |a.journal|, c.logs, Destroyed(c.journal[|b.journal|..]));
  }

  lemma ExtendsTrans(a: State, b: State, c: State)
    requires Extends(a, b) && Extends(b, c)
    ensures Extends(a, c)
  {
    var n, m := |a.journal|, |b.journal|;
    var d1, d2 := Destroyed(b.journal[n..]), Destroyed(c.journal[m..]);
    assert c.journal[n..] == b.journal[n..] + c.journal[m..];
    DestroyedConcat(b.journal[n..], c.journal[m..]);
    assert a.destructed - d1 - d2 == a.destructed - (d1 + d2);
    UndoBoth(a, b, c);
  }

  /** One journal entry and the change it undoes. */
  lemma ExtendsOne(st: State, e: Entry, st': State)
    requires WF(st) && WF(st') && st'.journal == st.journal + [e] && st.logs <= st'.logs
    requires UndoEntry(st', e).(journal := st.journal)
          == st.(logs := st'.logs, destructed := st.destructed - Destroyed([e]))
    ensures Extends(st, st')
  {
    assert st'.journal[..|st.journal|] == st.journal;
    assert st'.journal[|st.journal|..] == [e];
  }

  /** Entries that record something without changing anything else. */
  lemma ExtendsPush(st: State, e: Entry)
    requires WF(st) && (e.ReadEntry? || e.WriteEntry?)
    ensures Extends(st, Push(st, e))
  {
    assert st.destructed - Destroyed([e]) == st.destructed;
    ExtendsOne(st, e, Push(st, e));
  }

  lemma ExtendsGet(env: Env, st: State, k: StateKey)
    requires WF(st)
    ensures Extends(st, Get(env, st, k).0)
  {
    if LastWrite(st.journal, k).Some? {
      ExtendsSelf(st);
    } else {
      ExtendsPush(st, ReadEntry(Read(k, VersionOf(env, k))));
    }
  }

  lemma ExtendsPut(st0: State, st: State, k: StateKey, value: Bytes)
    requires Extends(st0, st)
    ensures Extends(st0, Put(st, k, value))
  {
    ExtendsPush(st, WriteEntry(if value == [] then Write(k, None, true) else Write(k, Some(value), false)));
    ExtendsTrans(st0, st, Put(st, k, value));
  }

  lemma ExtendsGetAfter(env: Env, st0: State, st: State, k: StateKey)
    requires Extends(st0, st)
    ensures Extends(st0, Get(env, st, k).0)
  {
    ExtendsGet(env, st, k);
    ExtendsTrans(st0, st, Get(env, st, k).0);
  }

  lemma ExtendsMark(st0: State, st: State, a: Address)
    requires Extends(st0, st)
    ensures Extends(st0, MarkNewContract(st, a))
  {
    if a !in st.created {
      var st' := MarkNewContract(st, a);
      assert st.created + {a} - {a} == st.created;
      assert st.destructed - Destroyed([NewContractEntry(a)]) == st.destructed;
      ExtendsOne(st, NewContractEntry(a), st');
      ExtendsTrans(st0, st, st');
    }
  }

  lemma ExtendsDestroy(st0: State, st: State, a: Address)
    requires Extends(st0, st)
    ensures Extends(st0, Push(st, SelfDestructEntry(a)).(destructed := st.destructed + {a}))
  {
    var st' := Push(st, SelfDestructEntry(a)).(destructed := st.destructed + {a});
    assert Destroyed([SelfDestructEntry(a)]) == {a} by { assert SelfDestructEntry(a) in [SelfDestructEntry(a)]; }
    assert st.destructed + {a} - {a} == st.destructed - {a};
    ExtendsOne(st, SelfDestructEntry(a), st');
    ExtendsTrans(st0, st, st');
  }

  lemma ExtendsRefund(st: State, refund: U64)
    requires WF(st)
    ensures Extends(st, Push(st, RefundEntry(st.refund)).(refund := refund))
  {
    var e := RefundEntry(st.refund);
    assert st.destructed - Destroyed([e]) == st.destructed;
    ExtendsOne(st, e, Push(st, e).(refund := refund));
  }

  lemma ExtendsTransient(st: State, a: Address, slot: Word, word: Word)
    requires WF(st)
    ensures var e := TransientEntry(a, slot, TransientWord(st.transient, a, slot));
            Extends(st, Push(st, e).(transient := WithTransient(st.transient, a, slot, word)))
  {
    var prev := TransientWord(st.transient, a, slot);
    var e := TransientEntry(a, slot, prev);
    var t := WithTransient(st.transient, a, slot, word);
    assert WithTransient(t, a, slot, prev) == st.transient;
    assert st.destructed - Destroyed([e]) == st.destructed;
    ExtendsOne(st, e, Push(st, e).(transient := t));
  }

  lemma ExtendsWarm(st: State, a: Address)
    requires WF(st)
    ensures Extends(st, WarmAddress(st, a))
  {
    if a in st.warm {
      ExtendsSelf(st);
    } else {
      var e := AddressEntry(a);
      assert st.warm + {a} - {a} == st.warm;
      assert (set p | p in st.warmSlots && p.0 != a) == st.warmSlots;
      assert st.destructed - Destroyed([e]) == st.destructed;
      ExtendsOne(st, e, WarmAddress(st, a));
    }
  }

  lemma ExtendsWarmSlot(st: State, a: Address, slot: Word)
    requires WF(st)
    ensures Extends(st, WarmSlot(st, a, slot))
  {
    if (a, slot) in st.warmSlots {
      ExtendsSelf(st);
    } else {
      ExtendsWarm(st, a);
      var st1, e := WarmAddress(st, a), SlotEntry(a, slot);
      assert st1.warmSlots + {(a, slot)} - {(a, slot)} == st1.warmSlots;
      assert st1.destructed - Destroyed([e]) == st1.destructed;
      ExtendsOne(st1, e, WarmSlot(st, a, slot));
      ExtendsTrans(st, st1, WarmSlot(st, a, slot));
    }
  }

  lemma ExtendsBalance(env: Env, st: State, a: Address, change: Word -> Word, amount: Word)
    requires WF(st)
    ensures Extends(st, ChangeBalance(env, st, a, change, amount).0)
  {
    ExtendsSelf(st);
    if amount != 0 {
      var (st1, v) := Get(env, st, BalanceKey(a));
      ExtendsGet(env, st, BalanceKey(a));
      ExtendsPut(st, st1, BalanceKey(a), Minimal(change(ToWord(Raw(v)))));
    }
  }

  lemma ExtendsSelfDestruct(env: Env, st: State, a: Address)
    requires WF(st)
    ensures Extends(st, DoSelfDestruct(env, st, a))
  {
    var (st1, v) := Get(env, st, BalanceKey(a));
    ExtendsGet(env, st, BalanceKey(a));
    var st2 := if ToWord(Raw(v)) != 0 then Put(st1, BalanceKey(a), []) else st1;
    ExtendsPut(st, st1, BalanceKey(a), []);
    if a in st2.created {
      ExtendsDestroy(st, st2, a);
    }
  }

  /** Balance, nonce and code read in turn. */
  lemma ExtendsThree(env: Env, st: State, a: Address)
    requires WF(st)
    ensures var st1 := Get(env, st, BalanceKey(a)).0;
            var st2 := Get(env, st1, NonceKey(a)).0;
            Extends(st, st1) && Extends(st, st2) && Extends(st, Get(env, st2, CodeKey(a)).0)
  {
    var st1 := Get(env, st, BalanceKey(a)).0;
    ExtendsGet(env, st, BalanceKey(a));
    var st2 := Get(env, st1, NonceKey(a)).0;
    ExtendsGetAfter(env, st, st1, NonceKey(a));
    ExtendsGetAfter(env, st, st2, CodeKey(a));
  }

  lemma ExtendsExist(env: Env, st: State, a: Address)
    requires WF(st)
    ensures Extends(st, DoExist(env, st, a).0)
  {
    ExtendsThree(env, st, a);
  }

  lemma ExtendsEmpty(env: Env, st: State, a: Address)
    requires WF(st)
    ensures Extends(st, DoEmpty(env, st, a).0)
  {
    ExtendsThree(env, st, a);
  }

  /** Operations that only read or write state keys. */
  predicate OnKeys(op: Op) {
    || op.GetBalance? || op.AddBalance? || op.SubBalance? || op.GetNonce? || op.SetNonce? || op.GetCode? || op.SetCode?
    || op.GetState? || op.GetStateAndCommitted? || op.SetState? || op.Exist? || op.Empty?
  }

  /** Operations that read one state key. */
  predicate OneRead(op: Op) {
    op.GetBalance? || op.GetNonce? || op.GetCode? || op.GetState? || op.GetStateAndCommitted?
  }

  lemma ReadExtends(env: Env, st: State, op: Op, st': State)
    requires WF(st) && OneRead(op) && st' == Step(env, st, op).0
    ensures Extends(st, st')
  {
    match op
    case GetBalance(a) => ExtendsGet(env, st, BalanceKey(a));
    case GetNonce(a) => ExtendsGet(env, st, NonceKey(a));
    case GetCode(a) => ExtendsGet(env, st, CodeKey(a));
    case GetState(a, slot) => ExtendsGet(env, st, StorageKey(a, slot));
    case GetStateAndCommitted(a, slot) =>
      ExtendsPush(st, ReadEntry(Read(StorageKey(a, slot), VersionOf(env, StorageKey(a, slot)))));
  }

  lemma SetNonceExtends(env: Env, st: State, a: Address, nonce: U64)
    requires WF(st)
    ensures Extends(st, Step(env, st, SetNonce(a, nonce)).0)
  {
    ExtendsSelf(st);
    ExtendsPut(st, st, NonceKey(a), Fixed(nonce, 8));
  }

  lemma SetCodeExtends(env: Env, st: State, a: Address, code: Bytes)
    requires WF(st)
    ensures Extends(st, Step(env, st, SetCode(a, code)).0)
  {
    ExtendsGet(env, st, CodeKey(a));
    ExtendsPut(st, Get(env, st, CodeKey(a)).0, CodeKey(a), code);
  }

  lemma SetStateExtends(env: Env, st: State, a: Address, slot: Word, word: Word)
    requires WF(st)
    ensures Extends(st, Step(env, st, SetState(a, slot, word)).0)
  {
    ExtendsSelf(st);
    ExtendsPut(st, st, StorageKey(a, slot), if word == 0 then [] else Fixed(word, 32));
  }

  lemma AddBalanceExtends(env: Env, st: State, a: Address, amount: Word)
    requires WF(st)
    ensures Extends(st, Step(env, st, AddBalance(a, amount)).0)
  {
    ExtendsBalance(env, st, a, prev => (prev + amount) % TWO_256, amount);
  }

  lemma SubBalanceExtends(env: Env, st: State, a: Address, amount: Word)
    requires WF(st)
    ensures Extends(st, Step(env, st, SubBalance(a, amount)).0)
  {
    ExtendsBalance(env, st, a, prev => (prev - amount) % TWO_256, amount);
  }

  lemma KeyStepExtends(env: Env, st: State, op: Op)
    requires WF(st) && OnKeys(op)
    ensures Extends(st, Step(env, st, op).0)
  {
    if op.AddBalance? {
      AddBalanceExtends(env, st, op.a, op.amount);
    } else if op.SubBalance? {
      SubBalanceExtends(env, st, op.a, op.amount);
    } else if op.Exist? {
      ExtendsExist(env, st, op.a);
    } else if op.Empty? {
      ExtendsEmpty(env, st, op.a);
    } else if OneRead(op) {
      ReadExtends(env, st, op, Step(env, st, op).0);
    } else if op.SetNonce? {
      SetNonceExtends(env, st, op.a, op.nonce);
    } else if op.SetCode? {
      SetCodeExtends(env, st, op.a, op.code);
    } else {
      SetStateExtends(env, st, op.a, op.slot, op.word);
    }
  }

  lemma ExtendsCreate(st: State, a: Address)
    requires WF(st)
    ensures Extends(st, MarkNewContract(Put(Put(st, BalanceKey(a), []), NonceKey(a), Fixed(0, 8)), a))
    ensures Extends(st, MarkNewContract(Put(st, CodeKey(a), []), a))
  {
    ExtendsSelf(st);
    ExtendsPut(st, st, BalanceKey(a), []);
    ExtendsPut(st, Put(st, BalanceKey(a), []), NonceKey(a), Fixed(0, 8));
    ExtendsMark(st, Put(Put(st, BalanceKey(a), []), NonceKey(a), Fixed(0, 8)), a);
    ExtendsPut(st, st, CodeKey(a), []);
    ExtendsMark(st, Put(st, CodeKey(a), []), a);
  }

  lemma ExtendsLog(st: State, log: Log)
    requires WF(st)
    ensures Extends(st, st.(logs := st.logs + [log]))
  {
    assert st.journal[|st.journal|..] == [];
    assert st.destructed - {} == st.destructed;
  }

  lemma RefundExtends(env: Env, st: State, op: Op, st': State)
    requires WF(st) && (op.AddRefund? || op.SubRefund?) && st' == Step(env, st, op).0
    ensures Extends(st, st')
  {
    match op
    case AddRefund(gas) => ExtendsRefund(st, (st.refund + gas) % TWO_64);
    case SubRefund(gas) => if gas <= st.refund { ExtendsRefund(st, st.refund - gas); } else { ExtendsSelf(st); }
  }

  lemma RestStepExtends(env: Env, st: State, op: Op, st': State)
    requires WF(st) && !OnKeys(op) && !op.Prepare? && !op.CreateAccount? && !op.CreateContract? && !op.SelfDestruct?
    requires st' == Step(env, st, op).0
    ensures Extends(st, st')
  {
    if op.AddRefund? || op.SubRefund? {
      RefundExtends(env, st, op, st');
    } else if op.AddLog? {
      ExtendsLog(st, op.log);
    } else if op.SetTransient? {
      ExtendsTransient(st, op.a, op.slot, op.word);
    } else if op.AddAddressToAccessList? {
      ExtendsWarm(st, op.a);
    } else if op.AddSlotToAccessList? {
      ExtendsWarmSlot(st, op.a, op.slot);
    } else {
      assert st' == st;
      ExtendsSelf(st);
    }
  }

  /** Every operation except Prepare can be undone exactly. */
  lemma StepExtends(env: Env, st: State, op: Op)
    requires WF(st) && !op.Prepare?
    ensures Extends(st, Step(env, st, op).0)
  {
    if OnKeys(op) {
      KeyStepExtends(env, st, op);
    } else if op.CreateAccount? || op.CreateContract? {
      ExtendsCreate(st, op.a);
    } else if op.SelfDestruct? {
      ExtendsSelfDestruct(env, st, op.a);
    } else {
      RestStepExtends(env, st, op, Step(env, st, op).0);
    }
  }

  /* ---- the two machines ---- */

  datatype Revision = Revision(id: nat, journalIndex: nat, logIndex: nat)

  /** The journalled machine: snapshots remember how long the journal and the logs were. */
  datatype Db = Db(cur: State, revisions: seq<Revision>, nextId: nat)

  datatype Saved = Saved(id: nat, state: State)

  /** The reference machine: snapshots keep a copy. */
  datatype Ref = Ref(cur: State, saved: seq<Saved>, nextId: nat)

  datatype Command = Do(op: Op) | Snapshot | Revert(id: nat)

  /** Where the first snapshot with this id is, or the end. */
  function Find(revisions: seq<Revision>, id: nat): (i: nat)
    ensures i <= |revisions|
    ensures i < |revisions| ==> revisions[i].id == id
    ensures forall j :: 0 <= j < i ==> revisions[j].id != id
  {
    if revisions == [] then 0
    else if revisions[0].id == id then 0 else 1 + Find(revisions[1..], id)
  }

  /** Revisions lie within the journal and the logs, in the order they were taken. */
  ghost predicate InRange(db: Db) {
    && WF(db.cur)
    && (forall r :: r in db.revisions ==> r.journalIndex <= |db.cur.journal| && r.logIndex <= |db.cur.logs|)
    && (forall i, j :: 0 <= i < j < |db.revisions| ==>
          && db.revisions[i].journalIndex <= db.revisions[j].journalIndex
          && db.revisions[i].logIndex <= db.revisions[j].logIndex)
  }

  /** Undoes the journal back to a revision and truncates logs and revisions; an unknown id is ignored. */
  function RevertToSnapshot(db: Db, id: nat): Db
    requires InRange(db)
  {
    var i := Find(db.revisions, id);
    if i == |db.revisions| then db
    else
      var r := db.revisions[i];
      db.(cur := UndoTo(db.cur, r.journalIndex).(logs := db.cur.logs[..r.logIndex]), revisions := db.revisions[..i])
  }

  function Run1(env: Env, db: Db, c: Command): (Db, Obs)
    requires InRange(db)
  {
    match c
    case Do(op) => var (st, obs) := Step(env, db.cur, op); (db.(cur := st), obs)
    case Snapshot =>
      (Db(db.cur, db.revisions + [Revision(db.nextId, |db.cur.journal|, |db.cur.logs|)], db.nextId + 1),
       Number(db.nextId))
    case Revert(id) => (RevertToSnapshot(db, id), Done)
  }

  function FindSaved(saved: seq<Saved>, id: nat): (i: nat)
    ensures i <= |saved|
    ensures i < |saved| ==> saved[i].id == id
    ensures forall j :: 0 <= j < i ==> saved[j].id != id
  {
    if saved == [] then 0
    else if saved[0].id == id then 0 else 1 + FindSaved(saved[1..], id)
  }

  function Ref1(env: Env, ref: Ref, c: Command): (Ref, Obs) {
    match c
    case Do(op) => var (st, obs) := Step(env, ref.cur, op); (ref.(cur := st), obs)
    case Snapshot => (Ref(ref.cur, ref.saved + [Saved(ref.nextId, ref.cur)], ref.nextId + 1), Number(ref.nextId))
    case Revert(id) =>
      var i := FindSaved(ref.saved, id);
      (if i == |ref.saved| then ref else ref.(cur := ref.saved[i].state, saved := ref.saved[..i]), Done)
  }

  /** The two machines are in step: every saved copy can be reached by undoing. */
  ghost predicate InStep(db: Db, ref: Ref) {
    && db.cur == ref.cur && db.nextId == ref.nextId && |db.revisions| == |ref.saved| && WF(db.cur)
    && (forall i :: 0 <= i < |ref.saved| ==>
          db.revisions[i] == Revision(ref.saved[i].id, |ref.saved[i].state.journal|, |ref.saved[i].state.logs|))
    && (forall i :: 0 <= i < |ref.saved| ==> Extends(ref.saved[i].state, db.cur))
    && (forall i, j :: 0 <= i < j < |ref.saved| ==> Extends(ref.saved[i].state, ref.saved[j].state))
  }

  lemma InStepRange(db: Db, ref: Ref)
    requires InStep(db, ref)
    ensures InRange(db)
  {
  }

  lemma {:induction false} UndoWF(st: State, n: nat)
    requires WF(st) && n <= |st.journal|
    ensures WF(UndoTo(st, n))
    decreases |st.journal|
  {
    if n < |st.journal| {
      var k := |st.journal| - 1;
      UndoWF(UndoEntry(st, st.journal[k]).(journal := st.journal[..k]), n);
    }
  }

  lemma StepGrows(env: Env, st: State, op: Op)
    requires WF(st)
    ensures var st' := Step(env, st, op).0; st.journal <= st'.journal && st.logs <= st'.logs && WF(st')
  {
    if op.Prepare? { PrepareWF(st, op.warm, op.tuples); } else { StepExtends(env, st, op); }
  }

  lemma RevertKeepsRange(db: Db, id: nat)
    requires InRange(db)
    ensures InRange(RevertToSnapshot(db, id))
  {
    var i := Find(db.revisions, id);
    if i < |db.revisions| {
      UndoWF(db.cur, db.revisions[i].journalIndex);
    }
  }

  /** Every command keeps the revisions in range, clean or not. */
  lemma RangeKept(env: Env, db: Db, c: Command)
    requires InRange(db)
    ensures InRange(Run1(env, db, c).0)
  {
    match c
    case Do(op) => StepGrows(env, db.cur, op);
    case Snapshot =>
    case Revert(id) => RevertKeepsRange(db, id);
  }

  lemma {:induction false} SameFind(db: Db, ref: Ref, id: nat)
    requires InStep(db, ref)
    ensures Find(db.revisions, id) == FindSaved(ref.saved, id)
  {
  }

  lemma DifferenceSame<T(!new)>(s: set<T>, t: set<T>)
    ensures s - t == s <==> s * t == {}
  {
    if s * t == {} {
      forall x | x in s
        ensures x !in t
      {
        assert x !in s * t;
      }
    } else {
      var x :| x in s * t;
      assert x !in s - t;
    }
  }

  /** An account marked at the snapshot was self-destructed again since. */
  ghost predicate Remarked(saved: State, cur: State)
    requires saved.journal <= cur.journal
  {
    saved.destructed * Destroyed(cur.journal[|saved.journal|..]) != {}
  }

  /** Reverting gives back the state at the snapshot exactly when no account marked as self-destructed then
      was self-destructed again since. */
  lemma {:induction false} RevertExactIff(saved: State, cur: State)
    requires Extends(saved, cur)
    ensures UndoTo(cur, |saved.journal|).(logs := cur.logs[..|saved.logs|]) == saved <==> !Remarked(saved, cur)
  {
    assert cur.logs[..|saved.logs|] == saved.logs;
    DifferenceSame(saved.destructed, Destroyed(cur.journal[|saved.journal|..]));
  }

  /** A command whose revert is exact: no Prepare inside a snapshot, no revert across a repeated self-destruct. */
  ghost predicate Clean(ref: Ref, c: Command) {
    match c
    case Do(op) => op.Prepare? ==> ref.saved == []
    case Snapshot => true
    case Revert(id) =>
      var i := FindSaved(ref.saved, id);
      i < |ref.saved| ==>
        ref.saved[i].state.journal <= ref.cur.journal && !Remarked(ref.saved[i].state, ref.cur)
  }

  lemma PrepareWF(st: State, warm: seq<Address>, tuples: seq<AccessTuple>)
    requires WF(st)
    ensures WF(DoPrepare(st, warm, tuples))
  {
    forall p | p in TupleSlots(tuples)
      ensures p.0 in set t | t in tuples :: t.a
    {
      var t, slot :| t in tuples && slot in t.slots && p == (t.a, slot);
    }
  }

  lemma DoInStep(env: Env, db: Db, ref: Ref, op: Op)
    requires InStep(db, ref) && (op.Prepare? ==> ref.saved == [])
    ensures InStep(db.(cur := Step(env, db.cur, op).0), ref.(cur := Step(env, ref.cur, op).0))
  {
    if op.Prepare? {
      PrepareWF(db.cur, op.warm, op.tuples);
    } else {
      var st := Step(env, db.cur, op).0;
      StepExtends(env, db.cur, op);
      forall i | 0 <= i < |ref.saved|
        ensures Extends(ref.saved[i].state, st)
      {
        ExtendsTrans(ref.saved[i].state, db.cur, st);
      }
    }
  }

  /** One command on both machines: same answer, still in step. */
  lemma CommandAgrees(env: Env, db: Db, ref: Ref, c: Command)
    requires InStep(db, ref) && Clean(ref, c)
    ensures InRange(db)
    ensures Run1(env, db, c).1 == Ref1(env, ref, c).1 && InStep(Run1(env, db, c).0, Ref1(env, ref, c).0)
  {
    InStepRange(db, ref);
    match c
    case Do(op) => DoInStep(env, db, ref, op);
    case Snapshot => ExtendsSelf(db.cur);
    case Revert(id) =>
      SameFind(db, ref, id);
      var i := Find(db.revisions, id);
      if i < |db.revisions| {
        RevertExactIff(ref.saved[i].state, db.cur);
      }
  }

  /** A run of the journalled machine: the final state and every answer. */
  ghost predicate Runs(env: Env, db: Db, cs: seq<Command>, db': Db, out: seq<Obs>)
    decreases |cs|
  {
    if cs == [] then db' == db && out == []
    else
      && InRange(db) && out != [] && out[0] == Run1(env, db, cs[0]).1
      && Runs(env, Run1(env, db, cs[0]).0, cs[1..], db', out[1..])
  }

  ghost predicate RefRuns(env: Env, ref: Ref, cs: seq<Command>, ref': Ref, out: seq<Obs>)
    decreases |cs|
  {
    if cs == [] then ref' == ref && out == []
    else
      && out != [] && out[0] == Ref1(env, ref, cs[0]).1
      && RefRuns(env, Ref1(env, ref, cs[0]).0, cs[1..], ref', out[1..])
  }

  ghost predicate CleanRun(env: Env, ref: Ref, cs: seq<Command>)
    decreases |cs|
  {
    cs == [] || (Clean(ref, cs[0]) && CleanRun(env, Ref1(env, ref, cs[0]).0, cs[1..]))
  }

  lemma {:induction false} RunsInStep(env: Env, db: Db, ref: Ref, cs: seq<Command>, db': Db, ref': Ref, out: seq<Obs>,
                                      out': seq<Obs>)
    requires InStep(db, ref) && CleanRun(env, ref, cs)
    requires Runs(env, db, cs, db', out) && RefRuns(env, ref, cs, ref', out')
    ensures InStep(db', ref') && out == out'
    decreases |cs|
  {
    if cs != [] {
      var r, r' := Run1(env, db, cs[0]), Ref1(env, ref, cs[0]);
      assert r.1 == r'.1 && InStep(r.0, r'.0) by { CommandAgrees(env, db, ref, cs[0]); }
      RunsInStep(env, r.0, r'.0, cs[1..], db', ref', out[1..], out'[1..]);
      assert out == [out[0]] + out[1..] && out' == [out'[0]] + out'[1..];
    }
  }

  const NewDb := Db(EmptyState, [], 0)
  const NewRef := Ref(EmptyState, [], 0)

  /** From a new StateDB, undoing the journal and restoring copies give the same answers and the same state
      (journal, logs, refund, marks, access list, transient storage) over every clean run. */
  lemma {:induction false} UndoIsRestore(env: Env, cs: seq<Command>, db: Db, ref: Ref, out: seq<Obs>, out': seq<Obs>)
    requires CleanRun(env, NewRef, cs)
    requires Runs(env, NewDb, cs, db, out) && RefRuns(env, NewRef, cs, ref, out')
    ensures out == out' && db.cur == ref.cur
    ensures Reads(db.cur.journal) == Reads(ref.cur.journal) && Writes(db.cur.journal) == Writes(ref.cur.journal)
  {
    RunsInStep(env, NewDb, NewRef, cs, db, ref, out, out');
  }

  /* ---- where reverting is not exact ---- */

  /** Self-destructing an account that is already marked and reverting that call loses the mark. */
  lemma RepeatedSelfDestructLosesMark(env: Env, st: State, a: Address)
    requires WF(st) && a in st.created && a in st.destructed
    ensures var st' := Step(env, st, SelfDestruct(a)).0;
            a in st'.destructed && |st.journal| <= |st'.journal| && a !in UndoTo(st', |st.journal|).destructed
  {
    var st' := Step(env, st, SelfDestruct(a)).0;
    StepExtends(env, st, SelfDestruct(a));
    var (st1, v) := Get(env, st, BalanceKey(a));
    var st2 := if ToWord(Raw(v)) != 0 then Put(st1, BalanceKey(a), []) else st1;
    assert st'.journal == st2.journal + [SelfDestructEntry(a)];
    assert |st.journal| <= |st2.journal|;
    assert SelfDestructEntry(a) in st'.journal[|st.journal|..] by {
      assert st'.journal[|st.journal|..][|st2.journal| - |st.journal|] == SelfDestructEntry(a);
    }
    assert a in Destroyed(st'.journal[|st.journal|..]);
  }

  /* ---- Prepare inside a snapshot ---- */

  /** The addresses these entries warmed. */
  ghost function Warmed(entries: seq<Entry>): set<Address> {
    set e | e in entries && e.AddressEntry? :: e.a
  }

  ghost function WarmedSlots(entries: seq<Entry>): set<(Address, Word)> {
    set e | e in entries && e.SlotEntry? :: (e.a, e.slot)
  }

  /** The slots left after undoing these entries: an address takes its slots with it. */
  ghost function Unwarmed(slots: set<(Address, Word)>, entries: seq<Entry>): set<(Address, Word)> {
    set p | p in slots && p.0 !in Warmed(entries) && p !in WarmedSlots(entries)
  }

  lemma WarmedSnoc(entries: seq<Entry>, e: Entry)
    ensures Warmed([e] + entries) == Warmed(entries) + if e.AddressEntry? then {e.a} else {}
    ensures WarmedSlots([e] + entries) == WarmedSlots(entries) + if e.SlotEntry? then {(e.a, e.slot)} else {}
  {
  }

  /** Undoing looks at the access list only to take from it what the entries put there. */
  lemma {:induction false} UndoAccess(st: State, n: nat, warm: set<Address>, slots: set<(Address, Word)>)
    requires n <= |st.journal|
    ensures UndoTo(st.(warm := warm, warmSlots := slots), n)
         == UndoTo(st, n).(warm := warm - Warmed(st.journal[n..]), warmSlots := Unwarmed(slots, st.journal[n..]))
    decreases |st.journal| - n
  {
    var st' := st.(warm := warm, warmSlots := slots);
    if n == |st.journal| {
      assert st.journal[n..] == [];
      assert warm - {} == warm && Unwarmed(slots, []) == slots;
    } else {
      var e, later := st.journal[n], st.journal[n + 1..];
      UndoAccess(st, n + 1, warm, slots);
      UndoSplit(st, n + 1, n);
      UndoSplit(st', n + 1, n);
      assert st.journal[n..] == [e] + later;
      UndoAccessOne(UndoTo(st, n + 1), n, e, warm - Warmed(later), Unwarmed(slots, later));
      WarmedSnoc(later, e);
      assert warm - Warmed([e] + later) == warm - Warmed(later) - if e.AddressEntry? then {e.a} else {};
      assert Unwarmed(slots, [e] + later) == Without(Unwarmed(slots, later), e);
    }
  }

  /** The slots less what one entry put there. */
  ghost function Without(slots: set<(Address, Word)>, e: Entry): set<(Address, Word)> {
    if e.AddressEntry? then set p | p in slots && p.0 != e.a
    else if e.SlotEntry? then slots - {(e.a, e.slot)}
    else slots
  }

  lemma {:induction false} UndoAccessOne(st: State, n: nat, e: Entry, warm: set<Address>, slots: set<(Address, Word)>)
    requires |st.journal| == n + 1 && st.journal[n] == e
    ensures UndoTo(st.(warm := warm, warmSlots := slots), n)
         == UndoTo(st, n).(warm := warm - (if e.AddressEntry? then {e.a} else {}), warmSlots := Without(slots, e))
  {
    assert warm - {} == warm;
  }

  /** As Extends, but whatever happened to the access list: transactions may have been prepared in between. */
  ghost predicate Apart(st: State, st': State) {
    && st.journal <= st'.journal && st.logs <= st'.logs
    && UndoTo(st', |st.journal|).(warm := st.warm, warmSlots := st.warmSlots)
       == st.(logs := st'.logs, destructed := st.destructed - Destroyed(st'.journal[|st.journal|..]))
  }

  /** Preparing once more. */
  lemma {:induction false} ApartPrepare(st: State, mid: State, prep: State)
    requires Apart(st, mid) && prep == mid.(warm := prep.warm, warmSlots := prep.warmSlots)
    ensures Apart(st, prep)
  {
    UndoAccess(mid, |st.journal|, prep.warm, prep.warmSlots);
  }

  /** What a revert gives back when a transaction was last prepared at prep. */
  lemma {:induction false} UndoAcrossPrepare(saved: State, mid: State, prep: State, cur: State)
    requires Apart(saved, mid) && Extends(prep, cur)
    requires prep == mid.(warm := prep.warm, warmSlots := prep.warmSlots)
    ensures var since := mid.journal[|saved.journal|..];
            var d1, d2 := Destroyed(since), Destroyed(cur.journal[|mid.journal|..]);
            UndoTo(cur, |saved.journal|)
            == saved.(logs := cur.logs, destructed := saved.destructed - d1 - d2,
                      warm := prep.warm - Warmed(since), warmSlots := Unwarmed(prep.warmSlots, since))
  {
    var n, m := |saved.journal|, |mid.journal|;
    UndoSplit(cur, m, n);
    UndoCommutes(prep, n, cur.logs, Destroyed(cur.journal[m..]));
    UndoAccess(mid, n, prep.warm, prep.warmSlots);
  }

  /** Operations after the last Prepare. */
  lemma ApartTrans(saved: State, mid: State, cur: State)
    requires Apart(saved, mid) && Extends(mid, cur)
    ensures Apart(saved, cur)
  {
    var n, m := |saved.journal|, |mid.journal|;
    var d1, d2 := Destroyed(mid.journal[n..]), Destroyed(cur.journal[m..]);
    assert cur.journal[n..] == mid.journal[n..] + cur.journal[m..];
    DestroyedConcat(mid.journal[n..], cur.journal[m..]);
    assert saved.destructed - d1 - d2 == saved.destructed - (d1 + d2);
    UndoAcrossPrepare(saved, mid, mid, cur);
  }

  /** Taking away the marks of both halves takes one away exactly when an account was marked again in either. */
  lemma MarksLost(saved: State, mid: seq<Entry>, cur: State)
    requires saved.journal <= mid <= cur.journal
    ensures saved.destructed - Destroyed(mid[|saved.journal|..]) - Destroyed(cur.journal[|mid|..]) == saved.destructed
            <==> !Remarked(saved, cur)
  {
    var n, m := |saved.journal|, |mid|;
    var d1, d2 := Destroyed(mid[n..]), Destroyed(cur.journal[m..]);
    assert cur.journal[n..] == mid[n..] + cur.journal[m..];
    DestroyedConcat(mid[n..], cur.journal[m..]);
    assert saved.destructed - d1 - d2 == saved.destructed - Destroyed(cur.journal[n..]);
    DifferenceSame(saved.destructed, Destroyed(cur.journal[n..]));
  }

  /** The prepared list, less what was warmed before Prepare inside the snapshot, is the saved one. */
  ghost predicate SameAccess(saved: State, prep: State)
    requires saved.journal <= prep.journal
  {
    var since := prep.journal[|saved.journal|..];
    prep.warm - Warmed(since) == saved.warm && Unwarmed(prep.warmSlots, since) == saved.warmSlots
  }

  lemma SnapshotLies(saved: State, mid: State, prep: State, cur: State)
    requires Apart(saved, mid) && Extends(prep, cur) && prep.journal == mid.journal && prep.logs == mid.logs
    ensures saved.journal <= mid.journal <= cur.journal && cur.logs[..|saved.logs|] == saved.logs
  {
  }

  /** A revert across any number of Prepares, the last giving prep, gives back the saved state if and only if no
      account marked then was self-destructed again since, and the prepared addresses and slots, less those
      warmed between the snapshot and that Prepare, are the saved ones. */
  lemma {:induction false} PrepareUndoneIff(saved: State, mid: State, prep: State, cur: State)
    requires Apart(saved, mid) && Extends(prep, cur)
    requires exists warm: seq<Address>, tuples: seq<AccessTuple> :: prep == DoPrepare(mid, warm, tuples)
    ensures saved.journal <= prep.journal <= cur.journal
    ensures UndoTo(cur, |saved.journal|).(logs := cur.logs[..|saved.logs|]) == saved <==>
              !Remarked(saved, cur) && SameAccess(saved, prep)
  {
    SnapshotLies(saved, mid, prep, cur);
    UndoAcrossPrepare(saved, mid, prep, cur);
    MarksLost(saved, mid.journal, cur);
  }

  /** Every operation, Prepare among them, keeps everything but the access list undoable. */
  lemma StepApart(env: Env, saved: State, st: State, op: Op)
    requires Apart(saved, st) && WF(st)
    ensures Apart(saved, Step(env, st, op).0)
  {
    if op.Prepare? {
      ApartPrepare(saved, st, DoPrepare(st, op.warm, op.tuples));
    } else {
      StepExtends(env, st, op);
      ApartTrans(saved, st, Step(env, st, op).0);
    }
  }
}
