/** The StateDB object: one journal for everything, an index into it built on demand, nested snapshots. */
module StateDB {
  import opened Prelude
  import opened Words
  import opened Records
  import opened StateModel
  import opened StateUndo
  import opened AccessLists

  /** The index maps each written key to the position of its latest write. */
  ghost predicate IndexOk(journal: seq<Entry>, idx: map<StateKey, nat>) {
    forall k ::
      && (k in idx <==> LastWrite(journal, k).Some?)
      && (k in idx ==>
            && idx[k] < |journal| && journal[idx[k]].WriteEntry?
            && journal[idx[k]].write == LastWrite(journal, k).value)
  }

  lemma IndexPush(journal: seq<Entry>, idx: map<StateKey, nat>, e: Entry)
    requires IndexOk(journal, idx)
    ensures IndexOk(journal + [e], if e.WriteEntry? then idx[e.write.key := |journal|] else idx)
  {
    Append(journal, e);
    forall k
      ensures LastWrite(journal + [e], k)
              == if e.WriteEntry? && e.write.key == k then Some(e.write) else LastWrite(journal, k)
    {
    }
  }

  /** c is st undone down to i, but for the journal, which is cut last. */
  ghost predicate Undone(st: State, c: State, i: nat) {
    && i <= |st.journal| && c.journal == st.journal
    && c.(journal := st.journal[..i]) == UndoTo(st, i)
  }

  lemma UndoneAtEnd(st: State)
    ensures Undone(st, st, |st.journal|)
  {
    assert st.journal[..|st.journal|] == st.journal;
  }

  lemma UndoEntryJournal(st: State, e: Entry, journal: seq<Entry>)
    ensures UndoEntry(st, e).journal == st.journal
    ensures UndoEntry(st.(journal := journal), e) == UndoEntry(st, e).(journal := journal)
  {
  }

  /** One more step back. */
  lemma UndoneStep(st: State, c: State, i: nat)
    requires 0 < i && Undone(st, c, i)
    ensures Undone(st, UndoEntry(c, st.journal[i - 1]), i - 1)
  {
    var e := st.journal[i - 1];
    UndoSplit(st, i, i - 1);
    var st' := UndoTo(st, i);
    assert st'.journal[..i - 1] == st.journal[..i - 1] && st'.journal[i - 1] == e;
    UndoEntryJournal(c, e, st.journal[..i]);
    assert UndoTo(st, i - 1) == UndoEntry(st', e).(journal := st.journal[..i - 1]);
  }

  /** The addresses warmed at the start of a transaction, besides those of its access list. */
  function Prepared(shanghai: bool, sender: Address, coinbase: Address, dest: Option<Address>,
                    precompiles: seq<Address>): seq<Address> {
    [sender] + (if dest.Some? then [dest.value] else []) + precompiles + (if shanghai then [coinbase] else [])
  }

  lemma PreparedAre(shanghai: bool, sender: Address, coinbase: Address, dest: Option<Address>,
                    precompiles: seq<Address>)
    ensures Members(Prepared(shanghai, sender, coinbase, dest, precompiles))
         == {sender} + (if dest.Some? then {dest.value} else {}) + Members(precompiles)
            + if shanghai then {coinbase} else {}
  {
  }

  ghost function Pairs(a: Address, slots: seq<Word>): set<(Address, Word)> {
    set slot | slot in slots :: (a, slot)
  }

  lemma PairsSnoc(a: Address, slots: seq<Word>, slot: Word)
    ensures Pairs(a, slots + [slot]) == Pairs(a, slots) + {(a, slot)}
  {
  }

  lemma TuplesSnoc(tuples: seq<AccessTuple>, t: AccessTuple)
    ensures TupleAddresses(tuples + [t]) == TupleAddresses(tuples) + {t.a}
    ensures TupleSlots(tuples + [t]) == TupleSlots(tuples) + Pairs(t.a, t.slots)
  {
  }

  method WarmFirst(sender: Address, dest: Option<Address>) returns (r: AccessList)
    ensures Sound(r) && SlotsAre(r, {}) && r.addresses.Keys == {sender} + if dest.Some? then {dest.value} else {}
  {
    r := AddAddress(NoAccess, sender);
    if dest.Some? {
      r := AddAddress(r, dest.value);
    }
  }

  lemma MembersSnoc(s: seq<Address>, a: Address)
    ensures Members(s + [a]) == Members(s) + {a}
  {
  }

  method WarmAll(al: AccessList, addresses: seq<Address>) returns (r: AccessList)
    requires Sound(al) && SlotsAre(al, {})
    ensures Sound(r) && SlotsAre(r, {}) && r.addresses.Keys == al.addresses.Keys + Members(addresses)
  {
    r := al;
    var i := 0;
    while i < |addresses|
      invariant i <= |addresses| && Sound(r) && SlotsAre(r, {})
      invariant r.addresses.Keys == al.addresses.Keys + Members(addresses[..i])
    {
      TakeNext(addresses, i);
      MembersSnoc(addresses[..i], addresses[i]);
      AddAddressDenotes(r, {}, addresses[i]);
      r := AddAddress(r, addresses[i]);
      i := i + 1;
    }
    assert addresses[..i] == addresses;
  }

  method WarmTuple(al: AccessList, ghost s: set<(Address, Word)>, t: AccessTuple)
    returns (r: AccessList, ghost s': set<(Address, Word)>)
    requires Sound(al) && SlotsAre(al, s)
    ensures Sound(r) && SlotsAre(r, s') && r.addresses.Keys == al.addresses.Keys + {t.a}
    ensures s' == s + Pairs(t.a, t.slots)
  {
    AddAddressDenotes(al, s, t.a);
    r, s' := AddAddress(al, t.a), s;
    var i := 0;
    assert s' == s + Pairs(t.a, t.slots[..i]);
    while i < |t.slots|
      invariant i <= |t.slots| && Sound(r) && SlotsAre(r, s') && r.addresses.Keys == al.addresses.Keys + {t.a}
      invariant s' == s + Pairs(t.a, t.slots[..i])
    {
      PairsSnoc(t.a, t.slots[..i], t.slots[i]);
      TakeNext(t.slots, i);
      AddSlotDenotes(r, s', t.a, t.slots[i]);
      r, s' := AddSlot(r, t.a, t.slots[i]), s' + {(t.a, t.slots[i])};
      i := i + 1;
    }
    assert t.slots[..i] == t.slots;
  }

  method WarmTuples(al: AccessList, tuples: seq<AccessTuple>) returns (r: AccessList)
    requires Sound(al) && SlotsAre(al, {})
    ensures Sound(r) && SlotsAre(r, TupleSlots(tuples))
    ensures r.addresses.Keys == al.addresses.Keys + TupleAddresses(tuples)
  {
    r := al;
    var i := 0;
    ghost var s: set<(Address, Word)> := {};
    while i < |tuples|
      invariant i <= |tuples| && Sound(r) && SlotsAre(r, s)
      invariant r.addresses.Keys == al.addresses.Keys + TupleAddresses(tuples[..i]) && s == TupleSlots(tuples[..i])
    {
      TuplesSnoc(tuples[..i], tuples[i]);
      TakeNext(tuples, i);
      r, s := WarmTuple(r, s, tuples[i]);
      i := i + 1;
    }
    assert tuples[..i] == tuples;
  }

  method PreparedList(shanghai: bool, sender: Address, coinbase: Address, dest: Option<Address>,
                      precompiles: seq<Address>, tuples: seq<AccessTuple>) returns (r: AccessList)
    ensures Sound(r) && SlotsAre(r, TupleSlots(tuples))
    ensures r.addresses.Keys
            == Members(Prepared(shanghai, sender, coinbase, dest, precompiles)) + TupleAddresses(tuples)
  {
    PreparedAre(shanghai, sender, coinbase, dest, precompiles);
    r := WarmFirst(sender, dest);
    r := WarmAll(r, precompiles);
    ghost var keys := r.addresses.Keys;
    r := WarmTuples(r, tuples);
    if shanghai {
      AddAddressDenotes(r, TupleSlots(tuples), coinbase);
      r := AddAddress(r, coinbase);
      assert keys + TupleAddresses(tuples) + {coinbase} == keys + {coinbase} + TupleAddresses(tuples);
    }
  }

  class StateDB {
    const env: Env
    var writeIdx: Option<map<StateKey, nat>>
    var journal: seq<Entry>
    var logs: seq<Log>
    var refund: U64
    var selfDestructed: set<Address>
    var newContracts: set<Address>
    var accessList: AccessList
    var transientStorage: Transient
    var validRevisions: seq<Revision>
    var nextRevisionId: nat
    /** What accessList and transientStorage denote. */
    ghost var warmSlots: set<(Address, Word)>
    ghost var transient: map<(Address, Word), Word>

    ghost function Cur(): State
      reads this
    {
      State(journal, logs, refund, selfDestructed, newContracts,
            accessList.addresses.Keys, warmSlots, transient)
    }

    ghost function View(): Db
      reads this
    {
      Db(Cur(), validRevisions, nextRevisionId)
    }

    ghost predicate Indexed()
      reads this`journal, this`writeIdx
    {
      writeIdx.Some? ==> IndexOk(journal, writeIdx.value)
    }

    ghost predicate Denotes()
      reads this`accessList, this`transientStorage, this`warmSlots, this`transient
    {
      Sound(accessList) && SlotsAre(accessList, warmSlots) && WordsAre(transientStorage, transient)
    }

    constructor (env: Env)
      ensures Indexed() && Denotes() && View() == NewDb && this.env == env
    {
      this.env := env;
      writeIdx, journal, logs, refund, selfDestructed, newContracts := None, [], [], 0, {}, {};
      accessList, transientStorage, validRevisions, nextRevisionId := NoAccess, map[], [], 0;
      warmSlots, transient := {}, map[];
    }

    /* ---- reads and writes of state keys ---- */

    /** The latest journalled value of a key, through the index, which is rebuilt if a revert dropped it. */
    method GetStateFromJournal(key: StateKey) returns (val: Value, found: bool)
      requires Indexed()
      modifies this`writeIdx
      ensures Indexed()
      ensures found == LastWrite(journal, key).Some?
      ensures val == if found then Written(LastWrite(journal, key).value) else None
    {
      if writeIdx == None {
        var idx: map<StateKey, nat> := map[];
        var i := 0;
        while i < |journal|
          invariant i <= |journal| && IndexOk(journal[..i], idx)
        {
          IndexPush(journal[..i], idx, journal[i]);
          assert journal[..i] + [journal[i]] == journal[..i + 1];
          if journal[i].WriteEntry? {
            idx := idx[journal[i].write.key := i];
          }
          i := i + 1;
        }
        assert journal[..i] == journal;
        writeIdx := Some(idx);
      }
      if key !in writeIdx.value {
        return None, false;
      }
      var w := journal[writeIdx.value[key]].write;
      return Written(w), true;
    }

    method PushEntry(e: Entry)
      requires Indexed()
      modifies this`journal, this`writeIdx
      ensures Indexed() && journal == old(journal) + [e]
    {
      if writeIdx.Some? {
        IndexPush(journal, writeIdx.value, e);
        if e.WriteEntry? {
          writeIdx := Some(writeIdx.value[e.write.key := |journal|]);
        }
      }
      journal := journal + [e];
    }

    /** Reads the store and journals the read. */
    method GetStateFromStore(key: StateKey) returns (val: Value)
      requires Indexed()
      modifies this`journal, this`writeIdx
      ensures Indexed() && (Cur(), val) == ReadStore(env, old(Cur()), key)
    {
      var record := env.store(key);
      var version := None;
      val := None;
      if record.Some? {
        val := record.value.value;
        if !record.value.isDelete {
          version := Some(if env.monotonic then Version(record.value.version, 0)
                          else Version(record.value.block, record.value.tx));
        }
      }
      PushEntry(ReadEntry(Read(key, version)));
    }

    method GetValue(key: StateKey) returns (val: Value)
      requires Indexed()
      modifies this`journal, this`writeIdx
      ensures Indexed() && (Cur(), val) == Get(env, old(Cur()), key)
    {
      var found;
      val, found := GetStateFromJournal(key);
      if !found {
        val := GetStateFromStore(key);
      }
    }

    method PutState(key: StateKey, value: Bytes)
      requires Indexed()
      modifies this`journal, this`writeIdx
      ensures Indexed() && Cur() == Put(old(Cur()), key, value)
    {
      PushEntry(WriteEntry(if |value| == 0 then Write(key, None, true) else Write(key, Some(value), false)));
    }

    /* ---- accounts ---- */

    method CreateAccount(a: Address)
      requires Indexed()
      modifies this`journal, this`writeIdx, this`newContracts
      ensures Indexed() && Cur() == Step(env, old(Cur()), StateModel.CreateAccount(a)).0
    {
      PutState(BalanceKey(a), Minimal(0));
      PutState(NonceKey(a), Fixed(0, 8));
      Mark(a);
    }

    method CreateContract(a: Address)
      requires Indexed()
      modifies this`journal, this`writeIdx, this`newContracts
      ensures Indexed() && Cur() == Step(env, old(Cur()), StateModel.CreateContract(a)).0
    {
      PutState(CodeKey(a), []);
      Mark(a);
    }

    method Mark(a: Address)
      requires Indexed()
      modifies this`journal, this`writeIdx, this`newContracts
      ensures Indexed() && Cur() == MarkNewContract(old(Cur()), a)
    {
      if a in newContracts {
        return;
      }
      PushEntry(NewContractEntry(a));
      newContracts := newContracts + {a};
    }

    method GetBalance(a: Address) returns (balance: Word)
      requires Indexed()
      modifies this`journal, this`writeIdx
      ensures Indexed() && (Cur(), Number(balance)) == Step(env, old(Cur()), StateModel.GetBalance(a))
    {
      var val := GetValue(BalanceKey(a));
      balance := ToWord(Raw(val));
    }

    method AddBalance(a: Address, amount: Word) returns (prev: Word)
      requires Indexed()
      modifies this`journal, this`writeIdx
      ensures Indexed() && (Cur(), Number(prev)) == Step(env, old(Cur()), StateModel.AddBalance(a, amount))
    {
      if amount == 0 {
        return 0;
      }
      prev := GetBalance(a);
      PutState(BalanceKey(a), Minimal((prev + amount) % TWO_256));
    }

    method SubBalance(a: Address, amount: Word) returns (prev: Word)
      requires Indexed()
      modifies this`journal, this`writeIdx
      ensures Indexed() && (Cur(), Number(prev)) == Step(env, old(Cur()), StateModel.SubBalance(a, amount))
    {
      if amount == 0 {
        return 0;
      }
      prev := GetBalance(a);
      PutState(BalanceKey(a), Minimal((prev - amount) % TWO_256));
    }

    /** None is the crash on a stored nonce shorter than eight bytes. */
    method GetNonce(a: Address) returns (nonce: Option<U64>)
      requires Indexed()
      modifies this`journal, this`writeIdx
      ensures Indexed()
      ensures (Cur(), if nonce == None then Panic else Number(nonce.value))
              == Step(env, old(Cur()), StateModel.GetNonce(a))
    {
      var val := GetValue(NonceKey(a));
      nonce := DecodeNonce(val);
    }

    method DecodeNonce(val: Value) returns (nonce: Option<U64>)
      ensures NonceObs(val) == if nonce == None then Panic else Number(nonce.value)
    {
      if |Raw(val)| == 0 {
        return Some(0);
      }
      if |val.value| < 8 {
        return None;
      }
      FromBytesBound(val.value[..8]);
      Pow256Values();
      return Some(FromBytes(val.value[..8]));
    }

    method SetNonce(a: Address, nonce: U64)
      requires Indexed()
      modifies this`journal, this`writeIdx
      ensures Indexed() && Cur() == Step(env, old(Cur()), StateModel.SetNonce(a, nonce)).0
    {
      PutState(NonceKey(a), Fixed(nonce, 8));
    }

    method GetCode(a: Address) returns (code: Value)
      requires Indexed()
      modifies this`journal, this`writeIdx
      ensures Indexed() && (Cur(), Content(code)) == Step(env, old(Cur()), StateModel.GetCode(a))
    {
      code := GetValue(CodeKey(a));
    }

    method SetCode(a: Address, code: Bytes) returns (prev: Value)
      requires Indexed()
      modifies this`journal, this`writeIdx
      ensures Indexed() && (Cur(), Content(prev)) == Step(env, old(Cur()), StateModel.SetCode(a, code))
    {
      prev := GetCode(a);
      PutState(CodeKey(a), code);
    }

    method GetState(a: Address, slot: Word) returns (word: Word)
      requires Indexed()
      modifies this`journal, this`writeIdx
      ensures Indexed() && (Cur(), Number(word)) == Step(env, old(Cur()), StateModel.GetState(a, slot))
    {
      var val := GetValue(StorageKey(a, slot));
      word := ToWord(Raw(val));
    }

    method GetStateAndCommittedState(a: Address, slot: Word) returns (current: Word, committed: Word)
      requires Indexed()
      modifies this`journal, this`writeIdx
      ensures Indexed()
      ensures (Cur(), Both(current, committed)) == Step(env, old(Cur()), StateModel.GetStateAndCommitted(a, slot))
    {
      var key := StorageKey(a, slot);
      var val, found := GetStateFromJournal(key);
      var stored := GetStateFromStore(key);
      committed := ToWord(Raw(stored));
      current := if found then ToWord(Raw(val)) else committed;
    }

    /** A blind write; the previous value is looked up without a read dependency. */
    method SetState(a: Address, slot: Word, word: Word) returns (prev: Word)
      requires Indexed()
      modifies this`journal, this`writeIdx
      ensures Indexed() && (Cur(), Number(prev)) == Step(env, old(Cur()), StateModel.SetState(a, slot, word))
    {
      var key := StorageKey(a, slot);
      var val, found := GetStateFromJournal(key);
      if found {
        prev := ToWord(Raw(val));
      } else {
        var record := env.store(key);
        prev := if record.Some? && !record.value.isDelete then ToWord(Raw(record.value.value)) else 0;
      }
      PutState(key, if word == 0 then [] else Fixed(word, 32));
    }

    method SelfDestruct(a: Address)
      requires Indexed()
      modifies this`journal, this`writeIdx, this`selfDestructed
      ensures Indexed() && Cur() == Step(env, old(Cur()), StateModel.SelfDestruct(a)).0
    {
      var balance := GetBalance(a);
      if balance != 0 {
        PutState(BalanceKey(a), Minimal(0));
      }
      if a in newContracts {
        PushEntry(SelfDestructEntry(a));
        selfDestructed := selfDestructed + {a};
      }
    }

    method Exist(a: Address) returns (there: bool)
      requires Indexed()
      modifies this`journal, this`writeIdx
      ensures Indexed() && (Cur(), Flag(there)) == Step(env, old(Cur()), StateModel.Exist(a))
    {
      var val := GetValue(BalanceKey(a));
      if val.Some? {
        return true;
      }
      val := GetValue(NonceKey(a));
      if val.Some? {
        return true;
      }
      val := GetValue(CodeKey(a));
      return val.Some?;
    }

    /** None is the crash on a stored nonce shorter than eight bytes. */
    method Empty(a: Address) returns (empty: Option<bool>)
      requires Indexed()
      modifies this`journal, this`writeIdx
      ensures Indexed()
      ensures (Cur(), if empty == None then Panic else Flag(empty.value)) == Step(env, old(Cur()), StateModel.Empty(a))
    {
      var balance := GetBalance(a);
      if balance != 0 {
        return Some(false);
      }
      var val := GetValue(NonceKey(a));
      var nonce := DecodeNonce(val);
      if nonce == None {
        return None;
      }
      if nonce.value > 0 {
        return Some(false);
      }
      val := GetValue(CodeKey(a));
      return Some(|Raw(val)| == 0);
    }

    /* ---- refunds, logs, transient storage, access list ---- */

    method AddRefund(gas: U64)
      requires Indexed()
      modifies this`journal, this`writeIdx, this`refund
      ensures Indexed() && Cur() == Step(env, old(Cur()), StateModel.AddRefund(gas)).0
    {
      PushEntry(RefundEntry(refund));
      refund := (refund + gas) % TWO_64;
    }

    /** Crashes, before changing anything, when the counter would go below zero. */
    method SubRefund(gas: U64) returns (ok: bool)
      requires Indexed()
      modifies this`journal, this`writeIdx, this`refund
      ensures Indexed() && (Cur(), if ok then Done else Panic) == Step(env, old(Cur()), StateModel.SubRefund(gas))
    {
      if gas > refund {
        return false;
      }
      PushEntry(RefundEntry(refund));
      refund := refund - gas;
      return true;
    }

    method AddLog(log: Log)
      requires Indexed()
      modifies this`logs
      ensures Indexed() && Cur() == Step(env, old(Cur()), StateModel.AddLog(log)).0
    {
      logs := logs + [log];
    }

    method SetTransientState(a: Address, slot: Word, word: Word)
      requires Indexed() && Denotes()
      modifies this`journal, this`writeIdx, this`transientStorage, this`transient
      ensures Indexed() && Denotes() && Cur() == Step(env, old(Cur()), SetTransient(a, slot, word)).0
    {
      var prev := TransientAt(transientStorage, a, slot);
      SetWordDenotes(transientStorage, transient, a, slot, word);
      PushEntry(TransientEntry(a, slot, prev));
      transientStorage := SetWord(transientStorage, a, slot, word);
      transient := WithTransient(transient, a, slot, word);
    }

    method GetTransientState(a: Address, slot: Word) returns (word: Word)
      requires Denotes()
      ensures (Cur(), Number(word)) == Step(env, Cur(), GetTransient(a, slot))
    {
      word := TransientAt(transientStorage, a, slot);
    }

    method SlotInAccessList(a: Address, slot: Word) returns (addrOk: bool, slotOk: bool)
      requires Denotes()
      ensures (Cur(), Flags(addrOk, slotOk)) == Step(env, Cur(), StateModel.SlotInAccessList(a, slot))
    {
      var ok := Contains(accessList, a, slot);
      addrOk, slotOk := ok.0, ok.1;
    }

    method AddAddressToAccessList(a: Address)
      requires Indexed() && Denotes()
      modifies this`journal, this`writeIdx, this`accessList
      ensures Indexed() && Denotes() && Cur() == WarmAddress(old(Cur()), a)
    {
      if a in accessList.addresses {
        return;
      }
      PushEntry(AddressEntry(a));
      AddAddressDenotes(accessList, warmSlots, a);
      accessList := AddAddress(accessList, a);
    }

    method AddSlotToAccessList(a: Address, slot: Word)
      requires Indexed() && Denotes()
      modifies this`journal, this`writeIdx, this`accessList, this`warmSlots
      ensures Indexed() && Denotes() && Cur() == WarmSlot(old(Cur()), a, slot)
    {
      var (addrOk, slotOk) := Contains(accessList, a, slot);
      if addrOk && slotOk {
        return;
      }
      if !addrOk {
        PushEntry(AddressEntry(a));
      }
      PushEntry(SlotEntry(a, slot));
      AddSlotDenotes(accessList, warmSlots, a, slot);
      accessList := AddSlot(accessList, a, slot);
      warmSlots := warmSlots + {(a, slot)};
    }

    /** Replaces the access list, without journalling: the sender, the callee, precompiles and the declared tuples. */
    method Prepare(shanghai: bool, sender: Address, coinbase: Address, dest: Option<Address>,
                   precompiles: seq<Address>, tuples: seq<AccessTuple>)
      requires Denotes()
      modifies this`accessList, this`warmSlots
      ensures Denotes()
      ensures Cur() == DoPrepare(old(Cur()), Prepared(shanghai, sender, coinbase, dest, precompiles), tuples)
    {
      accessList := PreparedList(shanghai, sender, coinbase, dest, precompiles, tuples);
      warmSlots := TupleSlots(tuples);
    }

    /* ---- snapshots ---- */

    method Snapshot() returns (id: nat)
      requires Indexed()
      modifies this`validRevisions, this`nextRevisionId
      ensures Indexed() && View() == Db(old(Cur()), old(validRevisions) + [Revision(id, |journal|, |logs|)], id + 1)
      ensures id == old(nextRevisionId)
    {
      id := nextRevisionId;
      nextRevisionId := nextRevisionId + 1;
      validRevisions := validRevisions + [Revision(id, |journal|, |logs|)];
    }

    /** Undoes the journal backwards to a snapshot; an unknown id is ignored. */
    method RevertToSnapshot(id: nat)
      requires Indexed() && Denotes() && InRange(View())
      modifies this
      ensures Indexed() && Denotes() && View() == StateUndo.RevertToSnapshot(old(View()), id)
    {
      var k := FindRevision(id);
      if k < |validRevisions| {
        Rewind(k);
      }
    }

    method Rewind(k: nat)
      requires Denotes() && InRange(View()) && k < |validRevisions|
      modifies this
      ensures Indexed() && Denotes()
      ensures nextRevisionId == old(nextRevisionId) && validRevisions == old(validRevisions)[..k]
      ensures var r := old(validRevisions)[k];
              Cur() == UndoTo(old(Cur()), r.journalIndex).(logs := old(logs)[..r.logIndex])
    {
      var snapshot := validRevisions[k];
      UndoJournal(snapshot.journalIndex);
      journal := journal[..snapshot.journalIndex];
      writeIdx := None;
      logs := logs[..snapshot.logIndex];
      validRevisions := validRevisions[..k];
    }

    method FindRevision(id: nat) returns (k: nat)
      ensures k == Find(validRevisions, id)
    {
      k := 0;
      while k < |validRevisions|
        invariant k <= |validRevisions| && forall j :: 0 <= j < k ==> validRevisions[j].id != id
      {
        if validRevisions[k].id == id {
          return;
        }
        k := k + 1;
      }
    }

    /** Reverts the effect of every entry from the end down to n; the journal itself is left to the caller. */
    method UndoJournal(n: nat)
      requires Denotes() && n <= |journal|
      modifies this`refund, this`selfDestructed, this`newContracts, this`transientStorage, this`accessList,
               this`warmSlots, this`transient
      ensures Denotes() && Undone(old(Cur()), Cur(), n)
    {
      ghost var st := Cur();
      var i := |journal|;
      UndoneAtEnd(st);
      while i > n
        invariant n <= i <= |journal| && Denotes() && Undone(st, Cur(), i)
      {
        UndoneStep(st, Cur(), i);
        i := i - 1;
        UndoOne(journal[i]);
      }
    }

    method UndoOne(e: Entry)
      requires Denotes()
      modifies this`refund, this`selfDestructed, this`newContracts, this`transientStorage, this`accessList,
               this`warmSlots, this`transient
      ensures Denotes() && Cur() == UndoEntry(old(Cur()), e)
    {
      match e
      case RefundEntry(prev) => refund := prev;
      case SelfDestructEntry(a) => selfDestructed := selfDestructed - {a};
      case NewContractEntry(a) => newContracts := newContracts - {a};
      case TransientEntry(a, slot, prev) => UndoTransient(a, slot, prev);
      case AddressEntry(a) => UndoAddress(a);
      case SlotEntry(a, slot) => UndoSlot(a, slot);
      case _ =>
    }

    method UndoTransient(a: Address, slot: Word, prev: Word)
      requires Denotes()
      modifies this`transientStorage, this`transient
      ensures Denotes() && transient == WithTransient(old(transient), a, slot, prev)
    {
      SetWordDenotes(transientStorage, transient, a, slot, prev);
      transientStorage := SetWord(transientStorage, a, slot, prev);
      transient := WithTransient(transient, a, slot, prev);
    }

    method UndoAddress(a: Address)
      requires Denotes()
      modifies this`accessList, this`warmSlots
      ensures Denotes() && accessList.addresses.Keys == old(accessList.addresses.Keys) - {a}
      ensures warmSlots == set p | p in old(warmSlots) && p.0 != a
    {
      DeleteAddressDenotes(accessList, warmSlots, a);
      accessList := DeleteAddress(accessList, a);
      warmSlots := set p | p in warmSlots && p.0 != a;
    }

    method UndoSlot(a: Address, slot: Word)
      requires Denotes()
      modifies this`accessList, this`warmSlots
      ensures Denotes()
      ensures accessList.addresses == old(accessList.addresses) && warmSlots == old(warmSlots) - {(a, slot)}
    {
      DeleteSlotDenotes(accessList, warmSlots, a, slot);
      accessList := DeleteSlot(accessList, a, slot);
      warmSlots := warmSlots - {(a, slot)};
    }

    /** The reads and writes of everything not reverted, the last of each key. */
    method Result() returns (readSet: map<StateKey, Read>, writeSet: map<StateKey, Write>)
      ensures readSet == Reads(journal) && writeSet == Writes(journal)
    {
      readSet, writeSet := map[], map[];
      var i := 0;
      while i < |journal|
        invariant i <= |journal| && readSet == Reads(journal[..i]) && writeSet == Writes(journal[..i])
      {
        assert journal[..i + 1][..i] == journal[..i];
        match journal[i] {
          case ReadEntry(r) => readSet := readSet[r.key := r];
          case WriteEntry(w) => writeSet := writeSet[w.key := w];
          case _ =>
        }
        i := i + 1;
      }
      assert journal[..i] == journal;
    }
  }
}
