/** The EVM state of one transaction: what each operation reads, journals and changes. */
module StateModel {
  import opened Prelude
  import opened Words
  import opened Records

  // The access list and transient storage appear as the sets and maps they denote; how the original lays them out is
  // the business of the StateDB class.

  const TWO_160: nat := TWO_64 * TWO_64 * 0x1_0000_0000

  /** Twenty bytes. */
  type Address = x: int | 0 <= x < TWO_160 witness 0

  /** The state keys of an account. */
  datatype StateKey =
    | BalanceKey(a: Address)
    | NonceKey(a: Address)
    | CodeKey(a: Address)
    | StorageKey(a: Address, slot: Word)

  datatype Version = Version(block: U64, tx: U64)

  /** A read dependency; a missing or deleted key has no version. */
  datatype Read = Read(key: StateKey, version: Option<Version>)

  datatype Write = Write(key: StateKey, value: Value, isDelete: bool)

  datatype Entry =
    | ReadEntry(read: Read)
    | WriteEntry(write: Write)
    | RefundEntry(prevRefund: U64)
    | SelfDestructEntry(a: Address)
    | NewContractEntry(a: Address)
    | TransientEntry(a: Address, key: Word, prev: Word)
    | AddressEntry(a: Address)
    | SlotEntry(a: Address, slot: Word)

  datatype Log = Log(address: Address, topics: seq<Word>, data: Bytes)

  /** transient holds the non-zero slots; warmSlots the accessed slots of warm addresses. */
  datatype State = State(
    journal: seq<Entry>,
    logs: seq<Log>,
    refund: U64,
    destructed: set<Address>,
    created: set<Address>,
    warm: set<Address>,
    warmSlots: set<(Address, Word)>,
    transient: map<(Address, Word), Word>)

  const EmptyState := State([], [], 0, {}, {}, {}, {}, map[])

  /** The read store, pinned to a height, and how versions are reported. */
  datatype Env = Env(store: StateKey -> Option<Record>, monotonic: bool)

  /* ---- reads and writes ---- */

  /** The latest write of k in the journal. */
  function LastWrite(journal: seq<Entry>, k: StateKey): Option<Write> {
    if journal == [] then None
    else
      var n := |journal| - 1;
      if journal[n].WriteEntry? && journal[n].write.key == k then Some(journal[n].write) else LastWrite(journal[..n], k)
  }

  /** A delete reads as nil. */
  function Written(w: Write): Value {
    if w.isDelete then None else w.value
  }

  /** The version a read of k is recorded with. */
  function VersionOf(env: Env, k: StateKey): Option<Version> {
    match env.store(k)
    case None => None
    case Some(r) =>
      if r.isDelete then None
      else if env.monotonic then Some(Version(r.version, 0)) else Some(Version(r.block, r.tx))
  }

  /** The value a read of k returns, also of a deleted record. */
  function ValueOf(env: Env, k: StateKey): Value {
    match env.store(k)
    case None => None
    case Some(r) => r.value
  }

  function Push(st: State, e: Entry): State {
    st.(journal := st.journal + [e])
  }

  function ReadStore(env: Env, st: State, k: StateKey): (State, Value) {
    (Push(st, ReadEntry(Read(k, VersionOf(env, k)))), ValueOf(env, k))
  }

  /** The journal first, then the store, which leaves a read dependency. */
  function Get(env: Env, st: State, k: StateKey): (State, Value) {
    var w := LastWrite(st.journal, k);
    if w.Some? then (st, Written(w.value)) else ReadStore(env, st, k)
  }

  /** An empty value is a delete. */
  function Put(st: State, k: StateKey, value: Bytes): State {
    Push(st, WriteEntry(if value == [] then Write(k, None, true) else Write(k, Some(value), false)))
  }

  /* ---- operations ---- */

  /** What a caller sees. */
  datatype Obs =
    | Done
    | Panic
    | Number(n: int)
    | Content(value: Value)
    | Flag(b: bool)
    | Flags(b1: bool, b2: bool)
    | Both(current: Word, committed: Word)

  datatype AccessTuple = AccessTuple(a: Address, slots: seq<Word>)

  datatype Op =
    | CreateAccount(a: Address)
    | CreateContract(a: Address)
    | GetBalance(a: Address)
    | AddBalance(a: Address, amount: Word)
    | SubBalance(a: Address, amount: Word)
    | GetNonce(a: Address)
    | SetNonce(a: Address, nonce: U64)
    | GetCode(a: Address)
    | SetCode(a: Address, code: Bytes)
    | GetState(a: Address, slot: Word)
    | GetStateAndCommitted(a: Address, slot: Word)
    | SetState(a: Address, slot: Word, word: Word)
    | SelfDestruct(a: Address)
    | HasSelfDestructed(a: Address)
    | IsNewContract(a: Address)
    | Exist(a: Address)
    | Empty(a: Address)
    | GetRefund
    | AddRefund(gas: U64)
    | SubRefund(gas: U64)
    | AddLog(log: Log)
    | GetTransient(a: Address, slot: Word)
    | SetTransient(a: Address, slot: Word, word: Word)
    | AddressInAccessList(a: Address)
    | SlotInAccessList(a: Address, slot: Word)
    | AddAddressToAccessList(a: Address)
    | AddSlotToAccessList(a: Address, slot: Word)
    | Prepare(warm: seq<Address>, tuples: seq<AccessTuple>)

  function MarkNewContract(st: State, a: Address): State {
    if a in st.created then st else Push(st, NewContractEntry(a)).(created := st.created + {a})
  }

  function ChangeBalance(env: Env, st: State, a: Address, change: Word -> Word, amount: Word): (State, Obs) {
    if amount == 0 then (st, Number(0))
    else
      var (st1, v) := Get(env, st, BalanceKey(a));
      var prev := ToWord(Raw(v));
      (Put(st1, BalanceKey(a), Minimal(change(prev))), Number(prev))
  }

  /** A nonce is the first eight bytes of its value; a shorter value crashes the reader. */
  function NonceObs(v: Value): Obs {
    if Raw(v) == [] then Number(0)
    else if |v.value| < 8 then Panic
    else Number(FromBytes(v.value[..8]))
  }

  /** What SetState reports as the previous value, without leaving a read dependency. */
  function PrevWord(env: Env, st: State, k: StateKey): Word {
    var w := LastWrite(st.journal, k);
    if w.Some? then ToWord(Raw(Written(w.value)))
    else
      match env.store(k)
      case None => 0
      case Some(r) => if r.isDelete then 0 else ToWord(Raw(r.value))
  }

  function DoSelfDestruct(env: Env, st: State, a: Address): State {
    var (st1, v) := Get(env, st, BalanceKey(a));
    var st2 := if ToWord(Raw(v)) != 0 then Put(st1, BalanceKey(a), []) else st1;
    if a in st2.created then Push(st2, SelfDestructEntry(a)).(destructed := st2.destructed + {a}) else st2
  }

  /** Balance, nonce and code are looked at in turn until one is there. */
  function DoExist(env: Env, st: State, a: Address): (State, Obs) {
    var (st1, bal) := Get(env, st, BalanceKey(a));
    if bal.Some? then (st1, Flag(true))
    else
      var (st2, nonce) := Get(env, st1, NonceKey(a));
      if nonce.Some? then (st2, Flag(true))
      else
        var (st3, code) := Get(env, st2, CodeKey(a));
        (st3, Flag(code.Some?))
  }

  function DoEmpty(env: Env, st: State, a: Address): (State, Obs) {
    var (st1, bal) := Get(env, st, BalanceKey(a));
    if ToWord(Raw(bal)) != 0 then (st1, Flag(false))
    else
      var (st2, nonce) := Get(env, st1, NonceKey(a));
      if NonceObs(nonce) == Panic then (st2, Panic)
      else if NonceObs(nonce) != Number(0) then (st2, Flag(false))
      else
        var (st3, code) := Get(env, st2, CodeKey(a));
        (st3, Flag(Raw(code) == []))
  }

  function TransientWord(t: map<(Address, Word), Word>, a: Address, slot: Word): Word {
    if (a, slot) in t then t[(a, slot)] else 0
  }

  function WithTransient(t: map<(Address, Word), Word>, a: Address, slot: Word, word: Word)
    : map<(Address, Word), Word>
  {
    if word == 0 then t - {(a, slot)} else t[(a, slot) := word]
  }

  function WarmAddress(st: State, a: Address): State {
    if a in st.warm then st else Push(st, AddressEntry(a)).(warm := st.warm + {a})
  }

  function WarmSlot(st: State, a: Address, slot: Word): State {
    if (a, slot) in st.warmSlots then st
    else
      var st1 := WarmAddress(st, a);
      Push(st1, SlotEntry(a, slot)).(warmSlots := st1.warmSlots + {(a, slot)})
  }

  function Members(s: seq<Address>): set<Address> {
    set a | a in s
  }

  function TupleAddresses(tuples: seq<AccessTuple>): set<Address> {
    set t | t in tuples :: t.a
  }

  function TupleSlots(tuples: seq<AccessTuple>): set<(Address, Word)> {
    set t, slot | t in tuples && slot in t.slots :: (t.a, slot)
  }

  /** A fresh access list; nothing is journalled. */
  function DoPrepare(st: State, warm: seq<Address>, tuples: seq<AccessTuple>): State {
    st.(warm := Members(warm) + TupleAddresses(tuples), warmSlots := TupleSlots(tuples))
  }

  function Step(env: Env, st: State, op: Op): (State, Obs) {
    match op
    case CreateAccount(a) =>
      (MarkNewContract(Put(Put(st, BalanceKey(a), []), NonceKey(a), Fixed(0, 8)), a), Done)
    case CreateContract(a) => (MarkNewContract(Put(st, CodeKey(a), []), a), Done)
    case GetBalance(a) => var (st1, v) := Get(env, st, BalanceKey(a)); (st1, Number(ToWord(Raw(v))))
    case AddBalance(a, amount) => ChangeBalance(env, st, a, prev => (prev + amount) % TWO_256, amount)
    case SubBalance(a, amount) => ChangeBalance(env, st, a, prev => (prev - amount) % TWO_256, amount)
    case GetNonce(a) => var (st1, v) := Get(env, st, NonceKey(a)); (st1, NonceObs(v))
    case SetNonce(a, nonce) => (Put(st, NonceKey(a), Fixed(nonce, 8)), Done)
    case GetCode(a) => var (st1, v) := Get(env, st, CodeKey(a)); (st1, Content(v))
    case SetCode(a, code) => var (st1, v) := Get(env, st, CodeKey(a)); (Put(st1, CodeKey(a), code), Content(v))
    case GetState(a, slot) => var (st1, v) := Get(env, st, StorageKey(a, slot)); (st1, Number(ToWord(Raw(v))))
    case GetStateAndCommitted(a, slot) =>
      var k := StorageKey(a, slot);
      var (st1, v) := ReadStore(env, st, k);
      var committed, w := ToWord(Raw(v)), LastWrite(st.journal, k);
      (st1, Both(if w.Some? then ToWord(Raw(Written(w.value))) else committed, committed))
    case SetState(a, slot, word) =>
      var k := StorageKey(a, slot);
      (Put(st, k, if word == 0 then [] else Fixed(word, 32)), Number(PrevWord(env, st, k)))
    case SelfDestruct(a) => (DoSelfDestruct(env, st, a), Done)
    case HasSelfDestructed(a) => (st, Flag(a in st.destructed))
    case IsNewContract(a) => (st, Flag(a in st.created))
    case Exist(a) => DoExist(env, st, a)
    case Empty(a) => DoEmpty(env, st, a)
    case GetRefund => (st, Number(st.refund))
    case AddRefund(gas) => (Push(st, RefundEntry(st.refund)).(refund := (st.refund + gas) % TWO_64), Done)
    case SubRefund(gas) =>
      if gas > st.refund then (st, Panic)
      else (Push(st, RefundEntry(st.refund)).(refund := st.refund - gas), Done)
    case AddLog(log) => (st.(logs := st.logs + [log]), Done)
    case GetTransient(a, slot) => (st, Number(TransientWord(st.transient, a, slot)))
    case SetTransient(a, slot, word) =>
      (Push(st, TransientEntry(a, slot, TransientWord(st.transient, a, slot)))
         .(transient := WithTransient(st.transient, a, slot, word)), Done)
    case AddressInAccessList(a) => (st, Flag(a in st.warm))
    case SlotInAccessList(a, slot) => (st, Flags(a in st.warm, (a, slot) in st.warmSlots))
    case AddAddressToAccessList(a) => (WarmAddress(st, a), Done)
    case AddSlotToAccessList(a, slot) => (WarmSlot(st, a, slot), Done)
    case Prepare(warm, tuples) => (DoPrepare(st, warm, tuples), Done)
  }

  /* ---- undoing ---- */

  /** The state before a journal entry was written. */
  function UndoEntry(st: State, e: Entry): State {
    match e
    case RefundEntry(prev) => st.(refund := prev)
    case SelfDestructEntry(a) => st.(destructed := st.destructed - {a})
    case NewContractEntry(a) => st.(created := st.created - {a})
    case TransientEntry(a, key, prev) => st.(transient := WithTransient(st.transient, a, key, prev))
    case AddressEntry(a) =>
      st.(warm := st.warm - {a}, warmSlots := set p | p in st.warmSlots && p.0 != a)
    case SlotEntry(a, slot) => st.(warmSlots := st.warmSlots - {(a, slot)})
    case _ => st
  }

  /** Undoes the journal back to its first n entries. */
  function UndoTo(st: State, n: nat): (r: State)
    requires n <= |st.journal|
    ensures r.journal == st.journal[..n]
    decreases |st.journal|
  {
    if n == |st.journal| then st
    else
      var k := |st.journal| - 1;
      UndoTo(UndoEntry(st, st.journal[k]).(journal := st.journal[..k]), n)
  }

  /* ---- the read-write set ---- */

  function Reads(journal: seq<Entry>): map<StateKey, Read> {
    if journal == [] then map[]
    else
      var n := |journal| - 1;
      var m := Reads(journal[..n]);
      if journal[n].ReadEntry? then m[journal[n].read.key := journal[n].read] else m
  }

  function Writes(journal: seq<Entry>): map<StateKey, Write> {
    if journal == [] then map[]
    else
      var n := |journal| - 1;
      var m := Writes(journal[..n]);
      if journal[n].WriteEntry? then m[journal[n].write.key := journal[n].write] else m
  }
}
