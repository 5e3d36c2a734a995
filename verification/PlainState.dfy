/** The accounts a transaction works on as plain values: no journal, no bytes and no store. */
module PlainState {
  import opened Prelude
  import opened Words
  import opened StateModel
  import opened StateUndo

  // Operations are arithmetic and updates of functions and sets. A snapshot keeps a copy, and a revert goes back to it,
  // but for one thing the original does as well: marks of accounts self-destructed again since the snapshot are lost.

  /** What each account holds, what the transaction did besides, and the keys it read from the store and wrote. */
  datatype World = World(
    balance: Address -> Word,
    nonce: Address -> Option<U64>,
    code: Address -> Bytes,
    storage: (Address, Word) -> Word,
    transient: (Address, Word) -> Word,
    refund: U64,
    logs: seq<Log>,
    created: set<Address>,
    destructed: set<Address>,
    warm: set<Address>,
    warmSlots: set<(Address, Word)>,
    read: set<StateKey>,
    written: set<StateKey>)

  /** Nothing done yet. */
  predicate Untouched(w: World) {
    && w.refund == 0 && w.logs == [] && w.created == {} && w.destructed == {} && w.warm == {} && w.warmSlots == {}
    && w.read == {} && w.written == {}
  }

  function With<T>(f: Address -> T, a: Address, v: T): Address -> T {
    (x: Address) => if x == a then v else f(x)
  }

  function WithSlot(f: (Address, Word) -> Word, a: Address, slot: Word, v: Word): (Address, Word) -> Word {
    (x: Address, y: Word) => if x == a && y == slot then v else f(x, y)
  }

  /** These keys are looked up: those the transaction wrote itself do not count as read. */
  function Looked(w: World, keys: set<StateKey>): World {
    w.(read := w.read + (keys - w.written))
  }

  function Balanced(w: World, a: Address, v: Word): World {
    w.(balance := With(w.balance, a, v), written := w.written + {BalanceKey(a)})
  }

  /** A balance changed by an amount; an amount of 0 does nothing at all. */
  function Paid(w: World, a: Address, amount: Word, v: Word): (World, Obs) {
    if amount == 0 then (w, Number(0)) else (Balanced(Looked(w, {BalanceKey(a)}), a, v), Number(w.balance(a)))
  }

  function Added(x: Word, y: Word): Word {
    if x + y >= TWO_256 then x + y - TWO_256 else x + y
  }

  function Subtracted(x: Word, y: Word): Word {
    if x < y then x - y + TWO_256 else x - y
  }

  function NonceNow(w: World, a: Address): U64 {
    if w.nonce(a) == None then 0 else w.nonce(a).value
  }

  function CodeNow(w: World, a: Address): Obs {
    Content(if w.code(a) == [] then None else Some(w.code(a)))
  }

  /** What is looked at to tell whether there is an account: no more than needed. */
  function ExistKeys(w: World, a: Address): set<StateKey> {
    if w.balance(a) != 0 then {BalanceKey(a)}
    else if w.nonce(a).Some? then {BalanceKey(a), NonceKey(a)}
    else {BalanceKey(a), NonceKey(a), CodeKey(a)}
  }

  function EmptyKeys(w: World, a: Address): set<StateKey> {
    if w.balance(a) != 0 then {BalanceKey(a)}
    else if NonceNow(w, a) != 0 then {BalanceKey(a), NonceKey(a)}
    else {BalanceKey(a), NonceKey(a), CodeKey(a)}
  }

  /** One operation; base is the state before the transaction. */
  function PlainStep(base: World, w: World, op: Op): (World, Obs) {
    match op
    case CreateAccount(a) =>
      (Balanced(w, a, 0).(nonce := With(w.nonce, a, Some(0)), created := w.created + {a},
                          written := w.written + {BalanceKey(a), NonceKey(a)}), Done)
    case CreateContract(a) =>
      (w.(code := With(w.code, a, []), created := w.created + {a}, written := w.written + {CodeKey(a)}), Done)
    case GetBalance(a) => (Looked(w, {BalanceKey(a)}), Number(w.balance(a)))
    case AddBalance(a, amount) => Paid(w, a, amount, Added(w.balance(a), amount))
    case SubBalance(a, amount) => Paid(w, a, amount, Subtracted(w.balance(a), amount))
    case GetNonce(a) => (Looked(w, {NonceKey(a)}), Number(NonceNow(w, a)))
    case SetNonce(a, n) => (w.(nonce := With(w.nonce, a, Some(n)), written := w.written + {NonceKey(a)}), Done)
    case GetCode(a) => (Looked(w, {CodeKey(a)}), CodeNow(w, a))
    case SetCode(a, code) =>
      (Looked(w, {CodeKey(a)}).(code := With(w.code, a, code), written := w.written + {CodeKey(a)}), CodeNow(w, a))
    case GetState(a, slot) => (Looked(w, {StorageKey(a, slot)}), Number(w.storage(a, slot)))
    case GetStateAndCommitted(a, slot) =>
      (w.(read := w.read + {StorageKey(a, slot)}), Both(w.storage(a, slot), base.storage(a, slot)))
    case SetState(a, slot, word) =>
      (w.(storage := WithSlot(w.storage, a, slot, word), written := w.written + {StorageKey(a, slot)}),
       Number(w.storage(a, slot)))
    case SelfDestruct(a) =>
      var seen := Looked(w, {BalanceKey(a)});
      var burnt := if w.balance(a) == 0 then seen else Balanced(seen, a, 0);
      (if a in w.created then burnt.(destructed := w.destructed + {a}) else burnt, Done)
    case HasSelfDestructed(a) => (w, Flag(a in w.destructed))
    case IsNewContract(a) => (w, Flag(a in w.created))
    case Exist(a) => (Looked(w, ExistKeys(w, a)), Flag(w.balance(a) != 0 || w.nonce(a).Some? || w.code(a) != []))
    case Empty(a) =>
      (Looked(w, EmptyKeys(w, a)), Flag(w.balance(a) == 0 && NonceNow(w, a) == 0 && w.code(a) == []))
    case GetRefund => (w, Number(w.refund))
    case AddRefund(gas) =>
      var sum := w.refund + gas;
      (w.(refund := if sum >= TWO_64 then sum - TWO_64 else sum), Done)
    case SubRefund(gas) => if gas > w.refund then (w, Panic) else (w.(refund := w.refund - gas), Done)
    case AddLog(log) => (w.(logs := w.logs + [log]), Done)
    case GetTransient(a, slot) => (w, Number(w.transient(a, slot)))
    case SetTransient(a, slot, word) => (w.(transient := WithSlot(w.transient, a, slot, word)), Done)
    case AddressInAccessList(a) => (w, Flag(a in w.warm))
    case SlotInAccessList(a, slot) => (w, Flags(a in w.warm, (a, slot) in w.warmSlots))
    case AddAddressToAccessList(a) => (w.(warm := w.warm + {a}), Done)
    case AddSlotToAccessList(a, slot) => (w.(warm := w.warm + {a}, warmSlots := w.warmSlots + {(a, slot)}), Done)
    case Prepare(warm, tuples) =>
      (w.(warm := (set x | x in warm) + (set t | t in tuples :: t.a),
          warmSlots := set t, slot | t in tuples && slot in t.slots :: (t.a, slot)), Done)
  }

  /** A snapshot: the copy, and the accounts self-destructed since. */
  datatype Frame = Frame(id: nat, world: World, again: set<Address>)

  datatype Plain = Plain(cur: World, frames: seq<Frame>, nextId: nat)

  /** How many frames lie before the first one with this id. */
  function Before(frames: seq<Frame>, id: nat): (i: nat)
    ensures i <= |frames| && (i < |frames| ==> frames[i].id == id)
    ensures forall j :: 0 <= j < i ==> frames[j].id != id
  {
    if frames == [] || frames[0].id == id then 0 else 1 + Before(frames[1..], id)
  }

  /** The account this operation marks: one created in this transaction. */
  function Marked(w: World, op: Op): set<Address> {
    if op.SelfDestruct? && op.a in w.created then {op.a} else {}
  }

  function PlainNext(base: World, p: Plain, c: Command): (Plain, Obs) {
    match c
    case Do(op) =>
      var (w, obs) := PlainStep(base, p.cur, op);
      var frames := seq(|p.frames|, i requires 0 <= i < |p.frames| =>
                          p.frames[i].(again := p.frames[i].again + Marked(p.cur, op)));
      (Plain(w, frames, p.nextId), obs)
    case Snapshot => (Plain(p.cur, p.frames + [Frame(p.nextId, p.cur, {})], p.nextId + 1), Number(p.nextId))
    case Revert(id) =>
      var i := Before(p.frames, id);
      if i == |p.frames| then (p, Done)
      else
        var f := p.frames[i];
        (Plain(f.world.(destructed := f.world.destructed - f.again), p.frames[..i], p.nextId), Done)
  }

  /** After these commands. */
  function PlainRun(base: World, cs: seq<Command>): Plain {
    if cs == [] then Plain(base, [], 0) else var n := |cs| - 1; PlainNext(base, PlainRun(base, cs[..n]), cs[n]).0
  }
}
