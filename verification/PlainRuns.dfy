/** The journalled StateDB does what the plain accounts do, over every run of commands. */
module PlainRuns {
  import opened Prelude
  import opened Words
  import opened Records
  import opened StateModel
  import opened StateUndo
  import opened ReadSet
  import opened UndoRuns
  import opened PlainState

  /* ---- how the store holds plain values ---- */

  /** The value under a state key: nothing for a zero, else the bytes the original writes. */
  function Held(w: World, k: StateKey): Value {
    match k
    case BalanceKey(a) => if w.balance(a) == 0 then None else Some(Minimal(w.balance(a)))
    case NonceKey(a) => if w.nonce(a) == None then None else Some(Fixed(w.nonce(a).value, 8))
    case CodeKey(a) => if w.code(a) == [] then None else Some(w.code(a))
    case StorageKey(a, slot) => if w.storage(a, slot) == 0 then None else Some(Fixed(w.storage(a, slot), 32))
  }

  /** The store holds these accounts as earlier transactions wrote them; deleted records carry no value. */
  ghost predicate Stores(env: Env, base: World) {
    && Untouched(base) && (forall a, slot :: base.transient(a, slot) == 0)
    && forall k :: StoresKey(env, base, k)
  }

  predicate StoresKey(env: Env, base: World, k: StateKey) {
    ValueOf(env, k) == Held(base, k) && (env.store(k).Some? && env.store(k).value.isDelete ==> ValueOf(env, k) == None)
  }

  /* ---- states that show a world ---- */

  /** What the journal and the store together say of a key is what the world holds. */
  ghost predicate ShowsKey(env: Env, journal: seq<Entry>, w: World, k: StateKey) {
    if k in w.written then LastWrite(journal, k) == Some(Write(k, Held(w, k), Held(w, k) == None))
    else LastWrite(journal, k) == None && ValueOf(env, k) == Held(w, k)
  }

  ghost predicate ShowsKeys(env: Env, journal: seq<Entry>, w: World) {
    ReadKeys(journal) == w.read && forall k :: ShowsKey(env, journal, w, k)
  }

  ghost predicate ShowsRest(st: State, w: World) {
    && st.refund == w.refund && st.logs == w.logs && st.created == w.created && st.destructed == w.destructed
    && forall a, slot :: TransientWord(st.transient, a, slot) == w.transient(a, slot)
  }

  ghost predicate Shows(env: Env, st: State, w: World) {
    ShowsKeys(env, st.journal, w) && ShowsRest(st, w)
  }

  ghost predicate ShowsAccess(st: State, w: World) {
    st.warm == w.warm && st.warmSlots == w.warmSlots
  }

  /* ---- reading and writing keys ---- */

  lemma PushReads(journal: seq<Entry>, e: Entry)
    ensures ReadKeys(journal + [e]) == ReadKeys(journal) + if e.ReadEntry? then {e.read.key} else {}
  {
    ReadKeysConcat(journal, [e]);
    assert e in [e];
  }

  /** An entry that is neither a read nor a write. */
  lemma PushOther(env: Env, journal: seq<Entry>, w: World, e: Entry)
    requires ShowsKeys(env, journal, w) && !e.ReadEntry? && !e.WriteEntry?
    ensures ShowsKeys(env, journal + [e], w)
  {
    PushReads(journal, e);
    Append(journal, e);
    forall k
      ensures ShowsKey(env, journal + [e], w, k)
    {
      assert ShowsKey(env, journal, w, k);
    }
  }

  lemma PushRead(env: Env, journal: seq<Entry>, w: World, r: Read)
    requires ShowsKeys(env, journal, w)
    ensures ShowsKeys(env, journal + [ReadEntry(r)], w.(read := w.read + {r.key}))
  {
    PushReads(journal, ReadEntry(r));
    Append(journal, ReadEntry(r));
    forall k
      ensures ShowsKey(env, journal + [ReadEntry(r)], w.(read := w.read + {r.key}), k)
    {
      assert ShowsKey(env, journal, w, k);
    }
  }

  /** w' is w with another value under k, now written. */
  ghost predicate Rewrites(w: World, w': World, k: StateKey) {
    w'.written == w.written + {k} && w'.read == w.read && forall x :: x != k ==> Held(w', x) == Held(w, x)
  }

  lemma PutShows(env: Env, st: State, w: World, w': World, k: StateKey, value: Bytes)
    requires ShowsKeys(env, st.journal, w) && Rewrites(w, w', k)
    requires Held(w', k) == if value == [] then None else Some(value)
    ensures ShowsKeys(env, Put(st, k, value).journal, w')
  {
    var e := WriteEntry(if value == [] then Write(k, None, true) else Write(k, Some(value), false));
    PushReads(st.journal, e);
    Append(st.journal, e);
    forall x
      ensures ShowsKey(env, st.journal + [e], w', x)
    {
      assert ShowsKey(env, st.journal, w, x);
    }
  }

  /** A lookup gives what the world holds, and leaves a read dependency unless the key was written. */
  lemma GetShows(env: Env, st: State, w: World, k: StateKey)
    requires ShowsKeys(env, st.journal, w)
    ensures Get(env, st, k).1 == Held(w, k)
    ensures ShowsKeys(env, Get(env, st, k).0.journal, Looked(w, {k}))
  {
    assert ShowsKey(env, st.journal, w, k);
    if k in w.written {
      assert Looked(w, {k}).read == w.read;
      assert forall x :: ShowsKey(env, st.journal, w, x) ==> ShowsKey(env, st.journal, Looked(w, {k}), x);
    } else {
      PushRead(env, st.journal, w, Read(k, VersionOf(env, k)));
      assert {k} - w.written == {k};
    }
  }

  /* ---- what the bytes say ---- */

  lemma BalanceHeld(w: World, a: Address)
    ensures ToWord(Raw(Held(w, BalanceKey(a)))) == w.balance(a)
  {
    WordRoundTrip(w.balance(a));
  }

  lemma StorageHeld(w: World, a: Address, slot: Word)
    ensures ToWord(Raw(Held(w, StorageKey(a, slot)))) == w.storage(a, slot)
  {
    WordRoundTrip(w.storage(a, slot));
  }

  lemma NonceHeld(w: World, a: Address)
    ensures NonceObs(Held(w, NonceKey(a))) == Number(NonceNow(w, a))
  {
    if w.nonce(a).Some? {
      var b := Fixed(w.nonce(a).value, 8);
      assert b[..8] == b;
      Pow256Values();
      FixedInverse(w.nonce(a).value, 8);
    }
  }

  /* ---- operations on accounts ---- */

  /** What else the worlds hold does not matter for the keys. */
  lemma SameKeys(env: Env, journal: seq<Entry>, w: World, w': World)
    requires ShowsKeys(env, journal, w) && w'.read == w.read && w'.written == w.written
    requires w'.balance == w.balance && w'.nonce == w.nonce && w'.code == w.code && w'.storage == w.storage
    ensures ShowsKeys(env, journal, w')
  {
    forall k
      ensures ShowsKey(env, journal, w', k)
    {
      assert ShowsKey(env, journal, w, k);
    }
  }

  lemma {:induction false} BalancedShows(env: Env, st: State, w: World, a: Address, v: Word)
    requires Shows(env, st, w)
    ensures Shows(env, Put(st, BalanceKey(a), Minimal(v)), Balanced(w, a, v))
  {
    PutShows(env, st, w, Balanced(w, a, v), BalanceKey(a), Minimal(v));
  }

  lemma LookedShows(env: Env, st: State, w: World, k: StateKey)
    requires Shows(env, st, w)
    ensures Get(env, st, k).1 == Held(w, k) && Shows(env, Get(env, st, k).0, Looked(w, {k}))
  {
    GetShows(env, st, w, k);
  }

  lemma PaidShows(env: Env, st: State, w: World, a: Address, change: Word -> Word, amount: Word)
    requires Shows(env, st, w)
    ensures var r, p := ChangeBalance(env, st, a, change, amount), Paid(w, a, amount, change(w.balance(a)));
            Shows(env, r.0, p.0) && r.1 == p.1
  {
    LookedShows(env, st, w, BalanceKey(a));
    BalanceHeld(w, a);
    BalancedShows(env, Get(env, st, BalanceKey(a)).0, Looked(w, {BalanceKey(a)}), a, change(w.balance(a)));
  }

  lemma AddedIs(x: Word, y: Word)
    ensures (x + y) % TWO_256 == Added(x, y) && (x - y) % TWO_256 == Subtracted(x, y)
  {
    Reduced(x + y);
    Reduced(x - y + TWO_256);
    assert (x - y) % TWO_256 == (x - y + TWO_256) % TWO_256;
  }

  lemma Reduced(n: nat)
    requires n < TWO_256 + TWO_256
    ensures n % TWO_256 == if n >= TWO_256 then n - TWO_256 else n
  {
  }

  /** The states agree with the worlds, and the answers with each other. */
  ghost predicate Agrees(env: Env, base: World, st: State, w: World, op: Op) {
    Shows(env, Step(env, st, op).0, PlainStep(base, w, op).0) && Step(env, st, op).1 == PlainStep(base, w, op).1
  }

  lemma BalanceAgrees(env: Env, base: World, st: State, w: World, op: Op)
    requires Shows(env, st, w) && op.GetBalance?
    ensures Agrees(env, base, st, w, op)
  {
    LookedShows(env, st, w, BalanceKey(op.a));
    BalanceHeld(w, op.a);
  }

  lemma AddAgrees(env: Env, base: World, st: State, w: World, op: Op)
    requires Shows(env, st, w) && op.AddBalance?
    ensures Agrees(env, base, st, w, op)
  {
    AddedIs(w.balance(op.a), op.amount);
    PaidShows(env, st, w, op.a, prev => (prev + op.amount) % TWO_256, op.amount);
  }

  lemma SubAgrees(env: Env, base: World, st: State, w: World, op: Op)
    requires Shows(env, st, w) && op.SubBalance?
    ensures Agrees(env, base, st, w, op)
  {
    AddedIs(w.balance(op.a), op.amount);
    PaidShows(env, st, w, op.a, prev => (prev - op.amount) % TWO_256, op.amount);
  }

  lemma NonceAgrees(env: Env, base: World, st: State, w: World, op: Op)
    requires Shows(env, st, w) && (op.GetNonce? || op.SetNonce?)
    ensures Agrees(env, base, st, w, op)
  {
    match op
    case GetNonce(a) =>
      LookedShows(env, st, w, NonceKey(a));
      NonceHeld(w, a);
    case SetNonce(a, n) =>
      PutShows(env, st, w, PlainStep(base, w, op).0, NonceKey(a), Fixed(n, 8));
  }

  lemma CodeAgrees(env: Env, base: World, st: State, w: World, op: Op)
    requires Shows(env, st, w) && (op.GetCode? || op.SetCode?)
    ensures Agrees(env, base, st, w, op)
  {
    LookedShows(env, st, w, CodeKey(op.a));
    if op.SetCode? {
      var seen := Looked(w, {CodeKey(op.a)});
      PutShows(env, Get(env, st, CodeKey(op.a)).0, seen, PlainStep(base, w, op).0, CodeKey(op.a), op.code);
    }
  }

  lemma CommittedShown(env: Env, base: World, a: Address, slot: Word)
    requires Stores(env, base)
    ensures ToWord(Raw(ValueOf(env, StorageKey(a, slot)))) == base.storage(a, slot)
  {
    assert StoresKey(env, base, StorageKey(a, slot));
    StorageHeld(base, a, slot);
  }

  lemma WordNow(env: Env, base: World, st: State, w: World, a: Address, slot: Word)
    requires Stores(env, base) && ShowsKeys(env, st.journal, w)
    ensures PrevWord(env, st, StorageKey(a, slot)) == w.storage(a, slot)
  {
    var k := StorageKey(a, slot);
    assert ShowsKey(env, st.journal, w, k) && StoresKey(env, base, k);
    StorageHeld(w, a, slot);
  }

  lemma BothAgrees(env: Env, base: World, st: State, w: World, op: Op)
    requires Stores(env, base) && Shows(env, st, w) && op.GetStateAndCommitted?
    ensures Agrees(env, base, st, w, op)
  {
    var k := StorageKey(op.a, op.slot);
    assert ShowsKey(env, st.journal, w, k);
    PushRead(env, st.journal, w, Read(k, VersionOf(env, k)));
    CommittedShown(env, base, op.a, op.slot);
    StorageHeld(w, op.a, op.slot);
  }

  lemma StorageAgrees(env: Env, base: World, st: State, w: World, op: Op)
    requires Stores(env, base) && Shows(env, st, w) && (op.GetState? || op.SetState?)
    ensures Agrees(env, base, st, w, op)
  {
    match op
    case GetState(a, slot) =>
      LookedShows(env, st, w, StorageKey(a, slot));
      StorageHeld(w, a, slot);
    case SetState(a, slot, word) =>
      WordNow(env, base, st, w, a, slot);
      PutShows(env, st, w, PlainStep(base, w, op).0, StorageKey(a, slot), if word == 0 then [] else Fixed(word, 32));
  }

  /* ---- operations on whole accounts ---- */

  lemma NewShows(env: Env, st: State, w: World, a: Address)
    requires Shows(env, st, w)
    ensures Shows(env, MarkNewContract(st, a), w.(created := w.created + {a}))
  {
    if a !in st.created {
      PushOther(env, st.journal, w, NewContractEntry(a));
    }
    assert a in st.created ==> w.created + {a} == w.created;
    SameKeys(env, MarkNewContract(st, a).journal, w, w.(created := w.created + {a}));
  }

  lemma CreateAgrees(env: Env, base: World, st: State, w: World, op: Op)
    requires Shows(env, st, w) && (op.CreateAccount? || op.CreateContract?)
    ensures Agrees(env, base, st, w, op)
  {
    var a := op.a;
    if op.CreateAccount? {
      var st1, w1 := Put(st, BalanceKey(a), []), Balanced(w, a, 0);
      BalancedShows(env, st, w, a, 0);
      assert Minimal(0) == [];
      var w2 := w1.(nonce := With(w.nonce, a, Some(0)), written := w1.written + {NonceKey(a)});
      PutShows(env, st1, w1, w2, NonceKey(a), Fixed(0, 8));
      NewShows(env, Put(st1, NonceKey(a), Fixed(0, 8)), w2, a);
      assert w2.written == w.written + {BalanceKey(a), NonceKey(a)};
    } else {
      var w1 := w.(code := With(w.code, a, []), written := w.written + {CodeKey(a)});
      PutShows(env, st, w, w1, CodeKey(a), []);
      NewShows(env, Put(st, CodeKey(a), []), w1, a);
    }
  }

  lemma DestructAgrees(env: Env, base: World, st: State, w: World, op: Op)
    requires Shows(env, st, w) && op.SelfDestruct?
    ensures Agrees(env, base, st, w, op)
  {
    var a := op.a;
    var st1, w1 := Get(env, st, BalanceKey(a)).0, Looked(w, {BalanceKey(a)});
    LookedShows(env, st, w, BalanceKey(a));
    BalanceHeld(w, a);
    BalancedShows(env, st1, w1, a, 0);
    assert Minimal(0) == [];
    var st2, w2 := if w.balance(a) != 0 then Put(st1, BalanceKey(a), []) else st1,
                   if w.balance(a) == 0 then w1 else Balanced(w1, a, 0);
    assert Shows(env, st2, w2);
    if a in st.created {
      PushOther(env, st2.journal, w2, SelfDestructEntry(a));
      SameKeys(env, st2.journal + [SelfDestructEntry(a)], w2, w2.(destructed := w.destructed + {a}));
    }
  }

  /** Up to three lookups in turn. */
  lemma LookedTwice(w: World, ks: set<StateKey>, ks': set<StateKey>)
    ensures Looked(Looked(w, ks), ks') == Looked(w, ks + ks')
  {
    assert w.read + (ks - w.written) + (ks' - w.written) == w.read + (ks + ks' - w.written);
  }

  lemma LooksShow(env: Env, st: State, w: World, a: Address)
    requires Shows(env, st, w)
    ensures var st1 := Get(env, st, BalanceKey(a)).0;
            var st2 := Get(env, st1, NonceKey(a)).0;
            && Get(env, st, BalanceKey(a)).1 == Held(w, BalanceKey(a))
            && Get(env, st1, NonceKey(a)).1 == Held(w, NonceKey(a))
            && Get(env, st2, CodeKey(a)).1 == Held(w, CodeKey(a))
            && Shows(env, st1, Looked(w, {BalanceKey(a)}))
            && Shows(env, st2, Looked(w, {BalanceKey(a), NonceKey(a)}))
            && Shows(env, Get(env, st2, CodeKey(a)).0, Looked(w, {BalanceKey(a), NonceKey(a), CodeKey(a)}))
  {
    var st1, w1 := Get(env, st, BalanceKey(a)).0, Looked(w, {BalanceKey(a)});
    LookedShows(env, st, w, BalanceKey(a));
    var st2, w2 := Get(env, st1, NonceKey(a)).0, Looked(w1, {NonceKey(a)});
    LookedShows(env, st1, w1, NonceKey(a));
    LookedShows(env, st2, w2, CodeKey(a));
    LookedTwice(w, {BalanceKey(a)}, {NonceKey(a)});
    LookedTwice(w, {BalanceKey(a), NonceKey(a)}, {CodeKey(a)});
    assert {BalanceKey(a)} + {NonceKey(a)} == {BalanceKey(a), NonceKey(a)};
    assert {BalanceKey(a), NonceKey(a)} + {CodeKey(a)} == {BalanceKey(a), NonceKey(a), CodeKey(a)};
  }

  lemma ExistLooks(env: Env, st: State, a: Address)
    ensures var (st1, balance) := Get(env, st, BalanceKey(a));
            var (st2, nonce) := Get(env, st1, NonceKey(a));
            var (st3, code) := Get(env, st2, CodeKey(a));
            DoExist(env, st, a) == if balance.Some? then (st1, Flag(true))
                                   else if nonce.Some? then (st2, Flag(true))
                                   else (st3, Flag(code.Some?))
  {
  }

  lemma ExistCases(env: Env, w: World, a: Address, st1: State, st2: State, st3: State, r: (State, Obs))
    requires Shows(env, st1, Looked(w, {BalanceKey(a)})) && Shows(env, st2, Looked(w, {BalanceKey(a), NonceKey(a)}))
    requires Shows(env, st3, Looked(w, {BalanceKey(a), NonceKey(a), CodeKey(a)}))
    requires r == if Held(w, BalanceKey(a)).Some? then (st1, Flag(true))
                  else if Held(w, NonceKey(a)).Some? then (st2, Flag(true))
                  else (st3, Flag(Held(w, CodeKey(a)).Some?))
    ensures Shows(env, r.0, Looked(w, ExistKeys(w, a)))
    ensures r.1 == Flag(w.balance(a) != 0 || w.nonce(a).Some? || w.code(a) != [])
  {
  }

  lemma ExistShows(env: Env, st: State, w: World, a: Address)
    requires Shows(env, st, w)
    ensures Shows(env, DoExist(env, st, a).0, Looked(w, ExistKeys(w, a)))
    ensures DoExist(env, st, a).1 == Flag(w.balance(a) != 0 || w.nonce(a).Some? || w.code(a) != [])
  {
    var st1 := Get(env, st, BalanceKey(a)).0;
    var st2 := Get(env, st1, NonceKey(a)).0;
    LooksShow(env, st, w, a);
    ExistLooks(env, st, a);
    ExistCases(env, w, a, st1, st2, Get(env, st2, CodeKey(a)).0, DoExist(env, st, a));
  }

  lemma ExistAgrees(env: Env, base: World, st: State, w: World, op: Op)
    requires Shows(env, st, w) && op.Exist?
    ensures Agrees(env, base, st, w, op)
  {
    ExistShows(env, st, w, op.a);
  }

  lemma EmptyLooks(env: Env, st: State, a: Address, balance: Word, nonce: U64)
    requires var st1 := Get(env, st, BalanceKey(a)).0;
             && ToWord(Raw(Get(env, st, BalanceKey(a)).1)) == balance
             && NonceObs(Get(env, st1, NonceKey(a)).1) == Number(nonce)
    ensures var st1 := Get(env, st, BalanceKey(a)).0;
            var st2 := Get(env, st1, NonceKey(a)).0;
            var (st3, code) := Get(env, st2, CodeKey(a));
            DoEmpty(env, st, a) == if balance != 0 then (st1, Flag(false))
                                   else if nonce != 0 then (st2, Flag(false))
                                   else (st3, Flag(Raw(code) == []))
  {
  }

  lemma EmptyCases(env: Env, w: World, a: Address, st1: State, st2: State, st3: State, r: (State, Obs))
    requires Shows(env, st1, Looked(w, {BalanceKey(a)})) && Shows(env, st2, Looked(w, {BalanceKey(a), NonceKey(a)}))
    requires Shows(env, st3, Looked(w, {BalanceKey(a), NonceKey(a), CodeKey(a)}))
    requires r == if w.balance(a) != 0 then (st1, Flag(false))
                  else if NonceNow(w, a) != 0 then (st2, Flag(false))
                  else (st3, Flag(Raw(Held(w, CodeKey(a))) == []))
    ensures Shows(env, r.0, Looked(w, EmptyKeys(w, a)))
    ensures r.1 == Flag(w.balance(a) == 0 && NonceNow(w, a) == 0 && w.code(a) == [])
  {
  }

  lemma EmptyShows(env: Env, st: State, w: World, a: Address)
    requires Shows(env, st, w)
    ensures Shows(env, DoEmpty(env, st, a).0, Looked(w, EmptyKeys(w, a)))
    ensures DoEmpty(env, st, a).1 == Flag(w.balance(a) == 0 && NonceNow(w, a) == 0 && w.code(a) == [])
  {
    var st1 := Get(env, st, BalanceKey(a)).0;
    var st2 := Get(env, st1, NonceKey(a)).0;
    LooksShow(env, st, w, a);
    BalanceHeld(w, a);
    NonceHeld(w, a);
    EmptyLooks(env, st, a, w.balance(a), NonceNow(w, a));
    EmptyCases(env, w, a, st1, st2, Get(env, st2, CodeKey(a)).0, DoEmpty(env, st, a));
  }

  lemma EmptyAgrees(env: Env, base: World, st: State, w: World, op: Op)
    requires Shows(env, st, w) && op.Empty?
    ensures Agrees(env, base, st, w, op)
  {
    EmptyShows(env, st, w, op.a);
  }

  /* ---- the rest ---- */

  lemma RefundAgrees(env: Env, base: World, st: State, w: World, op: Op)
    requires Shows(env, st, w) && (op.GetRefund? || op.AddRefund? || op.SubRefund?)
    ensures Agrees(env, base, st, w, op)
  {
    if !op.GetRefund? {
      PushOther(env, st.journal, w, RefundEntry(st.refund));
      SameKeys(env, Step(env, st, op).0.journal, w, PlainStep(base, w, op).0);
    }
  }

  lemma TransientAgrees(env: Env, base: World, st: State, w: World, op: Op)
    requires Shows(env, st, w) && (op.GetTransient? || op.SetTransient?)
    ensures Agrees(env, base, st, w, op)
  {
    if op.SetTransient? {
      PushOther(env, st.journal, w, TransientEntry(op.a, op.slot, TransientWord(st.transient, op.a, op.slot)));
      SameKeys(env, Step(env, st, op).0.journal, w, PlainStep(base, w, op).0);
    }
  }

  lemma MarkAgrees(env: Env, base: World, st: State, w: World, op: Op)
    requires Shows(env, st, w) && (op.HasSelfDestructed? || op.IsNewContract? || op.AddLog?)
    ensures Agrees(env, base, st, w, op)
  {
    SameKeys(env, st.journal, w, PlainStep(base, w, op).0);
  }

  lemma WarmAgrees(env: Env, st: State, w: World, w': World, a: Address)
    requires Shows(env, st, w) && w' == w.(warm := w'.warm, warmSlots := w'.warmSlots)
    ensures Shows(env, WarmAddress(st, a), w')
  {
    if a !in st.warm {
      PushOther(env, st.journal, w, AddressEntry(a));
    }
    SameKeys(env, WarmAddress(st, a).journal, w, w');
  }

  /** Operations on the access list show in nothing else. */
  predicate OnAccess(op: Op) {
    || op.AddressInAccessList? || op.SlotInAccessList? || op.AddAddressToAccessList? || op.AddSlotToAccessList?
    || op.Prepare?
  }

  lemma AccessShows(env: Env, base: World, st: State, w: World, op: Op)
    requires Shows(env, st, w) && OnAccess(op)
    ensures Shows(env, Step(env, st, op).0, PlainStep(base, w, op).0)
  {
    var w' := PlainStep(base, w, op).0;
    if op.AddAddressToAccessList? {
      WarmAgrees(env, st, w, w', op.a);
    } else if op.AddSlotToAccessList? && (op.a, op.slot) !in st.warmSlots {
      WarmAgrees(env, st, w, w', op.a);
      PushOther(env, WarmAddress(st, op.a).journal, w', SlotEntry(op.a, op.slot));
    } else {
      SameKeys(env, st.journal, w, w');
    }
  }

  /** The access lists and the answers agree after one operation. */
  ghost predicate AccessAlike(r: (State, Obs), r': (World, Obs)) {
    ShowsAccess(r.0, r'.0) && r.1 == r'.1
  }

  lemma SlotAgrees(env: Env, base: World, st: State, w: World, a: Address, slot: Word)
    requires WF(st) && ShowsAccess(st, w)
    ensures var op := AddSlotToAccessList(a, slot); AccessAlike(Step(env, st, op), PlainStep(base, w, op))
  {
    if (a, slot) in st.warmSlots {
      assert w.warm + {a} == w.warm && w.warmSlots + {(a, slot)} == w.warmSlots;
    }
  }

  lemma PrepareAgrees(env: Env, base: World, st: State, w: World, warm: seq<Address>, tuples: seq<AccessTuple>)
    ensures var op := Prepare(warm, tuples); AccessAlike(Step(env, st, op), PlainStep(base, w, op))
  {
  }

  lemma AddressAgrees(env: Env, base: World, st: State, w: World, a: Address)
    requires ShowsAccess(st, w)
    ensures var op := AddAddressToAccessList(a); AccessAlike(Step(env, st, op), PlainStep(base, w, op))
  {
    if a in st.warm {
      assert w.warm + {a} == w.warm;
    }
  }

  lemma AccessAgrees(env: Env, base: World, st: State, w: World, op: Op)
    requires WF(st) && ShowsAccess(st, w) && OnAccess(op)
    ensures AccessAlike(Step(env, st, op), PlainStep(base, w, op))
  {
    match op
    case AddSlotToAccessList(a, slot) => SlotAgrees(env, base, st, w, a, slot);
    case Prepare(warm, tuples) => PrepareAgrees(env, base, st, w, warm, tuples);
    case AddAddressToAccessList(a) => AddressAgrees(env, base, st, w, a);
    case AddressInAccessList(a) =>
    case SlotInAccessList(a, slot) =>
  }

  predicate SameAccess(st: State, st': State) {
    st'.warm == st.warm && st'.warmSlots == st.warmSlots
  }

  lemma GetKeepsAccess(env: Env, st: State, k: StateKey)
    ensures SameAccess(st, Get(env, st, k).0)
  {
  }

  lemma LooksKeepAccess(env: Env, st: State, a: Address, st': State)
    requires st' == DoExist(env, st, a).0 || st' == DoEmpty(env, st, a).0
    ensures SameAccess(st, st')
  {
    var st1 := Get(env, st, BalanceKey(a)).0;
    GetKeepsAccess(env, st, BalanceKey(a));
    var st2 := Get(env, st1, NonceKey(a)).0;
    GetKeepsAccess(env, st1, NonceKey(a));
    var st3 := Get(env, st2, CodeKey(a)).0;
    GetKeepsAccess(env, st2, CodeKey(a));
    assert st' == st1 || st' == st2 || st' == st3;
  }

  lemma StepKeepsAccess(env: Env, st: State, op: Op)
    requires !OnAccess(op)
    ensures SameAccess(st, Step(env, st, op).0)
  {
    if op.Exist? || op.Empty? {
      LooksKeepAccess(env, st, op.a, Step(env, st, op).0);
    }
  }

  lemma OtherAccess(env: Env, base: World, st: State, w: World, op: Op)
    requires ShowsAccess(st, w) && !OnAccess(op)
    ensures ShowsAccess(Step(env, st, op).0, PlainStep(base, w, op).0)
  {
    StepKeepsAccess(env, st, op);
  }

  /** Every operation. */
  lemma StepAgrees(env: Env, base: World, st: State, w: World, op: Op)
    requires Stores(env, base) && Shows(env, st, w)
    ensures Shows(env, Step(env, st, op).0, PlainStep(base, w, op).0)
    ensures !OnAccess(op) ==> Step(env, st, op).1 == PlainStep(base, w, op).1
  {
    match op
    case CreateAccount(_) => CreateAgrees(env, base, st, w, op);
    case CreateContract(_) => CreateAgrees(env, base, st, w, op);
    case GetBalance(_) => BalanceAgrees(env, base, st, w, op);
    case AddBalance(_, _) => AddAgrees(env, base, st, w, op);
    case SubBalance(_, _) => SubAgrees(env, base, st, w, op);
    case GetNonce(_) => NonceAgrees(env, base, st, w, op);
    case SetNonce(_, _) => NonceAgrees(env, base, st, w, op);
    case GetCode(_) => CodeAgrees(env, base, st, w, op);
    case SetCode(_, _) => CodeAgrees(env, base, st, w, op);
    case GetState(_, _) => StorageAgrees(env, base, st, w, op);
    case GetStateAndCommitted(_, _) => BothAgrees(env, base, st, w, op);
    case SetState(_, _, _) => StorageAgrees(env, base, st, w, op);
    case SelfDestruct(_) => DestructAgrees(env, base, st, w, op);
    case HasSelfDestructed(_) => MarkAgrees(env, base, st, w, op);
    case IsNewContract(_) => MarkAgrees(env, base, st, w, op);
    case AddLog(_) => MarkAgrees(env, base, st, w, op);
    case Exist(_) => ExistAgrees(env, base, st, w, op);
    case Empty(_) => EmptyAgrees(env, base, st, w, op);
    case GetRefund => RefundAgrees(env, base, st, w, op);
    case AddRefund(_) => RefundAgrees(env, base, st, w, op);
    case SubRefund(_) => RefundAgrees(env, base, st, w, op);
    case GetTransient(_, _) => TransientAgrees(env, base, st, w, op);
    case SetTransient(_, _, _) => TransientAgrees(env, base, st, w, op);
    case _ => AccessShows(env, base, st, w, op);
  }

  /* ---- marks ---- */

  /** What was journalled between marks no account. */
  ghost predicate NoMarks(s: seq<Entry>, t: seq<Entry>) {
    s <= t && forall i :: |s| <= i < |t| ==> !t[i].SelfDestructEntry?
  }

  lemma GetNoMarks(env: Env, s: seq<Entry>, st: State, k: StateKey)
    requires NoMarks(s, st.journal)
    ensures NoMarks(s, Get(env, st, k).0.journal)
  {
  }

  lemma LooksNoMarks(env: Env, st: State, a: Address, st': State)
    requires st' == DoExist(env, st, a).0 || st' == DoEmpty(env, st, a).0
    ensures NoMarks(st.journal, st'.journal)
  {
    var st1 := Get(env, st, BalanceKey(a)).0;
    GetNoMarks(env, st.journal, st, BalanceKey(a));
    var st2 := Get(env, st1, NonceKey(a)).0;
    GetNoMarks(env, st.journal, st1, NonceKey(a));
    var st3 := Get(env, st2, CodeKey(a)).0;
    GetNoMarks(env, st.journal, st2, CodeKey(a));
    assert st' == st1 || st' == st2 || st' == st3;
  }

  lemma KeyStepNoMarks(env: Env, st: State, op: Op)
    requires OnKeys(op)
    ensures NoMarks(st.journal, Step(env, st, op).0.journal)
  {
    if op.Exist? || op.Empty? {
      LooksNoMarks(env, st, op.a, Step(env, st, op).0);
    }
  }

  lemma StepNoMarks(env: Env, st: State, op: Op)
    requires !op.SelfDestruct?
    ensures NoMarks(st.journal, Step(env, st, op).0.journal)
  {
    if OnKeys(op) {
      KeyStepNoMarks(env, st, op);
    }
  }

  lemma NoneDestroyed(s: seq<Entry>, t: seq<Entry>)
    requires NoMarks(s, t)
    ensures Destroyed(t[|s|..]) == {}
  {
    forall e | e in t[|s|..]
      ensures !e.SelfDestructEntry?
    {
      var i :| 0 <= i < |t[|s|..]| && t[|s|..][i] == e;
      assert t[|s| + i] == e;
    }
  }

  /** An operation marks an account exactly when it self-destructs one created in this transaction. */
  lemma MarksAre(env: Env, st: State, op: Op)
    requires WF(st)
    ensures Marks(env, st, op) == if op.SelfDestruct? && op.a in st.created then {op.a} else {}
  {
    StepGrows(env, st, op);
    var s, t := st.journal, Step(env, st, op).0.journal;
    if op.SelfDestruct? {
      var a := op.a;
      var st1 := Get(env, st, BalanceKey(a)).0;
      GetNoMarks(env, s, st, BalanceKey(a));
      var st2 := if ToWord(Raw(Get(env, st, BalanceKey(a)).1)) != 0 then Put(st1, BalanceKey(a), []) else st1;
      assert NoMarks(s, st2.journal);
      NoneDestroyed(s, st2.journal);
      if a in st.created {
        assert t[|s|..] == st2.journal[|s|..] + [SelfDestructEntry(a)];
        DestroyedConcat(st2.journal[|s|..], [SelfDestructEntry(a)]);
        assert SelfDestructEntry(a) in [SelfDestructEntry(a)];
      }
    } else {
      StepNoMarks(env, st, op);
      NoneDestroyed(s, t);
    }
  }

  /* ---- runs ---- */

  /** A snapshot of one machine and a frame of the other; tidy means nothing was prepared inside a snapshot. */
  ghost predicate FrameOk(env: Env, note: Note, r: Revision, f: Frame, tidy: bool) {
    && r.id == f.id && note.again == f.again && Shows(env, note.state, f.world)
    && (tidy ==> !note.prepared && ShowsAccess(note.state, f.world))
  }

  ghost predicate Alike(env: Env, w: Watched, p: Plain, tidy: bool) {
    && InRange(w.db) && NotesOk(w) && w.db.nextId == p.nextId && |p.frames| == |w.notes|
    && Shows(env, w.db.cur, p.cur) && (tidy ==> ShowsAccess(w.db.cur, p.cur))
    && forall i :: 0 <= i < |p.frames| ==> FrameOk(env, w.notes[i], w.db.revisions[i], p.frames[i], tidy)
  }

  /** A command that prepares inside a snapshot. */
  predicate Untidies(p: Plain, c: Command) {
    c.Do? && c.op.Prepare? && p.frames != []
  }

  /** Questions about the access list. */
  predicate AsksAccess(c: Command) {
    c.Do? && (c.op.AddressInAccessList? || c.op.SlotInAccessList?)
  }

  /** The state and the answer of one operation. */
  lemma DoShows(env: Env, base: World, st: State, w: World, op: Op, tidy: bool)
    requires Stores(env, base) && WF(st) && Shows(env, st, w) && (tidy ==> ShowsAccess(st, w))
    ensures Shows(env, Step(env, st, op).0, PlainStep(base, w, op).0)
    ensures tidy ==> ShowsAccess(Step(env, st, op).0, PlainStep(base, w, op).0)
    ensures tidy || !AsksAccess(Do(op)) ==> Step(env, st, op).1 == PlainStep(base, w, op).1
  {
    StepAgrees(env, base, st, w, op);
    if tidy {
      if OnAccess(op) {
        AccessAgrees(env, base, st, w, op);
      } else {
        OtherAccess(env, base, st, w, op);
      }
    }
  }

  lemma FrameNext(env: Env, st: State, w: World, op: Op, note: Note, r: Revision, f: Frame, tidy: bool)
    requires WF(st) && Shows(env, st, w) && FrameOk(env, note, r, f, tidy)
    ensures FrameOk(env, Noted(env, st, op, note), r, f.(again := f.again + Marked(w, op)), tidy && !op.Prepare?)
  {
    MarksAre(env, st, op);
  }

  lemma DoAlike(env: Env, base: World, w: Watched, p: Plain, op: Op, tidy: bool)
    requires Stores(env, base) && Alike(env, w, p, tidy)
    ensures Alike(env, Watch1(env, w, Do(op)), PlainNext(base, p, Do(op)).0, tidy && !Untidies(p, Do(op)))
    ensures tidy || !AsksAccess(Do(op)) ==> Run1(env, w.db, Do(op)).1 == PlainNext(base, p, Do(op)).1
  {
    DoShows(env, base, w.db.cur, p.cur, op, tidy);
    Watch1Ok(env, w, Do(op));
    forall i | 0 <= i < |p.frames|
      ensures FrameOk(env, Watch1(env, w, Do(op)).notes[i], w.db.revisions[i], PlainNext(base, p, Do(op)).0.frames[i],
                      tidy && !Untidies(p, Do(op)))
    {
      FrameNext(env, w.db.cur, p.cur, op, w.notes[i], w.db.revisions[i], p.frames[i], tidy);
    }
  }

  lemma {:induction false} SameFrame(revisions: seq<Revision>, frames: seq<Frame>, id: nat)
    requires |revisions| == |frames| && forall i :: 0 <= i < |frames| ==> revisions[i].id == frames[i].id
    ensures Find(revisions, id) == Before(frames, id)
  {
    var i, j := Find(revisions, id), Before(frames, id);
    assert i < |frames| ==> frames[i].id == id;
    assert j < |frames| ==> revisions[j].id == id;
  }

  /** The state a revert gives back shows the world of its frame. */
  lemma GivenBackShows(env: Env, note: Note, f: Frame, st: State, tidy: bool)
    requires Shows(env, note.state, f.world) && note.again == f.again && st == GivenBack(note, st.warm, st.warmSlots)
    requires tidy ==> !note.prepared && ShowsAccess(note.state, f.world)
    ensures var w := f.world.(destructed := f.world.destructed - f.again);
            Shows(env, st, w) && (tidy ==> ShowsAccess(st, w))
  {
    SameKeys(env, st.journal, f.world, f.world.(destructed := f.world.destructed - f.again));
  }

  /** What the revert leaves of snapshots and frames. */
  lemma RevertFrames(env: Env, w: Watched, p: Plain, i: nat, w': Watched, p': Plain, tidy: bool)
    requires Alike(env, w, p, tidy) && i <= |p.frames| && InRange(w'.db) && NotesOk(w')
    requires w'.notes == w.notes[..i] && w'.db.revisions == w.db.revisions[..i] && w'.db.nextId == w.db.nextId
    requires p'.frames == p.frames[..i] && p'.nextId == p.nextId
    requires Shows(env, w'.db.cur, p'.cur) && (tidy ==> ShowsAccess(w'.db.cur, p'.cur))
    ensures Alike(env, w', p', tidy)
  {
  }

  lemma RevertAlike(env: Env, base: World, w: Watched, p: Plain, id: nat, tidy: bool)
    requires Alike(env, w, p, tidy)
    ensures Alike(env, Watch1(env, w, Revert(id)), PlainNext(base, p, Revert(id)).0, tidy)
  {
    var w', p' := Watch1(env, w, Revert(id)), PlainNext(base, p, Revert(id)).0;
    var i := Find(w.db.revisions, id);
    assert i == Before(p.frames, id) by {
      SameFrame(w.db.revisions, p.frames, id);
    }
    assert NotesOk(w') by {
      Watch1Ok(env, w, Revert(id));
    }
    if i < |w.db.revisions| {
      assert Shows(env, w'.db.cur, p'.cur) && (tidy ==> ShowsAccess(w'.db.cur, p'.cur)) by {
        assert FrameOk(env, w.notes[i], w.db.revisions[i], p.frames[i], tidy);
        RevertNoted(w, id);
        GivenBackShows(env, w.notes[i], p.frames[i], w'.db.cur, tidy);
      }
      RevertFrames(env, w, p, i, w', p', tidy);
    } else {
      assert w.notes[..|w.notes|] == w.notes;
    }
  }

  lemma NextAlike(env: Env, base: World, w: Watched, p: Plain, c: Command, tidy: bool)
    requires Stores(env, base) && Alike(env, w, p, tidy)
    ensures Alike(env, Watch1(env, w, c), PlainNext(base, p, c).0, tidy && !Untidies(p, c))
    ensures tidy || !AsksAccess(c) ==> Run1(env, w.db, c).1 == PlainNext(base, p, c).1
  {
    match c
    case Do(op) => DoAlike(env, base, w, p, op, tidy);
    case Snapshot => Watch1Ok(env, w, Snapshot);
    case Revert(id) => RevertAlike(env, base, w, p, id, tidy);
  }

  /** Nothing was prepared inside a snapshot. */
  predicate Tidy(base: World, cs: seq<Command>) {
    cs == [] || (var n := |cs| - 1; Tidy(base, cs[..n]) && !Untidies(PlainRun(base, cs[..n]), cs[n]))
  }

  lemma {:induction false} StartAlike(env: Env, base: World)
    requires Stores(env, base)
    ensures Alike(env, Watch(env, []), PlainRun(base, []), true)
  {
    forall k
      ensures ShowsKey(env, [], base, k)
    {
      assert StoresKey(env, base, k);
    }
    assert ReadKeys([]) == {};
  }

  lemma {:induction false} RunAlike(env: Env, base: World, cs: seq<Command>)
    requires Stores(env, base)
    ensures Alike(env, Watch(env, cs), PlainRun(base, cs), Tidy(base, cs))
  {
    if cs == [] {
      StartAlike(env, base);
    } else {
      var n := |cs| - 1;
      RunAlike(env, base, cs[..n]);
      NextAlike(env, base, Watch(env, cs[..n]), PlainRun(base, cs[..n]), cs[n], Tidy(base, cs[..n]));
    }
  }

  /* ---- the whole run ---- */

  lemma {:induction false} RunsTail(env: Env, db: Db, cs: seq<Command>, db': Db, out: seq<Obs>)
    requires Runs(env, db, cs, db', out) && cs != []
    ensures InRange(db) && out != [] && out[0] == Run1(env, db, cs[0]).1
    ensures Runs(env, Run1(env, db, cs[0]).0, cs[1..], db', out[1..])
  {
  }

  lemma {:induction false} WatchSnoc(env: Env, cs: seq<Command>, c: Command)
    ensures Watch(env, cs + [c]).db == Run1(env, Watch(env, cs).db, c).0
  {
    Append(cs, c);
  }

  /** The watched machine is the journalled one. */
  lemma {:induction false} WatchFrom(env: Env, cs: seq<Command>, more: seq<Command>, db: Db, out: seq<Obs>)
    requires Runs(env, Watch(env, cs).db, more, db, out)
    ensures |out| == |more| && db == Watch(env, cs + more).db
    decreases |more|
  {
    if more == [] {
      assert cs + more == cs;
    } else {
      var c, rest := more[0], more[1..];
      assert more == [c] + rest;
      Associate(cs, [c], rest);
      RunsTail(env, Watch(env, cs).db, more, db, out);
      WatchSnoc(env, cs, c);
      WatchFrom(env, cs + [c], rest, db, out[1..]);
    }
  }

  lemma {:induction false} RunsCons(env: Env, db: Db, c: Command, cs: seq<Command>, db': Db, out: seq<Obs>)
    requires InRange(db) && Runs(env, Run1(env, db, c).0, cs, db', out)
    ensures Runs(env, db, [c] + cs, db', [Run1(env, db, c).1] + out)
  {
    assert ([c] + cs)[1..] == cs && ([Run1(env, db, c).1] + out)[1..] == out;
  }

  /** A run up to any of its commands. */
  lemma {:induction false} RunsUpTo(env: Env, db: Db, cs: seq<Command>, db': Db, out: seq<Obs>, i: nat)
    returns (mid: Db)
    requires Runs(env, db, cs, db', out) && i < |cs| && |out| == |cs|
    ensures Runs(env, db, cs[..i], mid, out[..i]) && InRange(mid) && out[i] == Run1(env, mid, cs[i]).1
    decreases |cs|
  {
    RunsTail(env, db, cs, db', out);
    if i == 0 {
      mid := db;
    } else {
      mid := RunsUpTo(env, Run1(env, db, cs[0]).0, cs[1..], db', out[1..], i - 1);
      RunsCons(env, db, cs[0], cs[1..][..i - 1], mid, out[1..][..i - 1]);
      assert cs[..i] == [cs[0]] + cs[1..][..i - 1] && out[..i] == [out[0]] + out[1..][..i - 1];
    }
  }

  /** Every answer of every run from a new StateDB is the one the plain accounts give, except to questions about the
      access list once a transaction was prepared inside a snapshot. */
  lemma {:induction false} PlainAnswers(env: Env, base: World, cs: seq<Command>, db: Db, out: seq<Obs>, i: nat)
    requires Stores(env, base) && Runs(env, NewDb, cs, db, out) && i < |cs|
    ensures |out| == |cs|
    ensures !AsksAccess(cs[i]) || Tidy(base, cs[..i]) ==>
              out[i] == PlainNext(base, PlainRun(base, cs[..i]), cs[i]).1
  {
    WatchFrom(env, [], cs, db, out);
    var mid := RunsUpTo(env, NewDb, cs, db, out, i);
    WatchFrom(env, [], cs[..i], mid, out[..i]);
    assert [] + cs[..i] == cs[..i];
    RunAlike(env, base, cs[..i]);
    NextAlike(env, base, Watch(env, cs[..i]), PlainRun(base, cs[..i]), cs[i], Tidy(base, cs[..i]));
  }

  lemma {:induction false} RunShows(env: Env, base: World, cs: seq<Command>, db: Db, out: seq<Obs>)
    requires Stores(env, base) && Runs(env, NewDb, cs, db, out)
    ensures Shows(env, db.cur, PlainRun(base, cs).cur)
  {
    WatchFrom(env, [], cs, db, out);
    assert [] + cs == cs;
    RunAlike(env, base, cs);
  }

  lemma {:induction false} WrittenLast(journal: seq<Entry>, k: StateKey)
    ensures k in Writes(journal) <==> LastWrite(journal, k).Some?
    ensures k in Writes(journal) ==> LastWrite(journal, k) == Some(Writes(journal)[k])
  {
    if journal != [] {
      WrittenLast(journal[..|journal| - 1], k);
    }
  }

  /** After every run the read-write set is exactly: the keys the plain accounts read from the store, and for every key
      they wrote, what they hold there, a zero or nothing being a delete. */
  lemma {:induction false} PlainReadWriteSet(env: Env, base: World, cs: seq<Command>, db: Db, out: seq<Obs>)
    requires Stores(env, base) && Runs(env, NewDb, cs, db, out)
    ensures var w := PlainRun(base, cs).cur;
            && Reads(db.cur.journal).Keys == w.read && Writes(db.cur.journal).Keys == w.written
            && forall k :: k in w.written ==> Writes(db.cur.journal)[k] == Write(k, Held(w, k), Held(w, k) == None)
  {
    RunShows(env, base, cs, db, out);
    var w := PlainRun(base, cs).cur;
    ReadsAreReadKeys(db.cur.journal);
    forall k
      ensures k in Writes(db.cur.journal) <==> k in w.written
      ensures k in w.written ==> Writes(db.cur.journal)[k] == Write(k, Held(w, k), Held(w, k) == None)
    {
      WrittenLast(db.cur.journal, k);
      assert ShowsKey(env, db.cur.journal, w, k);
    }
  }

  /* ---- values StateDB did not write ---- */

  /** Whatever bytes a store holds: a balance and a word are their big-endian number modulo 2^256, a nonce that of their
      first eight, fewer than eight crashing the reader; no bytes are 0. */
  lemma ForeignValues(env: Env, st: State, a: Address, slot: Word)
    requires LastWrite(st.journal, BalanceKey(a)) == None && LastWrite(st.journal, NonceKey(a)) == None
    requires LastWrite(st.journal, StorageKey(a, slot)) == None
    ensures var b := Raw(ValueOf(env, BalanceKey(a))); Step(env, st, GetBalance(a)).1 == Number(FromBytes(b) % TWO_256)
    ensures var b := Raw(ValueOf(env, StorageKey(a, slot)));
            Step(env, st, GetState(a, slot)).1 == Number(FromBytes(b) % TWO_256)
    ensures var b, obs := Raw(ValueOf(env, NonceKey(a))), Step(env, st, GetNonce(a)).1;
            && (b == [] ==> obs == Number(0))
            && (0 < |b| < 8 ==> obs == Panic)
            && (|b| >= 8 ==> obs == Number(FromBytes(b[..8])))
  {
  }

  /** Before a slot is written, SetState says what GetState would show, unless the record is deleted and still has a
      word: then the read shows the word and SetState says there was 0. */
  lemma PreviousIsShownIff(env: Env, st: State, a: Address, slot: Word, word: Word)
    requires LastWrite(st.journal, StorageKey(a, slot)) == None
    ensures var r, said, shown := env.store(StorageKey(a, slot)), Step(env, st, SetState(a, slot, word)).1,
                                  Step(env, st, GetState(a, slot)).1;
            && (said == shown <==> r == None || !r.value.isDelete || FromBytes(Raw(r.value.value)) % TWO_256 == 0)
            && (said != shown ==> said == Number(0) && shown == Number(FromBytes(Raw(r.value.value)) % TWO_256))
  {
  }

  /* ---- marks need a creation ---- */

  /** The marks after an operation: one more exactly when an account created in this transaction self-destructs.  Marks
      of creation are never dropped by an operation. */
  lemma StepMarks(env: Env, st: State, op: Op)
    ensures Step(env, st, op).0.destructed
            == st.destructed + if op.SelfDestruct? && op.a in st.created then {op.a} else {}
    ensures st.created <= Step(env, st, op).0.created
  {
    if op.Exist? || op.Empty? {
      LooksKeepMarks(env, st, op.a, Step(env, st, op).0);
    }
  }

  lemma LooksKeepMarks(env: Env, st: State, a: Address, st': State)
    requires st' == DoExist(env, st, a).0 || st' == DoEmpty(env, st, a).0
    ensures st'.destructed == st.destructed && st'.created == st.created
  {
    var st1 := Get(env, st, BalanceKey(a)).0;
    var st2 := Get(env, st1, NonceKey(a)).0;
    var st3 := Get(env, st2, CodeKey(a)).0;
    assert st' == st1 || st' == st2 || st' == st3;
  }

  ghost predicate CreatedOk(st: State) {
    st.destructed <= st.created
  }

  ghost predicate AllCreatedOk(w: Watched) {
    CreatedOk(w.db.cur) && forall i :: 0 <= i < |w.notes| ==> CreatedOk(w.notes[i].state)
  }

  lemma RevertCreated(env: Env, w: Watched, id: nat)
    requires InRange(w.db) && NotesOk(w) && AllCreatedOk(w)
    ensures AllCreatedOk(Watch1(env, w, Revert(id)))
  {
    var i, w' := Find(w.db.revisions, id), Watch1(env, w, Revert(id));
    assert w'.notes == w.notes[..|w'.notes|];
    if i < |w.db.revisions| {
      assert CreatedOk(w'.db.cur) by {
        RevertNoted(w, id);
        assert CreatedOk(w.notes[i].state);
      }
    }
  }

  lemma {:induction false} WatchCreated(env: Env, cs: seq<Command>)
    ensures AllCreatedOk(Watch(env, cs))
  {
    if cs != [] {
      var n := |cs| - 1;
      WatchCreated(env, cs[..n]);
      WatchOk(env, cs[..n]);
      var w := Watch(env, cs[..n]);
      match cs[n] {
        case Do(op) => StepMarks(env, w.db.cur, op);
        case Snapshot =>
        case Revert(id) => RevertCreated(env, w, id);
      }
    }
  }

  /** Over every run on every store, reverts included: only accounts created in the transaction are marked as
      self-destructed. */
  lemma {:induction false} MarkedWereCreated(env: Env, cs: seq<Command>, db: Db, out: seq<Obs>)
    requires Runs(env, NewDb, cs, db, out)
    ensures db.cur.destructed <= db.cur.created
  {
    WatchFrom(env, [], cs, db, out);
    assert [] + cs == cs;
    WatchCreated(env, cs);
  }
}
