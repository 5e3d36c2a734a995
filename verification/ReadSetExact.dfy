/** How far the reported read set goes: exactly when it fixes a run with reverts, and what SetState returns. */
module ReadSetExact {
  import opened Prelude
  import opened Words
  import opened Records
  import opened StateModel
  import opened StateUndo
  import opened ReadSet

  /* ---- a store that differs in one key ---- */

  /** env with another live record of k. */
  function Altered(env: Env, k: StateKey, r: Record): Env {
    Env(x => if x == k then Some(r) else env.store(x), env.monotonic)
  }

  /** A live record of this word under another version, whichever way versions are reported. */
  function Other(env: Env, k: StateKey, word: Word): Record {
    var n: U64 := if VersionOf(env, k) == Some(Version(0, 0)) then 1 else 0;
    Record(n, 0, n, [], false, Some(Minimal(word)))
  }

  lemma AlteredElsewhere(env: Env, k: StateKey, word: Word)
    ensures var env2 := Altered(env, k, Other(env, k, word));
            && env2.monotonic == env.monotonic
            && VersionOf(env2, k) != VersionOf(env, k) && VersionFixesValue(env, env2)
            && forall x :: x != k ==> VersionOf(env, x) == VersionOf(env2, x) && ValueOf(env, x) == ValueOf(env2, x)
  {
    var env2 := Altered(env, k, Other(env, k, word));
    assert VersionOf(env2, k) == Some(Version(Other(env, k, word).version, 0));
  }

  /* ---- what a read entry carries ---- */

  /** Every read journalled between these states has the version the store reports. */
  ghost predicate Carries(env: Env, s: seq<Entry>, t: seq<Entry>) {
    s <= t && forall i :: |s| <= i < |t| && t[i].ReadEntry? ==> t[i].read.version == VersionOf(env, t[i].read.key)
  }

  lemma GetCarries(env: Env, s: seq<Entry>, st: State, k: StateKey)
    requires Carries(env, s, st.journal)
    ensures Carries(env, s, Get(env, st, k).0.journal)
  {
  }

  lemma PutCarries(env: Env, s: seq<Entry>, st: State, k: StateKey, value: Bytes)
    requires Carries(env, s, st.journal)
    ensures Carries(env, s, Put(st, k, value).journal)
  {
  }

  lemma PushCarries(env: Env, s: seq<Entry>, st: State, e: Entry)
    requires Carries(env, s, st.journal) && !e.ReadEntry?
    ensures Carries(env, s, Push(st, e).journal)
  {
  }

  lemma ThreeCarry(env: Env, st: State, a: Address)
    ensures Carries(env, st.journal, DoExist(env, st, a).0.journal)
    ensures Carries(env, st.journal, DoEmpty(env, st, a).0.journal)
  {
    var st1 := Get(env, st, BalanceKey(a)).0;
    GetCarries(env, st.journal, st, BalanceKey(a));
    var st2 := Get(env, st1, NonceKey(a)).0;
    GetCarries(env, st.journal, st1, NonceKey(a));
    GetCarries(env, st.journal, st2, CodeKey(a));
  }

  lemma BalanceCarries(env: Env, st: State, a: Address, change: Word -> Word, amount: Word)
    ensures Carries(env, st.journal, ChangeBalance(env, st, a, change, amount).0.journal)
  {
    if amount != 0 {
      var (st1, v) := Get(env, st, BalanceKey(a));
      GetCarries(env, st.journal, st, BalanceKey(a));
      PutCarries(env, st.journal, st1, BalanceKey(a), Minimal(change(ToWord(Raw(v)))));
    }
  }

  lemma ReadCarries(env: Env, st: State, op: Op)
    requires OneRead(op)
    ensures Carries(env, st.journal, Step(env, st, op).0.journal)
  {
    match op
    case GetBalance(a) => GetCarries(env, st.journal, st, BalanceKey(a));
    case GetNonce(a) => GetCarries(env, st.journal, st, NonceKey(a));
    case GetCode(a) => GetCarries(env, st.journal, st, CodeKey(a));
    case GetState(a, slot) => GetCarries(env, st.journal, st, StorageKey(a, slot));
    case GetStateAndCommitted(a, slot) =>
  }

  lemma KeyStepCarries(env: Env, st: State, op: Op)
    requires OnKeys(op)
    ensures Carries(env, st.journal, Step(env, st, op).0.journal)
  {
    if OneRead(op) {
      ReadCarries(env, st, op);
    } else if op.SetCode? {
      GetCarries(env, st.journal, st, CodeKey(op.a));
      PutCarries(env, st.journal, Get(env, st, CodeKey(op.a)).0, CodeKey(op.a), op.code);
    } else if op.AddBalance? {
      BalanceCarries(env, st, op.a, prev => (prev + op.amount) % TWO_256, op.amount);
    } else if op.SubBalance? {
      BalanceCarries(env, st, op.a, prev => (prev - op.amount) % TWO_256, op.amount);
    } else if op.Exist? || op.Empty? {
      ThreeCarry(env, st, op.a);
    }
  }

  lemma CreateCarries(env: Env, st: State, a: Address)
    ensures Carries(env, st.journal, Step(env, st, CreateAccount(a)).0.journal)
  {
    PutCarries(env, st.journal, st, BalanceKey(a), []);
    PutCarries(env, st.journal, Put(st, BalanceKey(a), []), NonceKey(a), Fixed(0, 8));
  }

  lemma DestructCarries(env: Env, st: State, a: Address)
    ensures Carries(env, st.journal, DoSelfDestruct(env, st, a).journal)
  {
    var st1 := Get(env, st, BalanceKey(a)).0;
    GetCarries(env, st.journal, st, BalanceKey(a));
    PutCarries(env, st.journal, st1, BalanceKey(a), []);
    PushCarries(env, st.journal, st1, SelfDestructEntry(a));
    PushCarries(env, st.journal, Put(st1, BalanceKey(a), []), SelfDestructEntry(a));
  }

  lemma StepCarries(env: Env, st: State, op: Op)
    ensures Carries(env, st.journal, Step(env, st, op).0.journal)
  {
    if OnKeys(op) {
      KeyStepCarries(env, st, op);
    } else if op.CreateAccount? {
      CreateCarries(env, st, op.a);
    } else if op.SelfDestruct? {
      DestructCarries(env, st, op.a);
    }
  }

  /** A command that read k from the store tells apart two stores with different versions of k. */
  lemma TouchTells(env1: Env, env2: Env, t: Trace, c: Command, k: StateKey)
    requires InRange(t.db) && k in Touched(env1, t.db.cur, c) && VersionOf(env1, k) != VersionOf(env2, k)
    ensures Next(env1, t, c) != Next(env2, t, c)
  {
    var st := t.db.cur;
    StepGrows(env1, st, c.op);
    var s, j := st.journal, Step(env1, st, c.op).0.journal;
    var e :| e in j[|s|..] && e.ReadEntry? && e.read.key == k;
    var i :| |s| <= i < |j| && j[i] == e;
    StepCarries(env1, st, c.op);
    StepCarries(env2, st, c.op);
    assert j[i].read.version == VersionOf(env1, k);
  }

  /* ---- exactly when the reported reads fix the run ---- */

  /** The keys reported as read at the end of a run. */
  ghost function Reported(ts: seq<Trace>): set<StateKey>
    requires ts != []
  {
    Reads(Last(ts).db.cur.journal).Keys
  }

  /** A second store of the same kind that reports the same versions for these keys. */
  ghost predicate Rival(env: Env, env2: Env, keys: set<StateKey>) {
    env2.monotonic == env.monotonic && VersionFixesValue(env, env2) && SameVersions(env, env2, keys)
  }

  /** In every store with the reported versions the client goes through the same states with the same answers. */
  ghost predicate FixedByReads(env: Env, client: Client, ts: seq<Trace>)
    requires ts != []
  {
    forall env2: Env, ts2: seq<Trace> ::
      Rival(env, env2, Reported(ts)) && Plays(env2, client, ts2) && |ts2| == |ts| ==> ts2 == ts
  }

  /** The client's next command reads k from the store. */
  ghost predicate Touches(env: Env, client: Client, t: Trace, k: StateKey) {
    InRange(t.db) && k in Touched(env, t.db.cur, client(t.shown))
  }

  /** Whatever is touched after a step was touched before or by the step. */
  ghost predicate TouchedBetween(env: Env, client: Client, t: Trace, t': Trace) {
    forall k :: k in t'.touched ==> k in t.touched || Touches(env, client, t, k)
  }

  lemma NewlyTouched(env: Env, client: Client, t: Trace, t': Trace)
    requires Follows(env, client, t, t')
    ensures TouchedBetween(env, client, t, t')
  {
  }

  lemma {:induction false} TouchedSince(env: Env, client: Client, ts: seq<Trace>, i: nat, k: StateKey) returns (j: nat)
    requires i < |ts| && k in ts[i].touched && ts[0].touched == {}
    requires forall j :: 0 <= j < |ts| - 1 ==> TouchedBetween(env, client, ts[j], ts[j + 1])
    ensures j < i && Touches(env, client, ts[j], k)
  {
    j := i - 1;
    assert TouchedBetween(env, client, ts[j], ts[j + 1]);
    if k in ts[j].touched {
      j := TouchedSince(env, client, ts, j, k);
    }
  }

  /** The step at which a key was touched. */
  lemma {:induction false} TouchedAt(env: Env, client: Client, ts: seq<Trace>, k: StateKey) returns (j: nat)
    requires Plays(env, client, ts) && k in Last(ts).touched
    ensures j < |ts| - 1 && Touches(env, client, ts[j], k)
  {
    forall i | 0 <= i < |ts| - 1
      ensures TouchedBetween(env, client, ts[i], ts[i + 1])
    {
      NewlyTouched(env, client, ts[i], ts[i + 1]);
    }
    j := TouchedSince(env, client, ts, |ts| - 1, k);
  }

  /** A key read and not reported: some store with the reported versions gives another run. */
  lemma {:induction false} UnreportedTells(env: Env, client: Client, ts: seq<Trace>, k: StateKey)
    requires Plays(env, client, ts) && k in Last(ts).touched && k !in Reported(ts)
    ensures !FixedByReads(env, client, ts)
  {
    var env2 := Altered(env, k, Other(env, k, 0));
    AlteredElsewhere(env, k, 0);
    assert Rival(env, env2, Reported(ts));
    var ts2 := PlayExists(env2, client, |ts| - 1);
    var j := TouchedAt(env, client, ts, k);
    TouchTells(env, env2, ts[j], client(ts[j].shown), k);
    assert Follows(env, client, ts[j], ts[j + 1]) && Follows(env2, client, ts2[j], ts2[j + 1]);
    assert ts2 != ts;
  }

  /** Reverts included: the reported reads fix the states and answers of the run if and only if every key ever read
      from the store is reported at the end. */
  lemma {:induction false} FixedByReadsIff(env: Env, client: Client, ts: seq<Trace>)
    requires Plays(env, client, ts)
    ensures FixedByReads(env, client, ts) <==> Last(ts).touched <= Reported(ts)
  {
    if Last(ts).touched <= Reported(ts) {
      forall env2: Env, ts2: seq<Trace> | Rival(env, env2, Reported(ts)) && Plays(env2, client, ts2) && |ts2| == |ts|
        ensures ts2 == ts
      {
        SameVersionsPart(env, env2, Reported(ts), Last(ts).touched);
        forall i | 0 <= i < |ts|
          ensures ts2[i] == ts[i]
        {
          RunDetermined(env, env2, client, ts, ts2, i);
        }
      }
    } else {
      var k :| k in Last(ts).touched && k !in Reported(ts);
      UnreportedTells(env, client, ts, k);
    }
  }

  /* ---- answers that are not fixed ---- */

  /** An operation that answers with what it reads answers differently where the store holds another word. */
  lemma {:induction false} ReadTells(env: Env, st: State, op: Op, k: StateKey) returns (word: Word)
    requires OneRead(op) && st.journal <= Step(env, st, op).0.journal && k in Since(st, Step(env, st, op).0)
    ensures Step(Altered(env, k, Other(env, k, word)), st, op).1 != Step(env, st, op).1
  {
    ReadsOwnKey(env, st, op, k);
    word := 0;
    if Step(Altered(env, k, Other(env, k, 0)), st, op).1 == Step(env, st, op).1 {
      word := 1;
    }
    WordRoundTrip(0);
    WordRoundTrip(1);
    ShowsWord(Altered(env, k, Other(env, k, 0)), st, op, 0);
    ShowsWord(Altered(env, k, Other(env, k, 1)), st, op, 1);
  }

  /** The key such an operation reads. */
  function KeyOf(op: Op): StateKey
    requires OneRead(op)
  {
    match op
    case GetBalance(a) => BalanceKey(a)
    case GetNonce(a) => NonceKey(a)
    case GetCode(a) => CodeKey(a)
    case GetState(a, slot) => StorageKey(a, slot)
    case GetStateAndCommitted(a, slot) => StorageKey(a, slot)
  }

  lemma {:induction false} ReadsOwnKey(env: Env, st: State, op: Op, k: StateKey)
    requires OneRead(op) && st.journal <= Step(env, st, op).0.journal && k in Since(st, Step(env, st, op).0)
    ensures k == KeyOf(op) && (op.GetStateAndCommitted? || LastWrite(st.journal, k) == None)
  {
    var s, j := st.journal, Step(env, st, op).0.journal;
    assert j == s || j == s + [ReadEntry(Read(KeyOf(op), VersionOf(env, KeyOf(op))))];
  }

  /** The answer where the store holds this word. */
  lemma {:induction false} ShowsWord(env: Env, st: State, op: Op, word: Word)
    requires OneRead(op) && (op.GetStateAndCommitted? || LastWrite(st.journal, KeyOf(op)) == None)
    requires ValueOf(env, KeyOf(op)) == Some(Minimal(word)) && word <= 1
    ensures var obs := Step(env, st, op).1;
            match op
            case GetNonce(_) => obs == if word == 0 then Number(0) else Panic
            case GetCode(_) => obs == Content(Some(Minimal(word)))
            case GetStateAndCommitted(_, _) => obs.Both? && obs.committed == word
            case _ => obs == Number(word)
  {
    WordRoundTrip(word);
    assert Minimal(1) == [1];
  }

  lemma {:induction false} ShownGrows(env: Env, client: Client, ts: seq<Trace>, i: nat)
    requires Plays(env, client, ts) && i < |ts|
    ensures ts[i].shown <= Last(ts).shown
    decreases |ts| - i
  {
    if i < |ts| - 1 {
      assert Follows(env, client, ts[i], ts[i + 1]);
      ShownGrows(env, client, ts, i + 1);
    }
  }

  lemma {:induction false} SamePrefix(env: Env, env2: Env, client: Client, ts: seq<Trace>, ts2: seq<Trace>, j: nat)
    requires Plays(env, client, ts) && Plays(env2, client, ts2) && j < |ts| == |ts2|
    requires Agree(env, env2, ts[j].touched)
    ensures ts2[j] == ts[j]
  {
    var s, s2 := ts[..j + 1], ts2[..j + 1];
    forall i | 0 <= i < |s| - 1
      ensures Follows(env, client, s[i], s[i + 1]) && Follows(env2, client, s2[i], s2[i + 1])
    {
      assert Follows(env, client, ts[i], ts[i + 1]) && Follows(env2, client, ts2[i], ts2[i + 1]);
    }
    RunAgrees(env, env2, client, s, s2, j);
  }

  /** A key that is not reported in the end and was first read by an operation that answers with it: some store with
      the reported versions gives another answer. */
  lemma {:induction false} UnreportedAnswerVaries(env: Env, client: Client, ts: seq<Trace>, j: nat, k: StateKey)
    returns (env2: Env, ts2: seq<Trace>)
    requires Plays(env, client, ts) && j < |ts| - 1 && k !in Reported(ts)
    requires Touches(env, client, ts[j], k) && k !in ts[j].touched
    requires client(ts[j].shown).Do? && OneRead(client(ts[j].shown).op)
    ensures Rival(env, env2, Reported(ts)) && Plays(env2, client, ts2) && |ts2| == |ts|
    ensures Last(ts2).shown != Last(ts).shown
  {
    var op, st := client(ts[j].shown).op, ts[j].db.cur;
    StepGrows(env, st, op);
    var word := ReadTells(env, st, op, k);
    env2 := Altered(env, k, Other(env, k, word));
    AlteredElsewhere(env, k, word);
    ts2 := PlayExists(env2, client, |ts| - 1);
    SamePrefix(env, env2, client, ts, ts2, j);
    assert Follows(env, client, ts[j], ts[j + 1]) && Follows(env2, client, ts2[j], ts2[j + 1]);
    var n := |ts[j].shown|;
    assert ts[j + 1].shown[n] == Step(env, st, op).1 && ts2[j + 1].shown[n] == Step(env2, st, op).1;
    ShownGrows(env, client, ts, j + 1);
    ShownGrows(env2, client, ts2, j + 1);
    assert Last(ts).shown[n] == ts[j + 1].shown[n] && Last(ts2).shown[n] == ts2[j + 1].shown[n];
  }

  /* ---- reverts ---- */

  /** What a revert would drop from the report. */
  ghost predicate DropsNoRead(db: Db, id: nat)
    requires InRange(db)
  {
    var i := Find(db.revisions, id);
    i < |db.revisions| ==>
      var n := db.revisions[i].journalIndex;
      db.revisions[i] in db.revisions && ReadKeys(db.cur.journal[n..]) <= ReadKeys(db.cur.journal[..n])
  }

  /** Everything read so far is in the journal. */
  ghost predicate AllReported(t: Trace) {
    t.touched == ReadKeys(t.db.cur.journal)
  }

  lemma RevertDrops(db: Db, id: nat)
    requires InRange(db)
    ensures ReadKeys(RevertToSnapshot(db, id).cur.journal) == ReadKeys(db.cur.journal) <==> DropsNoRead(db, id)
  {
    var i := Find(db.revisions, id);
    if i < |db.revisions| {
      assert db.revisions[i] in db.revisions;
      var j, n := db.cur.journal, db.revisions[i].journalIndex;
      SplitJournal(j[..n], j);
      assert j[|j[..n]|..] == j[n..];
    }
  }

  /** A command keeps every read reported unless it is a revert, and a revert does if and only if every key read
      since the snapshot was read before it too. */
  lemma NextReportsIff(env: Env, t: Trace, c: Command)
    requires InRange(t.db) && AllReported(t)
    ensures AllReported(Next(env, t, c)) <==> (c.Revert? ==> DropsNoRead(t.db, c.id))
  {
    if c.Revert? {
      RevertDrops(t.db, c.id);
    } else {
      NextReports(env, t, c);
    }
  }

  /* ---- a read that is reverted ---- */

  const Absent: Env := Env(_ => None, true)

  /** The account has a balance of b. */
  function Funded(a: Address, b: Word): Env {
    Env(k => if k == BalanceKey(a) then Some(Record(1, 0, 0, [], false, Some(Minimal(b)))) else None, true)
  }

  /** Takes a snapshot, reads a balance, reverts. */
  function Peek(a: Address): Client {
    shown => if |shown| == 0 then Snapshot else if |shown| == 1 then Do(GetBalance(a)) else Revert(0)
  }

  lemma PeekSnapshot(env: Env, a: Address, t': Trace)
    requires Follows(env, Peek(a), Trace(NewDb, [], {}), t')
    ensures t'.db == Db(EmptyState, [Revision(0, 0, 0)], 1) && |t'.shown| == 1
  {
  }

  lemma PeekRead(env: Env, a: Address, t: Trace, t': Trace)
    requires Follows(env, Peek(a), t, t') && t.db == Db(EmptyState, [Revision(0, 0, 0)], 1) && |t.shown| == 1
    ensures t'.db.revisions == [Revision(0, 0, 0)] && |t'.shown| == 2
    ensures t'.shown[1] == Number(ToWord(Raw(ValueOf(env, BalanceKey(a)))))
  {
    assert LastWrite([], BalanceKey(a)) == None;
    assert Run1(env, t.db, Do(GetBalance(a))).0.revisions == t.db.revisions;
  }

  lemma PeekRevert(env: Env, a: Address, t: Trace, t': Trace)
    requires Follows(env, Peek(a), t, t') && t.db.revisions == [Revision(0, 0, 0)] && |t.shown| == 2
    ensures t'.db.cur.journal == [] && |t'.shown| == 3 && t'.shown[1] == t.shown[1]
  {
    assert Find(t.db.revisions, 0) == 0;
  }

  lemma PeekShows(env: Env, a: Address, ts: seq<Trace>)
    requires Plays(env, Peek(a), ts) && |ts| == 4
    ensures Last(ts).db.cur.journal == [] && |Last(ts).shown| == 3
    ensures Last(ts).shown[1] == Number(ToWord(Raw(ValueOf(env, BalanceKey(a)))))
  {
    assert Follows(env, Peek(a), ts[0], ts[0 + 1]);
    PeekSnapshot(env, a, ts[1]);
    assert Follows(env, Peek(a), ts[1], ts[1 + 1]);
    PeekRead(env, a, ts[1], ts[2]);
    assert Follows(env, Peek(a), ts[2], ts[2 + 1]);
    PeekRevert(env, a, ts[2], ts[3]);
  }

  /** A read inside a reverted snapshot is not reported, yet the client saw its value: the two stores below give
      the same (empty) read set and different answers. */
  lemma RevertedReadIsUnreported(a: Address, b: Word, ts1: seq<Trace>, ts2: seq<Trace>)
    requires b != 0 && |ts1| == |ts2| == 4
    requires Plays(Absent, Peek(a), ts1) && Plays(Funded(a, b), Peek(a), ts2)
    ensures Reads(Last(ts1).db.cur.journal) == map[] && Reads(Last(ts2).db.cur.journal) == map[]
    ensures Last(ts1).shown != Last(ts2).shown
  {
    PeekShows(Absent, a, ts1);
    PeekShows(Funded(a, b), a, ts2);
    WordRoundTrip(b);
    assert ValueOf(Funded(a, b), BalanceKey(a)) == Some(Minimal(b)) && ValueOf(Absent, BalanceKey(a)) == None;
    assert ToWord([]) == 0;
  }

  /* ---- what SetState returns ---- */

  /** The previous value SetState returns is the same in every store agreeing with this one on the keys read. */
  ghost predicate ReturnFixed(env: Env, st: State, k: StateKey, read: set<StateKey>) {
    forall env2: Env ::
      Agree(env, env2, read) && VersionFixesValue(env, env2) ==> PrevWord(env, st, k) == PrevWord(env2, st, k)
  }

  lemma {:induction false} UnreadReturnVaries(env: Env, st: State, k: StateKey, read: set<StateKey>)
    requires LastWrite(st.journal, k) == None && k !in read
    ensures !ReturnFixed(env, st, k, read)
  {
    var word: Word := if PrevWord(env, st, k) == 0 then 1 else 0;
    var env2 := Altered(env, k, Other(env, k, word));
    WordRoundTrip(word);
    AlteredElsewhere(env, k, word);
    assert Agree(env, env2, read);
    assert PrevWord(env2, st, k) == word;
  }

  /** What SetState returns is fixed by the read set exactly when the slot was written or read before, whichever
      way versions are reported. */
  lemma {:induction false} SetStateReturnFixedIff(env: Env, st: State, k: StateKey, read: set<StateKey>)
    ensures ReturnFixed(env, st, k, read) <==> LastWrite(st.journal, k).Some? || k in read
  {
    if LastWrite(st.journal, k) == None && k !in read {
      UnreadReturnVaries(env, st, k, read);
    } else {
      forall env2: Env | Agree(env, env2, read) && VersionFixesValue(env, env2)
        ensures PrevWord(env, st, k) == PrevWord(env2, st, k)
      {
        if LastWrite(st.journal, k) == None {
          assert VersionOf(env, k) == VersionOf(env2, k);
        }
      }
    }
  }
}
