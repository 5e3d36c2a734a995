/** The read set is sound: a run is determined by the versions of the keys it read from the store. */
module ReadSet {
  import opened Prelude
  import opened Words
  import opened StateModel
  import opened StateUndo

  // A client is a program that picks its next command from the answers so far. What SetState returns is not shown to
  // it, because SetState looks at the store without leaving a read dependency.

  /** The keys of the read entries among these. */
  ghost function ReadKeys(entries: seq<Entry>): set<StateKey> {
    set e | e in entries && e.ReadEntry? :: e.read.key
  }

  /** The keys read from the store between two states of a transaction. */
  ghost function Since(st: State, st': State): set<StateKey>
    requires st.journal <= st'.journal
  {
    ReadKeys(st'.journal[|st.journal|..])
  }

  /** Both stores report the same version and the same value for these keys. */
  ghost predicate Agree(env1: Env, env2: Env, keys: set<StateKey>) {
    && env1.monotonic == env2.monotonic
    && forall k :: k in keys ==> VersionOf(env1, k) == VersionOf(env2, k) && ValueOf(env1, k) == ValueOf(env2, k)
  }

  lemma SinceShrinks(st: State, st1: State, st': State)
    requires st.journal <= st1.journal <= st'.journal
    ensures Since(st1, st') <= Since(st, st')
  {
    var n, m := |st.journal|, |st1.journal|;
    forall k | k in Since(st1, st')
      ensures k in Since(st, st')
    {
      var e :| e in st'.journal[m..] && e.ReadEntry? && e.read.key == k;
      var i :| m <= i < |st'.journal| && st'.journal[i] == e;
      assert st'.journal[n..][i - n] == e;
    }
  }

  lemma TouchedFirst(st: State, e: Entry, st': State)
    requires e.ReadEntry? && st.journal + [e] <= st'.journal
    ensures st.journal <= st'.journal && e.read.key in Since(st, st')
  {
    assert st'.journal[|st.journal|] == (st.journal + [e])[|st.journal|] == e;
    assert st'.journal[|st.journal|..][0] == e;
  }

  /** A read whose outcome the later journal depends on gives the same in both stores. */
  lemma GetSame(env1: Env, env2: Env, st: State, k: StateKey, st': State)
    requires Get(env1, st, k).0.journal <= st'.journal && st.journal <= st'.journal && Agree(env1, env2, Since(st, st'))
    ensures Get(env1, st, k) == Get(env2, st, k)
  {
    if LastWrite(st.journal, k) == None {
      TouchedFirst(st, ReadEntry(Read(k, VersionOf(env1, k))), st');
    }
  }

  lemma GetGrows(env: Env, st: State, k: StateKey)
    ensures st.journal <= Get(env, st, k).0.journal
  {
  }

  lemma BalanceSame(env1: Env, env2: Env, st: State, a: Address, change: Word -> Word, amount: Word)
    requires st.journal <= ChangeBalance(env1, st, a, change, amount).0.journal
    requires Agree(env1, env2, Since(st, ChangeBalance(env1, st, a, change, amount).0))
    ensures ChangeBalance(env1, st, a, change, amount) == ChangeBalance(env2, st, a, change, amount)
  {
    if amount != 0 {
      GetSame(env1, env2, st, BalanceKey(a), ChangeBalance(env1, st, a, change, amount).0);
    }
  }

  lemma SelfDestructSame(env1: Env, env2: Env, st: State, a: Address)
    requires st.journal <= DoSelfDestruct(env1, st, a).journal
    requires Agree(env1, env2, Since(st, DoSelfDestruct(env1, st, a)))
    ensures DoSelfDestruct(env1, st, a) == DoSelfDestruct(env2, st, a)
  {
    GetSame(env1, env2, st, BalanceKey(a), DoSelfDestruct(env1, st, a));
  }

  /** Up to three reads in turn, as many as the journal shows, give the same in both stores. */
  lemma {:induction false} ReadsSame(env1: Env, env2: Env, st: State, a: Address, st': State)
    requires var st1 := Get(env1, st, BalanceKey(a)).0;
             var st2 := Get(env1, st1, NonceKey(a)).0;
             var st3 := Get(env1, st2, CodeKey(a)).0;
             && (st' == st1 || st' == st2 || st' == st3)
             && st.journal <= st1.journal && st1.journal <= st2.journal && st2.journal <= st3.journal
    requires st.journal <= st'.journal && Agree(env1, env2, Since(st, st'))
    ensures var st1 := Get(env1, st, BalanceKey(a)).0;
            var st2 := Get(env1, st1, NonceKey(a)).0;
            var st3 := Get(env1, st2, CodeKey(a)).0;
            && Get(env1, st, BalanceKey(a)) == Get(env2, st, BalanceKey(a))
            && (st2.journal <= st'.journal ==> Get(env1, st1, NonceKey(a)) == Get(env2, st1, NonceKey(a)))
            && (st3.journal <= st'.journal ==> Get(env1, st2, CodeKey(a)) == Get(env2, st2, CodeKey(a)))
  {
    var st1 := Get(env1, st, BalanceKey(a)).0;
    var st2 := Get(env1, st1, NonceKey(a)).0;
    var st3 := Get(env1, st2, CodeKey(a)).0;
    PrefixTrans(st1.journal, st2.journal, st3.journal);
    GetSame(env1, env2, st, BalanceKey(a), st');
    if st2.journal <= st'.journal {
      SinceShrinks(st, st1, st');
      GetSame(env1, env2, st1, NonceKey(a), st');
    }
    if st3.journal <= st'.journal {
      PrefixTrans(st.journal, st1.journal, st2.journal);
      PrefixTrans(st2.journal, st3.journal, st'.journal);
      SinceShrinks(st, st2, st');
      GetSame(env1, env2, st2, CodeKey(a), st');
    }
  }

  /** Each read is made only if the one before did not settle the question. */
  lemma ExistSame(env1: Env, env2: Env, st: State, a: Address, st': State)
    requires st' == DoExist(env1, st, a).0
    requires st.journal <= st'.journal && Agree(env1, env2, Since(st, st'))
    ensures DoExist(env1, st, a) == DoExist(env2, st, a)
  {
    var st1 := Get(env1, st, BalanceKey(a)).0;
    var st2 := Get(env1, st1, NonceKey(a)).0;
    var st3 := Get(env1, st2, CodeKey(a)).0;
    GetGrows(env1, st, BalanceKey(a));
    GetGrows(env1, st1, NonceKey(a));
    GetGrows(env1, st2, CodeKey(a));
    assert st' == st1 || st' == st2 || st' == st3;
    ReadsSame(env1, env2, st, a, st');
  }

  lemma EmptySame(env1: Env, env2: Env, st: State, a: Address, st': State)
    requires st' == DoEmpty(env1, st, a).0
    requires st.journal <= st'.journal && Agree(env1, env2, Since(st, st'))
    ensures DoEmpty(env1, st, a) == DoEmpty(env2, st, a)
  {
    var st1 := Get(env1, st, BalanceKey(a)).0;
    var st2 := Get(env1, st1, NonceKey(a)).0;
    var st3 := Get(env1, st2, CodeKey(a)).0;
    GetGrows(env1, st, BalanceKey(a));
    GetGrows(env1, st1, NonceKey(a));
    GetGrows(env1, st2, CodeKey(a));
    assert st' == st1 || st' == st2 || st' == st3;
    ReadsSame(env1, env2, st, a, st');
  }

  lemma PrefixTrans<T>(a: seq<T>, b: seq<T>, c: seq<T>)
    requires a <= b <= c
    ensures a <= c
  {
  }

  ghost function Shown(c: Command, obs: Obs): Obs {
    if c.Do? && c.op.SetState? then Done else obs
  }

  /** Both stores make the same of an operation, but for what SetState returns. */
  ghost predicate Alike(env1: Env, env2: Env, st: State, op: Op) {
    && Step(env1, st, op).0 == Step(env2, st, op).0
    && (!op.SetState? ==> Step(env1, st, op).1 == Step(env2, st, op).1)
  }

  lemma ReadSame(env1: Env, env2: Env, st: State, op: Op)
    requires OneRead(op)
    requires st.journal <= Step(env1, st, op).0.journal && Agree(env1, env2, Since(st, Step(env1, st, op).0))
    ensures Alike(env1, env2, st, op)
  {
    var st' := Step(env1, st, op).0;
    match op
    case GetBalance(a) => GetSame(env1, env2, st, BalanceKey(a), st');
    case GetNonce(a) => GetSame(env1, env2, st, NonceKey(a), st');
    case GetCode(a) => GetSame(env1, env2, st, CodeKey(a), st');
    case GetState(a, slot) => GetSame(env1, env2, st, StorageKey(a, slot), st');
    case GetStateAndCommitted(a, slot) =>
      TouchedFirst(st, ReadEntry(Read(StorageKey(a, slot), VersionOf(env1, StorageKey(a, slot)))), st');
  }

  lemma KeyStepSame(env1: Env, env2: Env, st: State, op: Op)
    requires OnKeys(op)
    requires st.journal <= Step(env1, st, op).0.journal && Agree(env1, env2, Since(st, Step(env1, st, op).0))
    ensures Alike(env1, env2, st, op)
  {
    if OneRead(op) {
      ReadSame(env1, env2, st, op);
    } else if op.SetCode? {
      GetSame(env1, env2, st, CodeKey(op.a), Step(env1, st, op).0);
    } else if op.AddBalance? {
      BalanceSame(env1, env2, st, op.a, prev => (prev + op.amount) % TWO_256, op.amount);
    } else if op.SubBalance? {
      BalanceSame(env1, env2, st, op.a, prev => (prev - op.amount) % TWO_256, op.amount);
    } else if op.Exist? {
      ExistSame(env1, env2, st, op.a, Step(env1, st, op).0);
    } else if op.Empty? {
      EmptySame(env1, env2, st, op.a, Step(env1, st, op).0);
    }
  }

  /** One operation: if the stores agree on what it read from the first, it does the same in the second. */
  lemma StepSame(env1: Env, env2: Env, st: State, op: Op)
    requires WF(st) && st.journal <= Step(env1, st, op).0.journal && Agree(env1, env2, Since(st, Step(env1, st, op).0))
    ensures Alike(env1, env2, st, op)
  {
    if OnKeys(op) {
      KeyStepSame(env1, env2, st, op);
    } else if op.SelfDestruct? {
      SelfDestructSame(env1, env2, st, op.a);
    }
  }

  /* ---- clients ---- */

  type Client = seq<Obs> -> Command

  /** A run so far: the state, the answers shown, and every key ever read from the store, reverted or not. */
  datatype Trace = Trace(db: Db, shown: seq<Obs>, touched: set<StateKey>)

  ghost function Touched(env: Env, st: State, c: Command): set<StateKey>
    requires WF(st)
  {
    if c.Do? then StepGrows(env, st, c.op); Since(st, Step(env, st, c.op).0) else {}
  }

  /** One more command of a client. */
  ghost function Next(env: Env, t: Trace, c: Command): (t': Trace)
    requires InRange(t.db)
    ensures InRange(t'.db)
  {
    RangeKept(env, t.db, c);
    Trace(Run1(env, t.db, c).0, t.shown + [Shown(c, Run1(env, t.db, c).1)], t.touched + Touched(env, t.db.cur, c))
  }

  ghost predicate Follows(env: Env, client: Client, t: Trace, t': Trace) {
    InRange(t.db) && t' == Next(env, t, client(t.shown))
  }

  /** A run of a client on a new StateDB, one trace after each command. */
  ghost predicate Plays(env: Env, client: Client, ts: seq<Trace>) {
    && ts != [] && ts[0] == Trace(NewDb, [], {})
    && forall i :: 0 <= i < |ts| - 1 ==> Follows(env, client, ts[i], ts[i + 1])
  }

  ghost function Last(ts: seq<Trace>): Trace
    requires ts != []
  {
    ts[|ts| - 1]
  }

  /** Every client can be run for any number of commands in any store. */
  lemma {:induction false} PlayExists(env: Env, client: Client, n: nat) returns (ts: seq<Trace>)
    ensures Plays(env, client, ts) && |ts| == n + 1 && InRange(Last(ts).db)
  {
    if n == 0 {
      ts := [Trace(NewDb, [], {})];
    } else {
      var before := PlayExists(env, client, n - 1);
      var t := Last(before);
      ts := before + [Next(env, t, client(t.shown))];
    }
  }

  /** In these two stores a version fixes the value it stands for. */
  ghost predicate VersionFixesValue(env1: Env, env2: Env) {
    forall k :: VersionOf(env1, k) == VersionOf(env2, k) ==> ValueOf(env1, k) == ValueOf(env2, k)
  }

  ghost predicate SameVersions(env1: Env, env2: Env, keys: set<StateKey>) {
    forall k :: k in keys ==> VersionOf(env1, k) == VersionOf(env2, k)
  }

  lemma SameVersionsAgree(env1: Env, env2: Env, keys: set<StateKey>)
    requires env1.monotonic == env2.monotonic && VersionFixesValue(env1, env2) && SameVersions(env1, env2, keys)
    ensures Agree(env1, env2, keys)
  {
  }

  lemma SameVersionsPart(env1: Env, env2: Env, keys: set<StateKey>, part: set<StateKey>)
    requires SameVersions(env1, env2, keys) && part <= keys
    ensures SameVersions(env1, env2, part)
  {
  }

  lemma CommandSame(env1: Env, env2: Env, t: Trace, c: Command)
    requires InRange(t.db) && Agree(env1, env2, Touched(env1, t.db.cur, c))
    ensures Next(env1, t, c) == Next(env2, t, c)
  {
    if c.Do? {
      StepGrows(env1, t.db.cur, c.op);
      StepSame(env1, env2, t.db.cur, c.op);
    }
  }

  lemma NextTouches(env: Env, t: Trace, c: Command)
    requires InRange(t.db)
    ensures t.touched <= Next(env, t, c).touched && Touched(env, t.db.cur, c) <= Next(env, t, c).touched
  {
  }

  lemma NextSame(env1: Env, env2: Env, t: Trace, c: Command)
    requires InRange(t.db) && Agree(env1, env2, Next(env1, t, c).touched)
    ensures Next(env1, t, c) == Next(env2, t, c)
  {
    NextTouches(env1, t, c);
    CommandSame(env1, env2, t, c);
  }

  /** Later traces have touched at least as much. */
  lemma {:induction false} TouchedGrows(env: Env, client: Client, ts: seq<Trace>, i: nat)
    requires Plays(env, client, ts) && i < |ts|
    ensures ts[i].touched <= Last(ts).touched
    decreases |ts| - i
  {
    if i < |ts| - 1 {
      assert Follows(env, client, ts[i], ts[i + 1]);
      NextTouches(env, ts[i], client(ts[i].shown));
      TouchedGrows(env, client, ts, i + 1);
    }
  }

  /** Reverts included: if the second store holds the same under every key the run ever read from the first, the
      whole run is the same in it. */
  lemma {:induction false} RunAgrees(env1: Env, env2: Env, client: Client, ts1: seq<Trace>, ts2: seq<Trace>, i: nat)
    requires Plays(env1, client, ts1) && Plays(env2, client, ts2) && |ts1| == |ts2| && i < |ts1|
    requires Agree(env1, env2, Last(ts1).touched)
    ensures ts1[i] == ts2[i]
  {
    if i > 0 {
      RunAgrees(env1, env2, client, ts1, ts2, i - 1);
      TouchedGrows(env1, client, ts1, i);
      assert Follows(env1, client, ts1[i - 1], ts1[i - 1 + 1]) && Follows(env2, client, ts2[i - 1], ts2[i - 1 + 1]);
      NextSame(env1, env2, ts1[i - 1], client(ts1[i - 1].shown));
    }
  }

  /** In terms of versions. */
  lemma {:induction false} RunDetermined(env1: Env, env2: Env, client: Client, ts1: seq<Trace>, ts2: seq<Trace>, i: nat)
    requires env1.monotonic == env2.monotonic && VersionFixesValue(env1, env2)
    requires Plays(env1, client, ts1) && Plays(env2, client, ts2) && |ts1| == |ts2| && i < |ts1|
    requires SameVersions(env1, env2, Last(ts1).touched)
    ensures ts1[i] == ts2[i]
  {
    SameVersionsAgree(env1, env2, Last(ts1).touched);
    RunAgrees(env1, env2, client, ts1, ts2, i);
  }

  /* ---- the read set reported ---- */

  lemma {:induction false} ReadsAreReadKeys(journal: seq<Entry>)
    ensures Reads(journal).Keys == ReadKeys(journal)
  {
    if journal != [] {
      var n := |journal| - 1;
      Snoc(journal);
      ReadsAreReadKeys(journal[..n]);
      ReadKeysConcat(journal[..n], [journal[n]]);
      if journal[n].ReadEntry? {
        assert ReadKeys([journal[n]]) == {journal[n].read.key} by { assert journal[n] in [journal[n]]; }
      } else {
        assert ReadKeys([journal[n]]) == {};
      }
    }
  }

  lemma ReadKeysConcat(s: seq<Entry>, t: seq<Entry>)
    ensures ReadKeys(s + t) == ReadKeys(s) + ReadKeys(t)
  {
  }

  ghost predicate RevertFree(client: Client, ts: seq<Trace>) {
    forall i :: 0 <= i < |ts| - 1 ==> !client(ts[i].shown).Revert?
  }

  lemma NextReports(env: Env, t: Trace, c: Command)
    requires InRange(t.db) && !c.Revert? && t.touched == ReadKeys(t.db.cur.journal)
    ensures Next(env, t, c).touched == ReadKeys(Next(env, t, c).db.cur.journal)
  {
    if c.Do? {
      StepGrows(env, t.db.cur, c.op);
      SplitJournal(t.db.cur.journal, Step(env, t.db.cur, c.op).0.journal);
    }
  }

  lemma {:induction false} PlayReports(env: Env, client: Client, ts: seq<Trace>, i: nat)
    requires Plays(env, client, ts) && RevertFree(client, ts) && i < |ts|
    ensures ts[i].touched == ReadKeys(ts[i].db.cur.journal)
  {
    if i > 0 {
      PlayReports(env, client, ts, i - 1);
      assert Follows(env, client, ts[i - 1], ts[i - 1 + 1]);
      NextReports(env, ts[i - 1], client(ts[i - 1].shown));
    }
  }

  /** Without reverts, what is reported as read is everything that was read. */
  lemma ReportsAllReads(env: Env, client: Client, ts: seq<Trace>)
    requires Plays(env, client, ts) && RevertFree(client, ts)
    ensures Last(ts).touched == Reads(Last(ts).db.cur.journal).Keys
  {
    PlayReports(env, client, ts, |ts| - 1);
    ReadsAreReadKeys(Last(ts).db.cur.journal);
  }

  lemma SplitJournal(s: seq<Entry>, t: seq<Entry>)
    requires s <= t
    ensures ReadKeys(t) == ReadKeys(s) + ReadKeys(t[|s|..])
  {
    assert t == s + t[|s|..];
    ReadKeysConcat(s, t[|s|..]);
  }

  /** Read-set soundness: for a client that does not revert, any second store reporting the same versions for
      the keys in the read set gives the same answers, the same reads and the same writes. */
  lemma ReadSetSound(env1: Env, env2: Env, client: Client, ts1: seq<Trace>, ts2: seq<Trace>)
    requires env1.monotonic == env2.monotonic && VersionFixesValue(env1, env2)
    requires Plays(env1, client, ts1) && Plays(env2, client, ts2) && |ts1| == |ts2| && RevertFree(client, ts1)
    requires SameVersions(env1, env2, Reads(Last(ts1).db.cur.journal).Keys)
    ensures Last(ts1).shown == Last(ts2).shown
    ensures Reads(Last(ts1).db.cur.journal) == Reads(Last(ts2).db.cur.journal)
    ensures Writes(Last(ts1).db.cur.journal) == Writes(Last(ts2).db.cur.journal)
  {
    ReportsAllReads(env1, client, ts1);
    RunDetermined(env1, env2, client, ts1, ts2, |ts1| - 1);
  }
}
