/** Accounts from one transaction to the next: what one leaves is what the next one starts from. */
module PlainChain {
  import opened Prelude
  import opened Records
  import opened WorldLog
  import opened StateModel
  import opened StateUndo
  import opened PlainState
  import opened PlainRuns
  import opened RoundTrip

  /** The accounts alone, nothing done to them yet. */
  function Settled(w: World): World {
    World(w.balance, w.nonce, w.code, w.storage, (_, _) => 0, 0, [], {}, {}, {}, {}, {}, {})
  }

  const Nobody := World(_ => 0, _ => None, _ => [], (_, _) => 0, (_, _) => 0, 0, [], {}, {}, {}, {}, {}, {})

  /** A store without records holds accounts without anything. */
  lemma NobodyStored(env: Env)
    requires forall k :: env.store(k) == None
    ensures Stores(env, Nobody)
  {
    forall k
      ensures StoresKey(env, Nobody, k)
    {
      assert env.store(k) == None;
    }
  }

  /** A record the commit left untouched, or one of its own: a deleted one carries no value. */
  lemma {:induction false} DeletedIsNil(env: Env, env': Env, nm: Naming, log: seq<Update>, log': seq<Update>,
                                        base: World, journal: seq<Entry>, ws: seq<Write>, k: StateKey)
    requires ReadsLog(env, nm, log) && ReadsLog(env', nm, log') && Committed(log, log', nm, ws)
    requires Stores(env, base) && CleanDeletes(journal) && Lists(ws, Writes(journal))
    ensures env'.store(k).Some? && env'.store(k).value.isDelete ==> ValueOf(env', k) == None
  {
    assert StoresKey(env, base, k);
    assert env.store(k) == Latest(log, Place(nm, k)) && env'.store(k) == Latest(log', Place(nm, k));
    WritesLast(journal, k);
    if k in Writes(journal) {
      var w := Writes(journal)[k];
      assert w in ws;
      var i :| 0 <= i < |ws| && ws[i] == w;
      assert Holds(env'.store(k), ws[i]);
      LastClean(journal, k);
    } else {
      assert forall i :: 0 <= i < |ws| ==> ws[i].key != k;
    }
  }

  lemma StartsKey(env: Env, env': Env, journal: seq<Entry>, w: World, k: StateKey)
    requires ShowsKey(env, journal, w, k) && ValueNow(env', [], k) == ValueNow(env, journal, k)
    requires env'.store(k).Some? && env'.store(k).value.isDelete ==> ValueOf(env', k) == None
    ensures StoresKey(env', Settled(w), k)
  {
  }

  /** Commit the write set of any run, in any order, as a block: the store then holds the accounts the run ended with,
      so the next transaction starts from those. */
  lemma {:induction false} NextStarts(env: Env, env': Env, nm: Naming, log: seq<Update>, base: World, cs: seq<Command>,
                                      db: Db, out: seq<Obs>, ws: seq<Write>, number: U64, tx: U64, id: Bytes)
    requires Stores(env, base) && ReadsLog(env, nm, log) && Runs(env, NewDb, cs, db, out)
    requires Lists(ws, Writes(db.cur.journal))
    requires ReadsLog(env', nm, log + BlockUpdates(CommitOf(number, tx, id, nm, ws)))
    ensures Stores(env', Settled(PlainRun(base, cs).cur))
  {
    var w, journal := PlainRun(base, cs).cur, db.cur.journal;
    RunClean(env, NewDb, cs, db, out);
    RunShows(env, base, cs, db, out);
    CommitUpdates(number, tx, id, nm, ws);
    AllCommitted(log, number, tx, id, nm, ws);
    forall k
      ensures StoresKey(env', Settled(w), k)
    {
      assert ShowsKey(env, journal, w, k);
      assert ValueNow(env', [], k) == ValueNow(env, journal, k) by {
        ValueCarries(env, env', nm, log, journal, ws, number, tx, id, k);
      }
      DeletedIsNil(env, env', nm, log, log + UpdatesOf(number, tx, id, nm, ws), base, journal, ws, k);
      StartsKey(env, env', journal, w, k);
    }
  }
}
