/** What every revert gives back, over all runs: after inexact reverts and after Prepare inside a snapshot too. */
module UndoRuns {
  import opened Words
  import opened StateModel
  import opened StateUndo

  /** Kept beside a snapshot: the state then, the accounts self-destructed since, in reverted calls too, and whether a
      transaction was prepared since. */
  datatype Note = Note(state: State, again: set<Address>, prepared: bool)

  /** The journalled machine with a note for each of its snapshots. */
  datatype Watched = Watched(db: Db, notes: seq<Note>)

  /** The accounts one operation marks as self-destructed. */
  ghost function Marks(env: Env, st: State, op: Op): set<Address>
    requires WF(st)
  {
    StepGrows(env, st, op);
    Destroyed(Step(env, st, op).0.journal[|st.journal|..])
  }

  ghost function Noted(env: Env, st: State, op: Op, note: Note): Note
    requires WF(st)
  {
    note.(again := note.again + Marks(env, st, op), prepared := note.prepared || op.Prepare?)
  }

  ghost function Watch1(env: Env, w: Watched, c: Command): (w': Watched)
    requires InRange(w.db) && |w.notes| == |w.db.revisions|
    ensures InRange(w'.db) && |w'.notes| == |w'.db.revisions|
  {
    RangeKept(env, w.db, c);
    var db := Run1(env, w.db, c).0;
    match c
    case Do(op) =>
      Watched(db, seq(|w.notes|, i requires 0 <= i < |w.notes| => Noted(env, w.db.cur, op, w.notes[i])))
    case Snapshot => Watched(db, w.notes + [Note(w.db.cur, {}, false)])
    case Revert(id) => Watched(db, w.notes[..|db.revisions|])
  }

  ghost function Watch(env: Env, cs: seq<Command>): (w: Watched)
    ensures InRange(w.db) && |w.notes| == |w.db.revisions|
  {
    if cs == [] then Watched(NewDb, []) else var n := |cs| - 1; Watch1(env, Watch(env, cs[..n]), cs[n])
  }

  /** The state of the note, without the marks of accounts self-destructed again, and with this access list if a
      transaction was prepared. */
  ghost function GivenBack(note: Note, warm: set<Address>, slots: set<(Address, Word)>): State {
    var st := note.state.(destructed := note.state.destructed - note.again);
    if note.prepared then st.(warm := warm, warmSlots := slots) else st
  }

  /** Undoing back to the snapshot gives that. */
  ghost predicate NoteOk(note: Note, r: Revision, cur: State) {
    && r.journalIndex == |note.state.journal| && r.logIndex == |note.state.logs|
    && note.state.journal <= cur.journal && note.state.logs <= cur.logs
    && var st := UndoTo(cur, r.journalIndex);
       st == GivenBack(note, st.warm, st.warmSlots).(logs := cur.logs)
  }

  ghost predicate NotesOk(w: Watched) {
    && |w.notes| == |w.db.revisions|
    && forall i :: 0 <= i < |w.notes| ==> NoteOk(w.notes[i], w.db.revisions[i], w.db.cur)
  }

  /* ---- each command ---- */

  lemma PrepareNote(env: Env, st: State, op: Op, note: Note, r: Revision)
    requires WF(st) && NoteOk(note, r, st) && op.Prepare?
    ensures NoteOk(Noted(env, st, op, note), r, Step(env, st, op).0)
  {
    var st' := DoPrepare(st, op.warm, op.tuples);
    UndoAccess(st, r.journalIndex, st'.warm, st'.warmSlots);
    assert st'.journal[|st.journal|..] == [] && note.again + {} == note.again;
  }

  /** Undoing an operation first and then the rest. */
  lemma {:induction false} UndoAfter(st: State, st': State, n: nat)
    requires Extends(st, st') && n <= |st.journal|
    ensures var was, again := UndoTo(st, n), Destroyed(st'.journal[|st.journal|..]);
            UndoTo(st', n) == was.(logs := st'.logs, destructed := was.destructed - again)
  {
    UndoSplit(st', |st.journal|, n);
    UndoCommutes(st, n, st'.logs, Destroyed(st'.journal[|st.journal|..]));
  }

  lemma DoNote(env: Env, st: State, op: Op, note: Note, r: Revision)
    requires WF(st) && NoteOk(note, r, st) && !op.Prepare?
    ensures NoteOk(Noted(env, st, op, note), r, Step(env, st, op).0)
  {
    var st' := Step(env, st, op).0;
    StepExtends(env, st, op);
    UndoAfter(st, st', r.journalIndex);
    var again := Destroyed(st'.journal[|st.journal|..]);
    assert note.state.destructed - note.again - again == note.state.destructed - (note.again + again);
  }

  /** What is left of a note when a later snapshot is reverted to. */
  lemma {:induction false} RevertNote(cur: State, note: Note, r: Revision, m: nat, logs: seq<Log>)
    requires NoteOk(note, r, cur) && r.journalIndex <= m <= |cur.journal| && note.state.logs <= logs
    ensures NoteOk(note, r, UndoTo(cur, m).(logs := logs))
  {
    var st := UndoTo(cur, m);
    UndoSplit(cur, m, r.journalIndex);
    UndoCommutes(st, r.journalIndex, logs, {});
    assert st.destructed - {} == st.destructed;
    var back := UndoTo(st, r.journalIndex);
    assert back.destructed - {} == back.destructed;
  }

  lemma NewNote(st: State, r: Revision)
    requires r.journalIndex == |st.journal| && r.logIndex == |st.logs|
    ensures NoteOk(Note(st, {}, false), r, st)
  {
    assert st.destructed - {} == st.destructed;
  }

  lemma RevertNotes(w: Watched, id: nat)
    requires InRange(w.db) && NotesOk(w)
    ensures var db := RevertToSnapshot(w.db, id); NotesOk(Watched(db, w.notes[..|db.revisions|]))
  {
    var i := Find(w.db.revisions, id);
    if i < |w.db.revisions| {
      var r := w.db.revisions[i];
      assert r in w.db.revisions;
      forall j | 0 <= j < i
        ensures NoteOk(w.notes[j], w.db.revisions[j], RevertToSnapshot(w.db, id).cur)
      {
        RevertNote(w.db.cur, w.notes[j], w.db.revisions[j], r.journalIndex, w.db.cur.logs[..r.logIndex]);
      }
    } else {
      assert w.notes[..|w.db.revisions|] == w.notes;
    }
  }

  lemma Watch1Ok(env: Env, w: Watched, c: Command)
    requires InRange(w.db) && NotesOk(w)
    ensures NotesOk(Watch1(env, w, c))
  {
    match c
    case Do(op) =>
      forall i | 0 <= i < |w.notes|
        ensures NoteOk(Noted(env, w.db.cur, op, w.notes[i]), w.db.revisions[i], Step(env, w.db.cur, op).0)
      {
        if op.Prepare? {
          PrepareNote(env, w.db.cur, op, w.notes[i], w.db.revisions[i]);
        } else {
          DoNote(env, w.db.cur, op, w.notes[i], w.db.revisions[i]);
        }
      }
    case Snapshot =>
      NewNote(w.db.cur, Revision(w.db.nextId, |w.db.cur.journal|, |w.db.cur.logs|));
    case Revert(id) => RevertNotes(w, id);
  }

  lemma {:induction false} WatchOk(env: Env, cs: seq<Command>)
    ensures NotesOk(Watch(env, cs))
  {
    if cs != [] {
      var n := |cs| - 1;
      WatchOk(env, cs[..n]);
      Watch1Ok(env, Watch(env, cs[..n]), cs[n]);
    }
  }

  /* ---- every revert of every run ---- */

  lemma {:induction false} RevertNoted(w: Watched, id: nat)
    requires InRange(w.db) && NotesOk(w) && Find(w.db.revisions, id) < |w.db.revisions|
    ensures var note, st := w.notes[Find(w.db.revisions, id)], RevertToSnapshot(w.db, id).cur;
            st == GivenBack(note, st.warm, st.warmSlots)
  {
    var i := Find(w.db.revisions, id);
    assert NoteOk(w.notes[i], w.db.revisions[i], w.db.cur);
    assert w.db.cur.logs[..|w.notes[i].state.logs|] == w.notes[i].state.logs;
  }

  /** After any commands at all a revert gives back the state at its snapshot, but for the marks of accounts
      self-destructed again since, in reverted calls too, and for the access list if a transaction was prepared since.
      Without a Prepare since it is exact if and only if no account marked then was self-destructed again. */
  lemma {:induction false} RevertGives(env: Env, cs: seq<Command>, id: nat)
    requires var db := Watch(env, cs).db; Find(db.revisions, id) < |db.revisions|
    ensures var w := Watch(env, cs);
            var note, st := w.notes[Find(w.db.revisions, id)], RevertToSnapshot(w.db, id).cur;
            && st == GivenBack(note, st.warm, st.warmSlots)
            && (!note.prepared ==> (st == note.state <==> note.state.destructed * note.again == {}))
  {
    WatchOk(env, cs);
    var w := Watch(env, cs);
    var note := w.notes[Find(w.db.revisions, id)];
    RevertNoted(w, id);
    DifferenceSame(note.state.destructed, note.again);
  }
}
