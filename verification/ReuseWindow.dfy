/** The reuse window agrees with the whole history of blocks. */
module ReuseWindow {
  import opened Prelude
  import opened DepGraphModel

  /** The number of the last block in h that wrote k, counting from 1; 0 if none did. */
  ghost function Latest(h: seq<set<Key>>, k: Key): (n: nat)
    ensures n <= |h| && (n > 0 ==> k in h[n - 1]) && forall i :: n <= i < |h| ==> k !in h[i]
  {
    if h == [] then 0
    else if k in h[|h| - 1] then |h| else Latest(h[..|h| - 1], k)
  }

  function KeySet(keys: seq<Key>): set<Key> {
    set k | k in keys
  }

  /** lastWrite is the last write of every key written in the last REUSE_WINDOW blocks, and nothing else. */
  ghost predicate LastWriteExact(lastWrite: map<Key, U64>, h: seq<set<Key>>) {
    forall k ::
      && (k in lastWrite <==> Latest(h, k) > 0 && |h| - Latest(h, k) < REUSE_WINDOW)
      && (k in lastWrite ==> lastWrite[k] == Latest(h, k))
  }

  /** Slot j holds the keys of the latest block whose number is j modulo the window. */
  ghost predicate RecentExact(recent: seq<seq<Key>>, h: seq<set<Key>>) {
    && |recent| == REUSE_WINDOW
    && forall i :: 0 < i <= |h| && |h| - i < REUSE_WINDOW ==> KeySet(recent[i % REUSE_WINDOW]) == h[i - 1]
  }

  ghost predicate Exact(w: Window, h: seq<set<Key>>) {
    && w.commitSeq == |h| && LastWriteExact(w.lastWrite, h) && RecentExact(w.recent, h)
    && (forall j :: |h| < j < REUSE_WINDOW ==> w.recent[j] == [])
    && (|h| < REUSE_WINDOW ==> w.recent[0] == [])
  }

  lemma NoBlocksExact()
    ensures Exact(NoBlocks, [])
  {
  }

  lemma {:induction false} MarkAt(m: map<Key, U64>, keys: seq<Key>, now: U64, k: Key)
    ensures k in Mark(m, keys, now) <==> k in m || k in keys
    ensures k in Mark(m, keys, now) ==> Mark(m, keys, now)[k] == if k in keys then now else m[k]
  {
    if keys != [] {
      MarkAt(m, keys[..|keys| - 1], now, k);
      assert keys == keys[..|keys| - 1] + [keys[|keys| - 1]];
    }
  }

  lemma {:induction false} EvictAt(m: map<Key, U64>, keys: seq<Key>, oldest: U64, k: Key)
    requires forall x :: x in m ==> m[x] != 0
    ensures k in Evict(m, keys, oldest) <==> k in m && !(k in keys && m[k] == oldest)
    ensures k in Evict(m, keys, oldest) ==> Evict(m, keys, oldest)[k] == m[k]
  {
    if keys != [] {
      EvictAt(m, keys[..|keys| - 1], oldest, k);
      assert keys == keys[..|keys| - 1] + [keys[|keys| - 1]];
    }
  }

  lemma SlotInjective(i: nat, j: nat)
    requires i < j && j - i < REUSE_WINDOW
    ensures i % REUSE_WINDOW != j % REUSE_WINDOW
  {
  }

  lemma RecordSlots(w: Window, h: seq<set<Key>>, keys: seq<Key>)
    requires Exact(w, h) && w.commitSeq < MAX_U64
    ensures RecentExact(Record(w, keys).recent, h + [KeySet(keys)])
    ensures forall j :: |h| + 1 < j < REUSE_WINDOW ==> Record(w, keys).recent[j] == []
    ensures |h| + 1 < REUSE_WINDOW ==> Record(w, keys).recent[0] == []
  {
    var now := |h| + 1;
    var h' := h + [KeySet(keys)];
    forall i | 0 < i <= now && now - i < REUSE_WINDOW
      ensures KeySet(Record(w, keys).recent[i % REUSE_WINDOW]) == h'[i - 1]
    {
      if i < now {
        SlotInjective(i, now);
        assert h'[i - 1] == h[i - 1];
      }
    }
  }

  /** The slot to be reused holds the keys of the block leaving the window, if there is one. */
  lemma SlotContent(w: Window, h: seq<set<Key>>)
    requires Exact(w, h)
    ensures var now := |h| + 1;
            KeySet(w.recent[now % REUSE_WINDOW]) == if now > REUSE_WINDOW then h[now - REUSE_WINDOW - 1] else {}
  {
    var now := |h| + 1;
    if now > REUSE_WINDOW {
      var i := now - REUSE_WINDOW;
      assert i % REUSE_WINDOW == now % REUSE_WINDOW;
    }
  }

  /** Evicting leaves the last writes within the new window. */
  lemma {:induction false} Evicted(w: Window, h: seq<set<Key>>, k: Key)
    requires Exact(w, h) && w.commitSeq < MAX_U64
    ensures var now := |h| + 1;
            var m := Evict(w.lastWrite, w.recent[now % REUSE_WINDOW], Sub64(now, REUSE_WINDOW));
            && (k in m <==> Latest(h, k) > 0 && now - Latest(h, k) < REUSE_WINDOW)
            && (k in m ==> m[k] == Latest(h, k))
  {
    var now := |h| + 1;
    SlotContent(w, h);
    assert k in KeySet(w.recent[now % REUSE_WINDOW]) <==> k in w.recent[now % REUSE_WINDOW];
    EvictAt(w.lastWrite, w.recent[now % REUSE_WINDOW], Sub64(now, REUSE_WINDOW), k);
  }

  /** Counting a block keeps lastWrite exact. */
  lemma {:induction false} RecordLastWrite(w: Window, h: seq<set<Key>>, keys: seq<Key>, k: Key)
    requires Exact(w, h) && w.commitSeq < MAX_U64
    ensures var m, h' := Record(w, keys).lastWrite, h + [KeySet(keys)];
            && (k in m <==> Latest(h', k) > 0 && |h'| - Latest(h', k) < REUSE_WINDOW)
            && (k in m ==> m[k] == Latest(h', k))
  {
    var now, h' := |h| + 1, h + [KeySet(keys)];
    Append(h, KeySet(keys));
    assert Latest(h', k) == if k in keys then now else Latest(h, k);
    Evicted(w, h, k);
    MarkAt(Evict(w.lastWrite, w.recent[now % REUSE_WINDOW], Sub64(now, REUSE_WINDOW)), keys, now, k);
  }

  lemma RecordExact(w: Window, h: seq<set<Key>>, keys: seq<Key>)
    requires Exact(w, h) && w.commitSeq < MAX_U64
    ensures Exact(Record(w, keys), h + [KeySet(keys)])
  {
    RecordSlots(w, h, keys);
    forall k { RecordLastWrite(w, h, keys, k); }
  }

  lemma KeyCurrent(w: Window, h: seq<set<Key>>, readSeq: U64, k: Key)
    requires Exact(w, h) && readSeq <= |h| && |h| - readSeq < REUSE_WINDOW
    ensures LastWrite(w.lastWrite, k) <= readSeq <==> forall i :: readSeq <= i < |h| ==> k !in h[i]
  {
    assert LastWrite(w.lastWrite, k) <= readSeq <==> Latest(h, k) <= readSeq;
    if Latest(h, k) > readSeq {
      assert k in h[Latest(h, k) - 1];
    }
  }

  /** An endorsement executed at readSeq is current exactly when fewer than REUSE_WINDOW blocks were
      counted since and none of them wrote a key it read. */
  lemma CurrentExact(w: Window, h: seq<set<Key>>, t: Tracked)
    requires Exact(w, h) && t.readSeq <= w.commitSeq
    ensures Current(w, t) <==>
              && |h| - t.readSeq < REUSE_WINDOW
              && forall i, k :: t.readSeq <= i < |h| && k in t.readKeys ==> k !in h[i]
  {
    if |h| - t.readSeq < REUSE_WINDOW {
      forall k { KeyCurrent(w, h, t.readSeq, k); }
      if Current(w, t) {
        forall i, k | t.readSeq <= i < |h| && k in t.readKeys
          ensures k !in h[i]
        {
          assert LastWrite(w.lastWrite, k) <= t.readSeq;
        }
      } else {
        var j :| 0 <= j < |t.readKeys| && LastWrite(w.lastWrite, t.readKeys[j]) > t.readSeq;
        var i :| t.readSeq <= i < |h| && t.readKeys[j] in h[i];
        assert t.readKeys[j] in t.readKeys;
      }
    }
  }
}
