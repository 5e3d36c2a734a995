/** The database as bytes: what a map of byte strings denotes, and its ordered iterator. */
module PebbleDb {
  import opened Prelude
  import opened Words
  import opened Records
  import opened ByteOrder
  import opened KeyCodec
  import opened RecordCodec
  import opened PebbleModel

  type Bytemap = map<Bytes, Bytes>

  function CellBytes(c: Cell): Bytes {
    match c
    case Rec(r) => EncodeRecord(r)
    case Num(n) => Fixed(n, 8)
    case Nothing => []
  }

  function Fetch(raw: Bytemap, b: Bytes): Option<Bytes> {
    if b in raw then Some(raw[b]) else None
  }

  function Encoded(c: Option<Cell>): Option<Bytes> {
    if c == None then None else Some(CellBytes(c.value))
  }

  /** Each kind of key has its kind of value, and records are of a size Go can hold. */
  predicate Typed(x: DbKey, c: Cell) {
    match x
    case DataKey(_) => c.Rec? && |EncodeRecord(c.r)| < TWO_63
    case HistKey(_, _, _) => c.Rec? && |EncodeRecord(c.r)| < TWO_63
    case IndexKey(_, _, _, _) => c.Nothing?
    case _ => c.Num?
  }

  /** Some database key of the store has these bytes. */
  ghost predicate Names(db: Db, b: Bytes) {
    exists x: DbKey :: x in db && KeyBytes(x) == b
  }

  ghost predicate Encodes(raw: Bytemap, db: Db) {
    && (forall x: DbKey :: Fetch(raw, KeyBytes(x)) == Encoded(CellAt(db, x)))
    && (forall b :: b in raw ==> Names(db, b))
    && (forall x: DbKey :: x in db ==> Typed(x, db[x]))
  }

  lemma PutEncodes(raw: Bytemap, db: Db, x: DbKey, c: Cell)
    requires Encodes(raw, db) && Typed(x, c)
    ensures Encodes(raw[KeyBytes(x) := CellBytes(c)], db[x := c])
  {
    var raw', db' := raw[KeyBytes(x) := CellBytes(c)], db[x := c];
    forall y: DbKey
      ensures Fetch(raw', KeyBytes(y)) == Encoded(CellAt(db', y))
    {
      assert Fetch(raw, KeyBytes(y)) == Encoded(CellAt(db, y));
      if KeyBytes(y) == KeyBytes(x) {
        KeyBytesInjective(x, y);
      }
    }
    forall b | b in raw'
      ensures Names(db', b)
    {
      if b == KeyBytes(x) {
        assert x in db';
      } else {
        assert Names(db, b);
        var y: DbKey :| y in db && KeyBytes(y) == b;
        assert y in db';
      }
    }
  }

  lemma DeleteEncodes(raw: Bytemap, db: Db, x: DbKey)
    requires Encodes(raw, db)
    ensures Encodes(raw - {KeyBytes(x)}, db - {x})
  {
    var raw', db' := raw - {KeyBytes(x)}, db - {x};
    forall y: DbKey
      ensures Fetch(raw', KeyBytes(y)) == Encoded(CellAt(db', y))
    {
      assert Fetch(raw, KeyBytes(y)) == Encoded(CellAt(db, y));
      if KeyBytes(y) == KeyBytes(x) {
        KeyBytesInjective(x, y);
      }
    }
    forall b | b in raw'
      ensures Names(db', b)
    {
      assert Names(db, b);
      var y: DbKey :| y in db && KeyBytes(y) == b;
      assert y in db';
    }
  }

  lemma RecordThere(raw: Bytemap, db: Db, x: DbKey)
    requires Encodes(raw, db) && (x.DataKey? || x.HistKey?)
    ensures KeyBytes(x) in raw <==> x in db
    ensures x in db ==> db[x].Rec? && DecodeRecord(raw[KeyBytes(x)]) == Decoded(db[x].r)
    ensures x in db ==> raw[KeyBytes(x)] == EncodeRecord(db[x].r)
  {
    assert Fetch(raw, KeyBytes(x)) == Encoded(CellAt(db, x));
    if x in db {
      assert Typed(x, db[x]);
      RecordInverse(db[x].r);
    }
  }

  lemma NumberThere(raw: Bytemap, db: Db, x: DbKey)
    requires Encodes(raw, db) && (x.MetaBlock? || x.MetaOldest?)
    ensures KeyBytes(x) in raw <==> x in db
    ensures x in db ==> db[x].Num? && DecodeNumber(raw[KeyBytes(x)]) == Some(db[x].n)
  {
    assert Fetch(raw, KeyBytes(x)) == Encoded(CellAt(db, x));
    if x in db {
      assert Typed(x, db[x]);
      NumberInverse(db[x].n);
    }
  }

  /* ---- the iterator ---- */

  predicate InRange(b: Bytes, prefix: Bytes, start: Bytes) {
    prefix <= b && !Less(b, prefix + start)
  }

  /** The keys with this prefix from start on, ascending. */
  ghost predicate IsScan(keys: seq<Bytes>, raw: Bytemap, prefix: Bytes, start: Bytes) {
    && (forall b :: b in keys <==> b in raw && InRange(b, prefix, start))
    && (forall i, j :: 0 <= i < j < |keys| ==> Less(keys[i], keys[j]))
  }

  method LeastOf(s: set<Bytes>) returns (m: Bytes)
    requires s != {}
    ensures m in s && forall b :: b in s && b != m ==> Less(m, b)
  {
    m :| m in s;
    var rest := s - {m};
    while rest != {}
      invariant m in s && rest <= s && m !in rest
      invariant forall b :: b in s && b !in rest && b != m ==> Less(m, b)
      decreases rest
    {
      var b :| b in rest;
      rest := rest - {b};
      if Less(b, m) {
        forall c | c in s && c !in rest && c != b
          ensures Less(b, c)
        {
          if c != m {
            LessTrans(b, m, c);
          }
        }
        m := b;
      } else {
        LessTotal(b, m);
      }
    }
  }

  /** Sees the database as it is when it is created. */
  method NewIterator(raw: Bytemap, prefix: Bytes, start: Bytes) returns (keys: seq<Bytes>)
    ensures IsScan(keys, raw, prefix, start)
  {
    var rest := set b | b in raw && InRange(b, prefix, start);
    ghost var all := rest;
    keys := [];
    while rest != {}
      invariant rest <= all
      invariant forall b :: b in keys <==> b in all && b !in rest
      invariant forall i, j :: 0 <= i < j < |keys| ==> Less(keys[i], keys[j])
      invariant forall b, c :: b in keys && c in rest ==> Less(b, c)
      decreases rest
    {
      var m := LeastOf(rest);
      rest := rest - {m};
      keys := keys + [m];
    }
  }

  /** A history entry of k or of an alias of it that a scan from this height meets. */
  ghost predicate Met(db: Db, k: Key, h: U64, x: DbKey) {
    && x in db && x.HistKey? && (x.k == k || Alias(k, x.k))
    && !Less(KeyBytes(x), HistoryPrefix(k) + Fixed(Complement(h), 8))
  }

  /** The one it meets first. */
  ghost predicate MetFirst(db: Db, k: Key, h: U64, x: DbKey) {
    Met(db, k, h, x) && forall y: DbKey :: Met(db, k, h, y) ==> !Less(KeyBytes(y), KeyBytes(x))
  }

  /** What a scan returns, aliases or not. */
  ghost predicate Found(db: Db, k: Key, h: U64, r: Option<Record>) {
    || (r == None && forall x: DbKey :: !Met(db, k, h, x))
    || exists x: DbKey :: MetFirst(db, k, h, x) && RecordAt(db, x) == r && r.Some?
  }

  lemma MetInScan(raw: Bytemap, db: Db, k: Key, h: U64, keys: seq<Bytes>, x: DbKey)
    requires Encodes(raw, db) && IsScan(keys, raw, HistoryPrefix(k), Fixed(Complement(h), 8)) && x in db
    ensures KeyBytes(x) in keys <==> Met(db, k, h, x)
  {
    assert Fetch(raw, KeyBytes(x)) == Encoded(CellAt(db, x));
    HistoryPrefixOnly(k, x);
  }

  /** The first key of a scan names the entry met first. */
  lemma FirstIsMet(raw: Bytemap, db: Db, k: Key, h: U64, keys: seq<Bytes>) returns (x: DbKey)
    requires Encodes(raw, db) && IsScan(keys, raw, HistoryPrefix(k), Fixed(Complement(h), 8)) && keys != []
    ensures keys[0] == KeyBytes(x) && MetFirst(db, k, h, x)
  {
    assert keys[0] in keys && Names(db, keys[0]);
    x :| x in db && KeyBytes(x) == keys[0];
    MetInScan(raw, db, k, h, keys, x);
    forall y: DbKey | Met(db, k, h, y)
      ensures !Less(KeyBytes(y), KeyBytes(x))
    {
      MetInScan(raw, db, k, h, keys, y);
      var j :| 0 <= j < |keys| && keys[j] == KeyBytes(y);
      if j > 0 {
        NotBoth(keys[0], keys[j]);
      } else {
        LessIrreflexive(keys[0]);
      }
    }
  }

  /* ---- aliases ---- */

  /** No kept entry belongs to an alias of k. */
  ghost predicate Unaliased(db: Db, k: Key) {
    forall x: DbKey :: x in db && x.HistKey? ==> !Alias(k, x.k)
  }

  /** No alias entry is met before this one. */
  ghost predicate FirstOfAll(db: Db, k: Key, h: U64, x: DbKey) {
    forall y: DbKey :: Met(db, k, h, y) && y.k != k ==> !Less(KeyBytes(y), KeyBytes(x))
  }

  lemma OwnMet(db: Db, k: Key, h: U64, b: U64, t: U64)
    ensures Met(db, k, h, HistKey(k, b, t)) <==> HistKey(k, b, t) in db && b <= h
  {
    HistoryFrom(k, b, t, h);
  }

  /** An own entry that is met first is the newest. */
  lemma OwnFirst(db: Db, k: Key, h: U64, b: U64, t: U64)
    requires MetFirst(db, k, h, HistKey(k, b, t))
    ensures Newest(db, k, h, b, t)
  {
    OwnMet(db, k, h, b, t);
    forall b': U64, t': U64 | HistKey(k, b', t') in db && b' <= h
      ensures b' < b || (b' == b && t' <= t)
    {
      OwnMet(db, k, h, b', t');
      HistoryOrder(k, b', t', b, t);
    }
  }

  /** The newest own entry is met first if and only if no alias entry in range sorts before it. */
  lemma NewestFirstIff(db: Db, k: Key, h: U64, b: U64, t: U64)
    requires Newest(db, k, h, b, t)
    ensures MetFirst(db, k, h, HistKey(k, b, t)) <==> FirstOfAll(db, k, h, HistKey(k, b, t))
  {
    OwnMet(db, k, h, b, t);
    forall y: DbKey | Met(db, k, h, y) && y.k == k
      ensures !Less(KeyBytes(y), KeyBytes(HistKey(k, b, t)))
    {
      OwnMet(db, k, h, y.block, y.tx);
      HistoryOrder(k, y.block, y.tx, b, t);
    }
  }

  /** The first key of a history scan names the newest kept record at or below the height if and only if no alias
      entry in range sorts before that. */
  lemma FirstIsNewest(raw: Bytemap, db: Db, k: Key, h: U64, keys: seq<Bytes>, b: U64, t: U64)
    requires Encodes(raw, db) && IsScan(keys, raw, HistoryPrefix(k), Fixed(Complement(h), 8)) && Newest(db, k, h, b, t)
    ensures keys != []
    ensures keys[0] == HistoryBytes(k, b, t) <==> FirstOfAll(db, k, h, HistKey(k, b, t))
  {
    var own := HistKey(k, b, t);
    OwnMet(db, k, h, b, t);
    MetInScan(raw, db, k, h, keys, own);
    var x := FirstIsMet(raw, db, k, h, keys);
    NewestFirstIff(db, k, h, b, t);
    if keys[0] == KeyBytes(own) {
      KeyBytesInjective(x, own);
    } else {
      LessTotal(KeyBytes(x), KeyBytes(own));
      assert !Less(KeyBytes(own), KeyBytes(x));
    }
  }

  /** A key without history at or below the height finds nothing if and only if no alias entry is in range. */
  lemma AliasFound(raw: Bytemap, db: Db, k: Key, h: U64, keys: seq<Bytes>)
    requires Encodes(raw, db) && IsScan(keys, raw, HistoryPrefix(k), Fixed(Complement(h), 8))
    requires forall b: U64, t: U64 :: HistKey(k, b, t) in db ==> b > h
    ensures keys == [] <==> forall x: DbKey :: Met(db, k, h, x) ==> !Alias(k, x.k)
  {
    if keys != [] {
      var x := FirstIsMet(raw, db, k, h, keys);
      OwnMet(db, x.k, h, x.block, x.tx);
      assert HistKey(x.k, x.block, x.tx) in db;
    }
    forall x: DbKey | Met(db, k, h, x) && Alias(k, x.k)
      ensures keys != []
    {
      MetInScan(raw, db, k, h, keys, x);
    }
  }

  /** Without aliases a scan returns the newest kept record at or below the height, or nothing. */
  lemma FoundScanned(db: Db, k: Key, h: U64, r: Option<Record>)
    requires Found(db, k, h, r) && Unaliased(db, k)
    ensures Scanned(db, k, h, r)
  {
    if r == None {
      forall b: U64, t: U64 | HistKey(k, b, t) in db
        ensures b > h
      {
        OwnMet(db, k, h, b, t);
      }
    } else {
      var x: DbKey :| MetFirst(db, k, h, x) && RecordAt(db, x) == r;
      OwnFirst(db, k, h, x.block, x.tx);
      assert x == HistKey(k, x.block, x.tx);
    }
  }

  lemma {:induction false} NotBoth(a: Bytes, b: Bytes)
    requires Less(a, b)
    ensures !Less(b, a)
  {
    if Less(b, a) {
      LessTrans(a, b, a);
      LessIrreflexive(a);
    }
  }
}
