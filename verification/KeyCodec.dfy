/** The keys of the database and how they sort. */
module KeyCodec {
  import opened Prelude
  import opened Words
  import opened Records
  import opened ByteOrder

  /** What a database key stands for; an index key names the history entry a block created. */
  datatype DbKey =
    | DataKey(k: Key)
    | HistKey(k: Key, block: U64, tx: U64)
    | IndexKey(creator: U64, k: Key, block: U64, tx: U64)
    | MetaBlock
    | MetaOldest

  const TAG_DATA: Byte := 100
  const TAG_HISTORY: Byte := 104
  const TAG_INDEX: Byte := 105
  const TAG_META: Byte := 109

  const TWO_32: nat := 0x1_0000_0000

  /** A length as big-endian uint32, to which it is truncated. */
  function Length(n: nat): (b: Bytes)
    ensures |b| == 4
  {
    Fixed(n % TWO_32, 4)
  }

  /** Tag, length, key. */
  function KeyForState(tag: Byte, k: Key): Bytes {
    [tag] + Length(|k|) + k
  }

  /** Ones' complement of a uint64. */
  function Complement(x: U64): U64 {
    MAX_U64 - x
  }

  function Suffix(block: U64, tx: U64): Bytes {
    Fixed(Complement(block), 8) + Fixed(Complement(tx), 8)
  }

  function HistoryPrefix(k: Key): Bytes {
    KeyForState(TAG_HISTORY, k)
  }

  function HistoryBytes(k: Key, block: U64, tx: U64): Bytes {
    HistoryPrefix(k) + Suffix(block, tx)
  }

  function IndexBytes(creator: U64, histKey: Bytes): Bytes {
    [TAG_INDEX] + Fixed(creator, 8) + histKey
  }

  function KeyBytes(x: DbKey): Bytes {
    match x
    case DataKey(k) => KeyForState(TAG_DATA, k)
    case HistKey(k, block, tx) => HistoryBytes(k, block, tx)
    case IndexKey(creator, k, block, tx) => IndexBytes(creator, HistoryBytes(k, block, tx))
    case MetaBlock => [TAG_META, 98, 108, 111, 99, 107]
    case MetaOldest => [TAG_META, 111, 108, 100, 101, 115, 116]
  }

  /** Splits an index key into its block and history key; a short key is corrupt. */
  function ParseIndexKey(b: Bytes): Option<(U64, Bytes)> {
    if |b| <= 9 then None
    else
      FromBytesBound(b[1..9]);
      Pow256Values();
      Some((FromBytes(b[1..9]), b[9..]))
  }

  lemma ParseIndexInverse(creator: U64, histKey: Bytes)
    requires histKey != []
    ensures ParseIndexKey(IndexBytes(creator, histKey)) == Some((creator, histKey))
  {
    var b := IndexBytes(creator, histKey);
    assert b[1..9] == Fixed(creator, 8) && b[9..] == histKey;
    Pow256Values();
    FixedInverse(creator, 8);
  }

  lemma SuffixInjective(b: U64, t: U64, b': U64, t': U64)
    requires Suffix(b, t) == Suffix(b', t')
    ensures b == b' && t == t'
  {
    Pow256Values();
    assert Suffix(b, t)[..8] == Fixed(Complement(b), 8) && Suffix(b, t)[8..] == Fixed(Complement(t), 8);
    assert Suffix(b', t')[..8] == Fixed(Complement(b'), 8) && Suffix(b', t')[8..] == Fixed(Complement(t'), 8);
    FixedInjective(Complement(b), Complement(b'), 8);
    FixedInjective(Complement(t), Complement(t'), 8);
  }

  lemma StateKeyInjective(tag: Byte, k: Key, k': Key)
    requires KeyForState(tag, k) == KeyForState(tag, k')
    ensures k == k'
  {
    assert KeyForState(tag, k)[5..] == k && KeyForState(tag, k')[5..] == k';
  }

  lemma HistoryInjective(k: Key, b: U64, t: U64, k': Key, b': U64, t': U64)
    requires HistoryBytes(k, b, t) == HistoryBytes(k', b', t')
    ensures k == k' && b == b' && t == t'
  {
    var x, x' := HistoryBytes(k, b, t), HistoryBytes(k', b', t');
    var n := |x| - 16;
    assert x[..n] == HistoryPrefix(k) && x[n..] == Suffix(b, t);
    assert x'[..n] == HistoryPrefix(k') && x'[n..] == Suffix(b', t');
    StateKeyInjective(TAG_HISTORY, k, k');
    SuffixInjective(b, t, b', t');
  }

  lemma IndexInjective(c: U64, h: Bytes, c': U64, h': Bytes)
    requires IndexBytes(c, h) == IndexBytes(c', h')
    ensures c == c' && h == h'
  {
    var x, x' := IndexBytes(c, h), IndexBytes(c', h');
    assert x[1..9] == Fixed(c, 8) && x[9..] == h;
    assert x'[1..9] == Fixed(c', 8) && x'[9..] == h';
    Pow256Values();
    FixedInjective(c, c', 8);
  }

  predicate SameKind(x: DbKey, y: DbKey) {
    (x.DataKey? <==> y.DataKey?) && (x.HistKey? <==> y.HistKey?) && (x.IndexKey? <==> y.IndexKey?)
  }

  /** The first byte tells the kinds apart. */
  lemma KindsApart(x: DbKey, y: DbKey)
    requires KeyBytes(x) == KeyBytes(y)
    ensures SameKind(x, y)
  {
    assert KeyBytes(x)[0] == KeyBytes(y)[0];
  }

  /** No two database keys have the same bytes, however long the state keys are. */
  lemma KeyBytesInjective(x: DbKey, y: DbKey)
    requires KeyBytes(x) == KeyBytes(y)
    ensures x == y
  {
    KindsApart(x, y);
    match x
    case DataKey(k) => StateKeyInjective(TAG_DATA, k, y.k);
    case HistKey(k, b, t) => HistoryInjective(k, b, t, y.k, y.block, y.tx);
    case IndexKey(c, k, b, t) =>
      IndexInjective(c, HistoryBytes(k, b, t), y.creator, HistoryBytes(y.k, y.block, y.tx));
      HistoryInjective(k, b, t, y.k, y.block, y.tx);
    case MetaBlock =>
    case MetaOldest =>
  }

  lemma {:induction false} Read32(n: nat)
    ensures FromBytes(Length(n)) == n % TWO_32
  {
    assert Pow256(4) == TWO_32;
    FixedInverse(n % TWO_32, 4);
  }

  lemma {:induction false} Read64(n: U64)
    ensures FromBytes(Fixed(n, 8)) == n
  {
    Pow256Values();
    FixedInverse(n, 8);
  }

  /** A key byte by byte: its kind, the length of the state key modulo 2^32, the state key; for history the block and
      the transaction, each subtracted from the greatest uint64; for the index the creating block and the history
      key. */
  lemma {:induction false} KeyLayout(creator: U64, k: Key, block: U64, tx: U64)
    ensures var d, h := KeyBytes(DataKey(k)), KeyBytes(HistKey(k, block, tx));
            var x := KeyBytes(IndexKey(creator, k, block, tx));
            && |d| == 5 + |k| && |h| == 21 + |k| && |x| == 30 + |k|
            && d[0] == 100 && FromBytes(d[1..5]) == |k| % 0x1_0000_0000 && d[5..] == k
            && h[0] == 104 && FromBytes(h[1..5]) == |k| % 0x1_0000_0000 && h[5..5 + |k|] == k
            && FromBytes(h[5 + |k|..13 + |k|]) == MAX_U64 - block && FromBytes(h[13 + |k|..]) == MAX_U64 - tx
            && x[0] == 105 && FromBytes(x[1..9]) == creator && x[9..] == h
  {
    var d, h, x := KeyBytes(DataKey(k)), KeyBytes(HistKey(k, block, tx)), KeyBytes(IndexKey(creator, k, block, tx));
    assert d[1..5] == Length(|k|) && d[5..] == k;
    assert h[1..5] == Length(|k|) && h[5..5 + |k|] == k;
    assert h[5 + |k|..13 + |k|] == Fixed(Complement(block), 8) && h[13 + |k|..] == Fixed(Complement(tx), 8);
    assert x[1..9] == Fixed(creator, 8) && x[9..] == h;
    Read32(|k|);
    Read64(Complement(block));
    Read64(Complement(tx));
    Read64(creator);
  }

  /** The two reserved keys spell their names. */
  lemma MetaNames()
    ensures var b, o := KeyBytes(MetaBlock), KeyBytes(MetaOldest);
            && |b| == |"mblock"| && (forall i :: 0 <= i < |b| ==> b[i] == "mblock"[i] as int)
            && |o| == |"moldest"| && (forall i :: 0 <= i < |o| ==> o[i] == "moldest"[i] as int)
  {
  }

  /* ---- order ---- */

  lemma SuffixOrder(b: U64, t: U64, b': U64, t': U64)
    ensures Less(Suffix(b, t), Suffix(b', t')) <==> b > b' || (b == b' && t > t')
  {
    Pow256Values();
    var x, x' := Fixed(Complement(b), 8), Fixed(Complement(b'), 8);
    var y, y' := Fixed(Complement(t), 8), Fixed(Complement(t'), 8);
    if b == b' {
      LessPrefix(x, y, y');
      LessFixed(Complement(t), Complement(t'), 8);
    } else {
      if x == x' {
        FixedInjective(Complement(b), Complement(b'), 8);
      }
      LessHead(x, x', y, y');
      LessFixed(Complement(b), Complement(b'), 8);
    }
  }

  /** The history of one key is in descending (block, transaction) order. */
  lemma HistoryOrder(k: Key, b: U64, t: U64, b': U64, t': U64)
    ensures Less(HistoryBytes(k, b, t), HistoryBytes(k, b', t')) <==> b > b' || (b == b' && t > t')
  {
    LessPrefix(HistoryPrefix(k), Suffix(b, t), Suffix(b', t'));
    SuffixOrder(b, t, b', t');
  }

  /** A scan from the complement of n starts at the entries of blocks up to n. */
  lemma HistoryFrom(k: Key, b: U64, t: U64, n: U64)
    ensures !Less(HistoryBytes(k, b, t), HistoryPrefix(k) + Fixed(Complement(n), 8)) <==> b <= n
  {
    Pow256Values();
    var x, x', y := Fixed(Complement(b), 8), Fixed(Complement(n), 8), Fixed(Complement(t), 8);
    LessPrefix(HistoryPrefix(k), Suffix(b, t), x');
    if b == n {
      LessPrefix(x, y, []);
      assert x + [] == x;
    } else {
      if x == x' {
        FixedInjective(Complement(b), Complement(n), 8);
      }
      LessHead(x, x', y, []);
      assert x' + [] == x';
      LessFixed(Complement(b), Complement(n), 8);
    }
  }

  /** Index entries are in the order of the blocks that created them. */
  lemma IndexOrder(c: U64, h: Bytes, c': U64, h': Bytes)
    requires c < c'
    ensures Less(IndexBytes(c, h), IndexBytes(c', h'))
  {
    Pow256Values();
    var x, x' := Fixed(c, 8), Fixed(c', 8);
    if x == x' {
      FixedInjective(c, c', 8);
    }
    LessFixed(c, c', 8);
    LessHead(x, x', h, h');
    LessPrefix([TAG_INDEX], x + h, x' + h');
    Associate([TAG_INDEX], x, h);
    Associate([TAG_INDEX], x', h');
  }

  lemma LengthSame(a: nat, b: nat)
    ensures Length(a) == Length(b) <==> a % TWO_32 == b % TWO_32
    ensures a % TWO_32 == b % TWO_32 && a <= b + 16 ==> a <= b
  {
    assert Pow256(4) == TWO_32;
    if Length(a) == Length(b) {
      FixedInjective(a % TWO_32, b % TWO_32, 4);
    }
  }

  /** k' continues k by a positive multiple of 2^32 bytes. */
  predicate Alias(k: Key, k': Key) {
    k < k' && |k| % TWO_32 == |k'| % TWO_32
  }

  /** A scan over one key's history meets the entries of that key and of its aliases, and nothing else. */
  lemma HistoryPrefixOnly(k: Key, x: DbKey)
    ensures HistoryPrefix(k) <= KeyBytes(x) <==> x.HistKey? && (x.k == k || Alias(k, x.k))
  {
    var p, y := HistoryPrefix(k), KeyBytes(x);
    assert p[0] == TAG_HISTORY && p[1..5] == Length(|k|) && p[5..] == k;
    if x.HistKey? {
      var rest := x.k + Suffix(x.block, x.tx);
      assert y[0] == TAG_HISTORY && y[1..5] == Length(|x.k|) && y[5..] == rest;
      LengthSame(|k|, |x.k|);
      if p <= y {
        assert p[1..5] == y[..|p|][1..5] && p[5..] == y[..|p|][5..] == rest[..|k|];
      }
    } else {
      assert y[0] != TAG_HISTORY;
    }
  }

  lemma IndexPrefixOnly(x: DbKey)
    ensures [TAG_INDEX] <= KeyBytes(x) <==> x.IndexKey?
  {
    assert KeyBytes(x)[0] == TAG_INDEX <==> x.IndexKey?;
    assert KeyBytes(x) == [KeyBytes(x)[0]] + KeyBytes(x)[1..];
  }
}
