/** The values of the database: records with base-128 varints, and big-endian numbers. */
module RecordCodec {
  import opened Prelude
  import opened Words
  import opened Records

  /* ---- varints ---- */

  /** Seven bits a byte, the low ones first; all but the last byte have the high bit set. */
  function PutUvarint(x: nat): Bytes {
    if x < 128 then [x] else [x % 128 + 128] + PutUvarint(x / 128)
  }

  /** What still fits in 64 bits at the i-th byte. */
  function Room(i: nat): nat
    requires i <= 9
    decreases 9 - i
  {
    if i == 9 then 2 else 128 * Room(i + 1)
  }

  /** The value and its length; None if the input ends early or the value needs more than 64 bits. */
  function GetUvarint(b: Bytes, i: nat): (r: Option<(nat, nat)>)
    requires i <= 10
    ensures r.Some? ==> i < 10 && r.value.0 < Room(i) && 0 < r.value.1 <= |b|
  {
    if b == [] || i == 10 then None
    else if b[0] < 128 then
      if i == 9 && b[0] > 1 then None else RoomMany(i); Some((b[0], 1))
    else
      match GetUvarint(b[1..], i + 1)
      case None => None
      case Some(r) => Some((b[0] - 128 + 128 * r.0, r.1 + 1))
  }

  lemma {:induction false} RoomMany(i: nat)
    requires i <= 9
    ensures Room(i) >= if i == 9 then 2 else 256
    decreases 9 - i
  {
    if i < 9 {
      RoomMany(i + 1);
    }
  }

  lemma RoomAll()
    ensures Room(0) == TWO_64
  {
    assert Room(7) == 0x8000;
    assert Room(5) == 0x8000 * 0x4000;
    assert Room(3) == 0x8000 * 0x4000 * 0x4000;
    assert Room(1) == 0x8000 * 0x4000 * 0x4000 * 0x4000;
  }

  lemma {:induction false} UvarintInverse(x: nat, rest: Bytes, i: nat)
    requires i <= 9 && x < Room(i)
    ensures GetUvarint(PutUvarint(x) + rest, i) == Some((x, |PutUvarint(x)|))
    decreases x
  {
    var b := PutUvarint(x) + rest;
    if x >= 128 {
      UvarintInverse(x / 128, rest, i + 1);
      assert b[1..] == PutUvarint(x / 128) + rest;
    }
  }

  /* ---- records ---- */

  datatype Decoded = Decoded(r: Record) | Corrupt | Crash

  const TWO_63: nat := 0x8000_0000_0000_0000

  function Flags(r: Record): Byte {
    (if r.isDelete then 1 else 0) + if r.value.Some? then 2 else 0
  }

  function EncodeValue(v: Value): Bytes {
    if v.Some? then PutUvarint(|v.value|) + v.value else []
  }

  function EncodeRecord(r: Record): Bytes {
    [Flags(r)] + (PutUvarint(r.block) + (PutUvarint(r.tx) + (PutUvarint(r.version)
    + (PutUvarint(|r.txId|) + (r.txId + EncodeValue(r.value))))))
  }

  /** Go's int conversion of a uint64. */
  function Signed(x: U64): int {
    if x < TWO_63 then x else x - TWO_64
  }

  /** Where n bytes from pos end, in 64-bit arithmetic. */
  function EndOf(pos: nat, n: U64): int {
    var e := pos + Signed(n);
    if e >= TWO_63 then e - TWO_64 else e
  }

  /** Reads a varint at pos; None is a corrupt one. */
  function VarintAt(raw: Bytes, pos: nat): (r: Option<(U64, nat)>)
    requires pos <= |raw|
    ensures r.Some? ==> r.value.1 <= |raw|
  {
    var g := GetUvarint(raw[pos..], 0);
    RoomAll();
    if g == None then None else Some((g.value.0, pos + g.value.1))
  }

  /** Reads a length and that many bytes at pos. */
  datatype Chunk = Chunk(bytes: Bytes, end: nat) | BadChunk | CrashChunk

  function ChunkAt(raw: Bytes, pos: nat): (c: Chunk)
    requires pos <= |raw|
    ensures c.Chunk? ==> c.end <= |raw|
  {
    var n := VarintAt(raw, pos);
    if n == None then BadChunk
    else
      var start, e := n.value.1, EndOf(n.value.1, n.value.0);
      if e > |raw| then BadChunk
      else if e < start then CrashChunk
      else Chunk(raw[start..e], e)
  }

  /** Bytes after the value are ignored; a length of 2^63 or more crashes the reader. */
  function DecodeRecord(raw: Bytes): Decoded {
    if raw == [] then Corrupt
    else
      var block := VarintAt(raw, 1);
      if block == None then Corrupt else
      var tx := VarintAt(raw, block.value.1);
      if tx == None then Corrupt else
      var version := VarintAt(raw, tx.value.1);
      if version == None then Corrupt else
      var txId := ChunkAt(raw, version.value.1);
      if txId.BadChunk? then Corrupt
      else if txId.CrashChunk? then Crash
      else
        var value := if raw[0] / 2 % 2 == 0 then Chunk([], txId.end) else ChunkAt(raw, txId.end);
        if value.BadChunk? then Corrupt
        else if value.CrashChunk? then Crash
        else
          Decoded(Record(block.value.0, tx.value.0, version.value.0, txId.bytes, raw[0] % 2 == 1,
                         if raw[0] / 2 % 2 == 0 then None else Some(value.bytes)))
  }

  lemma {:induction false} VarintThere(raw: Bytes, pos: nat, x: U64, rest: Bytes)
    requires pos <= |raw| && raw[pos..] == PutUvarint(x) + rest
    ensures VarintAt(raw, pos) == Some((x, pos + |PutUvarint(x)|))
    ensures pos + |PutUvarint(x)| <= |raw| && raw[pos + |PutUvarint(x)|..] == rest
  {
    RoomAll();
    UvarintInverse(x, rest, 0);
    var n := |PutUvarint(x)|;
    assert |raw[pos..]| == n + |rest|;
    assert raw[pos..][n..] == rest && raw[pos..][n..] == raw[pos + n..];
  }

  lemma {:induction false} ChunkThere(raw: Bytes, pos: nat, b: Bytes, rest: Bytes)
    requires |raw| < TWO_63 && pos <= |raw| && raw[pos..] == PutUvarint(|b|) + (b + rest)
    ensures ChunkAt(raw, pos) == Chunk(b, pos + |PutUvarint(|b|)| + |b|)
    ensures pos + |PutUvarint(|b|)| + |b| <= |raw| && raw[pos + |PutUvarint(|b|)| + |b|..] == rest
  {
    assert |raw[pos..]| == |PutUvarint(|b|)| + |b| + |rest|;
    VarintThere(raw, pos, |b|, b + rest);
    var start := pos + |PutUvarint(|b|)|;
    assert raw[start..] == b + rest;
    assert raw[start..start + |b|] == raw[start..][..|b|] == b;
    assert raw[start + |b|..] == raw[start..][|b|..] == rest;
  }

  function Rest(r: Record): Bytes {
    PutUvarint(|r.txId|) + (r.txId + EncodeValue(r.value))
  }

  /** Three numbers in a row. */
  lemma ThreeThere(raw: Bytes, x: U64, y: U64, z: U64, rest: Bytes) returns (a: nat, b: nat, c: nat)
    requires raw != [] && raw[1..] == PutUvarint(x) + (PutUvarint(y) + (PutUvarint(z) + rest))
    ensures a <= |raw| && b <= |raw| && c <= |raw| && raw[c..] == rest
    ensures VarintAt(raw, 1) == Some((x, a)) && VarintAt(raw, a) == Some((y, b)) && VarintAt(raw, b) == Some((z, c))
  {
    VarintThere(raw, 1, x, PutUvarint(y) + (PutUvarint(z) + rest));
    a := 1 + |PutUvarint(x)|;
    VarintThere(raw, a, y, PutUvarint(z) + rest);
    b := a + |PutUvarint(y)|;
    VarintThere(raw, b, z, rest);
    c := b + |PutUvarint(z)|;
  }

  /** A record starts with its flags, then block, transaction and version. */
  lemma HeadThere(r: Record) returns (a: nat, b: nat, c: nat)
    ensures var raw := EncodeRecord(r);
            && raw != [] && raw[0] == (if r.isDelete then 1 else 0) + (if r.value.Some? then 2 else 0)
            && a <= |raw| && b <= |raw| && c <= |raw| && raw[c..] == Rest(r)
            && VarintAt(raw, 1) == Some((r.block, a))
            && VarintAt(raw, a) == Some((r.tx, b))
            && VarintAt(raw, b) == Some((r.version, c))
  {
    var raw := EncodeRecord(r);
    assert raw[1..] == PutUvarint(r.block) + (PutUvarint(r.tx) + (PutUvarint(r.version) + Rest(r)));
    a, b, c := ThreeThere(raw, r.block, r.tx, r.version, Rest(r));
  }

  lemma TailThere(raw: Bytes, c: nat, r: Record) returns (d: nat)
    requires |raw| < TWO_63 && c <= |raw| && raw[c..] == Rest(r)
    ensures d <= |raw| && ChunkAt(raw, c) == Chunk(r.txId, d)
    ensures r.value.Some? ==> ChunkAt(raw, d).Chunk? && ChunkAt(raw, d).bytes == r.value.value
  {
    var tail := EncodeValue(r.value);
    ChunkThere(raw, c, r.txId, tail);
    d := c + |PutUvarint(|r.txId|)| + |r.txId|;
    if r.value.Some? {
      assert tail == PutUvarint(|r.value.value|) + (r.value.value + []);
      ChunkThere(raw, d, r.value.value, []);
    }
  }

  lemma FlagsThere(r: Record)
    ensures Flags(r) % 2 == 1 <==> r.isDelete
    ensures Flags(r) / 2 % 2 == 0 <==> r.value == None
  {
  }

  /** Every record comes back, nil and empty values kept apart. */
  lemma RecordInverse(r: Record)
    requires |EncodeRecord(r)| < TWO_63
    ensures DecodeRecord(EncodeRecord(r)) == Decoded(r)
  {
    var raw := EncodeRecord(r);
    var a, b, c := HeadThere(r);
    var d := TailThere(raw, c, r);
    FlagsThere(r);
    assert raw[0] == Flags(r);
  }

  /* ---- numbers ---- */

  /** A meta value is eight bytes; any other length is corrupt. */
  function DecodeNumber(raw: Bytes): Option<U64> {
    if |raw| != 8 then None
    else
      FromBytesBound(raw);
      Pow256Values();
      Some(FromBytes(raw))
  }

  lemma {:induction false} NumberInverse(v: U64)
    ensures DecodeNumber(Fixed(v, 8)) == Some(v)
  {
    Pow256Values();
    FixedInverse(v, 8);
  }
}
