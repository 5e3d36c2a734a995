/** State keys as text. */
module KeyText {
  import opened Prelude
  import opened Words
  import opened StateModel

  const ACC: Bytes := [97, 99, 99, 58]
  const STR: Bytes := [115, 116, 114, 58]
  const HEX: Bytes := [48, 120]
  const SEP: Byte := 58
  const BAL: Bytes := [98, 97, 108]
  const NONCE: Bytes := [110, 111, 110, 99, 101]
  const CODE: Bytes := [99, 111, 100, 101]

  function Pow16(n: nat): (p: nat)
    ensures p > 0
  {
    if n == 0 then 1 else 16 * Pow16(n - 1)
  }

  function Digit(d: int, upper: bool): Byte
    requires 0 <= d < 16
  {
    if d < 10 then 48 + d else if upper then 55 + d else 87 + d
  }

  /** The last n hexadecimal digits of v; up says which of them are in upper case. */
  function HexOf(v: nat, n: nat, up: nat -> bool): (b: Bytes)
    ensures |b| == n
  {
    if n == 0 then [] else HexOf(v / 16, n - 1, up) + [Digit(v % 16, up(n - 1))]
  }

  /** The case of the digits does not matter. */
  lemma {:induction false} HexInjective(v: nat, w: nat, n: nat, up: nat -> bool, up': nat -> bool)
    requires v < Pow16(n) && w < Pow16(n) && HexOf(v, n, up) == HexOf(w, n, up')
    ensures v == w
  {
    if n > 0 {
      var a, b := HexOf(v, n, up), HexOf(w, n, up');
      var d, d' := Digit(v % 16, up(n - 1)), Digit(w % 16, up'(n - 1));
      assert a[n - 1] == d && b[n - 1] == d';
      Append(HexOf(v / 16, n - 1, up), d);
      Append(HexOf(w / 16, n - 1, up'), d');
      assert a[..n - 1] == HexOf(v / 16, n - 1, up) && b[..n - 1] == HexOf(w / 16, n - 1, up');
      HexInjective(v / 16, w / 16, n - 1, up, up');
    }
  }

  lemma Pow16Values()
    ensures Pow16(40) == TWO_160 && Pow16(64) == TWO_256
  {
    assert Pow16(4) == 0x1_0000;
    assert Pow16(8) == 0x1_0000_0000;
    assert Pow16(12) == 0x1_0000_0000 * 0x1_0000;
    assert Pow16(16) == TWO_64;
    assert Pow16(20) == TWO_64 * 0x1_0000;
    assert Pow16(24) == TWO_64 * 0x1_0000_0000;
    assert Pow16(28) == TWO_64 * 0x1_0000_0000 * 0x1_0000;
    assert Pow16(32) == TWO_64 * TWO_64;
    assert Pow16(36) == TWO_64 * TWO_64 * 0x1_0000;
    assert Pow16(40) == TWO_64 * TWO_64 * 0x1_0000_0000;
    assert Pow16(44) == TWO_64 * TWO_64 * 0x1_0000_0000 * 0x1_0000;
    assert Pow16(48) == TWO_64 * TWO_64 * TWO_64;
    assert Pow16(52) == TWO_64 * TWO_64 * TWO_64 * 0x1_0000;
    assert Pow16(56) == TWO_64 * TWO_64 * TWO_64 * 0x1_0000_0000;
    assert Pow16(60) == TWO_64 * TWO_64 * TWO_64 * 0x1_0000_0000 * 0x1_0000;
    assert Pow16(64) == TWO_64 * TWO_64 * TWO_64 * TWO_64;
  }

  function Head(k: StateKey): Bytes {
    if k.StorageKey? then STR else ACC
  }

  const Lower: nat -> bool := _ => false

  function Tail(k: StateKey): Bytes {
    match k
    case BalanceKey(_) => BAL
    case NonceKey(_) => NONCE
    case CodeKey(_) => CODE
    case StorageKey(_, slot) => HEX + HexOf(slot, 64, Lower)
  }

  /** Which hexadecimal digits of an address are in upper case: any function, so also the checksum of EIP-55. */
  type Casing = Address -> (nat -> bool)

  function AddressHex(up: Casing, a: Address): (b: Bytes)
    ensures |b| == 40
  {
    HexOf(a, 40, up(a))
  }

  /** The key under which the store holds a piece of an account. */
  function Text(up: Casing, k: StateKey): Bytes {
    Head(k) + (HEX + AddressHex(up, k.a)) + [SEP] + Tail(k)
  }

  lemma Parts(a: Bytes, h: Bytes, d: Bytes)
    requires |a| == 4 && |h| == 40
    ensures var t := a + (HEX + h) + [SEP] + d; |t| >= 47 && t[..4] == a && t[6..46] == h && t[47..] == d
  {
    var t := a + (HEX + h) + [SEP] + d;
    assert t[..4] == a;
    assert t[6..46] == (HEX + h)[2..] == h;
    assert t[47..] == d;
  }

  lemma TextParts(up: Casing, k: StateKey)
    ensures var t := Text(up, k);
            |t| >= 47 && t[..4] == Head(k) && t[6..46] == AddressHex(up, k.a) && t[47..] == Tail(k)
  {
    Parts(Head(k), AddressHex(up, k.a), Tail(k));
  }

  /** No two state keys have the same text, whatever the casing. */
  lemma TextInjective(up: Casing, k: StateKey, k': StateKey)
    requires Text(up, k) == Text(up, k')
    ensures k == k'
  {
    TextParts(up, k);
    TextParts(up, k');
    Pow16Values();
    HexInjective(k.a, k'.a, 40, up(k.a), up(k'.a));
    assert Head(k)[0] == Head(k')[0];
    if k.StorageKey? {
      assert Tail(k)[2..] == HexOf(k.slot, 64, Lower) && Tail(k')[2..] == HexOf(k'.slot, 64, Lower);
      HexInjective(k.slot, k'.slot, 64, Lower, Lower);
    } else {
      assert |Tail(k)| == |Tail(k')|;
    }
  }

  /* ---- reading it back ---- */

  /** What a hexadecimal digit stands for. */
  function DigitValue(c: Byte): int {
    if 48 <= c <= 57 then c - 48 else if 65 <= c <= 70 then c - 55 else c - 87
  }

  function HexValue(b: Bytes): int {
    if b == [] then 0 else 16 * HexValue(b[..|b| - 1]) + DigitValue(b[|b| - 1])
  }

  /** The digits written read back as the number, in either case. */
  lemma {:induction false} HexReads(v: nat, n: nat, up: nat -> bool)
    requires v < Pow16(n)
    ensures HexValue(HexOf(v, n, up)) == v
  {
    if n > 0 {
      HexReads(v / 16, n - 1, up);
      Append(HexOf(v / 16, n - 1, up), Digit(v % 16, up(n - 1)));
    }
  }

  lemma SlotText(t: Bytes, h: Bytes)
    requires |t| >= 47 && |h| == 64 && t[47..] == HEX + h
    ensures |t| == 113 && t[47..49] == HEX && t[49..] == h
  {
    assert t[49..] == t[47..][2..] == h;
    assert t[47..49] == t[47..][..2] == HEX;
  }

  /** The text of a key: `acc:` or `str:`, `0x` and the address, a colon, and `bal`, `nonce`, `code` or `0x` and the
      slot. */
  lemma {:induction false} TextLayout(up: Casing, k: StateKey)
    ensures var t := Text(up, k);
            && |t| >= 47 && t[..4] == (if k.StorageKey? then [115, 116, 114, 58] else [97, 99, 99, 58])
            && t[4..6] == [48, 120] && HexValue(t[6..46]) == k.a && t[46] == 58
            && (k.BalanceKey? ==> t[47..] == [98, 97, 108])
            && (k.NonceKey? ==> t[47..] == [110, 111, 110, 99, 101])
            && (k.CodeKey? ==> t[47..] == [99, 111, 100, 101])
            && (k.StorageKey? ==> |t| == 113 && t[47..49] == [48, 120] && HexValue(t[49..]) == k.slot)
  {
    var t := Text(up, k);
    TextParts(up, k);
    Pow16Values();
    HexReads(k.a, 40, up(k.a));
    if k.StorageKey? {
      HexReads(k.slot, 64, Lower);
      SlotText(t, HexOf(k.slot, 64, Lower));
    }
  }
}
