/** Byte strings in key order. */
module ByteOrder {
  import opened Prelude
  import opened Words

  /** Lexicographic order; a proper prefix comes first. */
  predicate Less(a: Bytes, b: Bytes) {
    if b == [] then false
    else if a == [] then true
    else if a[0] != b[0] then a[0] < b[0]
    else Less(a[1..], b[1..])
  }

  lemma {:induction false} LessIrreflexive(a: Bytes)
    ensures !Less(a, a)
  {
    if a != [] {
      LessIrreflexive(a[1..]);
    }
  }

  lemma {:induction false} LessTrans(a: Bytes, b: Bytes, c: Bytes)
    requires Less(a, b) && Less(b, c)
    ensures Less(a, c)
  {
    if a != [] && a[0] == b[0] == c[0] {
      LessTrans(a[1..], b[1..], c[1..]);
    }
  }

  lemma {:induction false} LessTotal(a: Bytes, b: Bytes)
    requires a != b
    ensures Less(a, b) || Less(b, a)
  {
    if a != [] && b != [] && a[0] == b[0] {
      assert a == [a[0]] + a[1..] && b == [b[0]] + b[1..];
      LessTotal(a[1..], b[1..]);
    }
  }

  /** A common head does not matter. */
  lemma {:induction false} LessPrefix(p: Bytes, a: Bytes, b: Bytes)
    ensures Less(p + a, p + b) <==> Less(a, b)
  {
    if p == [] {
      assert p + a == a && p + b == b;
    } else {
      LessPrefix(p[1..], a, b);
      assert (p + a)[1..] == p[1..] + a && (p + b)[1..] == p[1..] + b;
    }
  }

  /** Different heads of equal length decide. */
  lemma {:induction false} LessHead(a: Bytes, b: Bytes, c: Bytes, d: Bytes)
    requires |a| == |b| && a != b
    ensures Less(a + c, b + d) <==> Less(a, b)
  {
    assert (a + c)[1..] == a[1..] + c && (b + d)[1..] == b[1..] + d;
    if a[0] == b[0] {
      assert a == [a[0]] + a[1..] && b == [b[0]] + b[1..];
      LessHead(a[1..], b[1..], c, d);
    }
  }

  lemma {:induction false} FixedInjective(x: nat, y: nat, n: nat)
    requires x < Pow256(n) && y < Pow256(n) && Fixed(x, n) == Fixed(y, n)
    ensures x == y
  {
    FixedInverse(x, n);
    FixedInverse(y, n);
  }

  /** Big-endian numbers of one width are in numeric order. */
  lemma {:induction false} LessFixed(x: nat, y: nat, n: nat)
    requires x < Pow256(n) && y < Pow256(n)
    ensures Less(Fixed(x, n), Fixed(y, n)) <==> x < y
  {
    if n > 0 {
      var a, b := Fixed(x / 256, n - 1), Fixed(y / 256, n - 1);
      if x / 256 == y / 256 {
        LessPrefix(a, [x % 256], [y % 256]);
      } else {
        if a == b {
          FixedInjective(x / 256, y / 256, n - 1);
        }
        LessHead(a, b, [x % 256], [y % 256]);
        LessFixed(x / 256, y / 256, n - 1);
      }
    }
  }
}
