/** Types shared by every component: optional values, machine integers and byte strings. */
module Prelude {
  datatype Option<+T> = None | Some(value: T)

  datatype Result<+T> = Ok(value: T) | Err

  const TWO_64: int := 0x1_0000_0000_0000_0000

  /** Go's uint64. */
  type U64 = x: int | 0 <= x < 0x1_0000_0000_0000_0000

  const MAX_U64: U64 := 0xFFFF_FFFF_FFFF_FFFF

  /** Go's `x + 1` on a uint64. */
  function Inc(x: U64): U64 {
    if x == MAX_U64 then 0 else x + 1
  }

  /** The uint64 a counter shows after being incremented n times from 0. */
  function Wrap(n: nat): U64 {
    n % TWO_64
  }

  lemma WrapInc(n: nat)
    ensures Wrap(n + 1) == Inc(Wrap(n))
  {
    var q, r := n / TWO_64, n % TWO_64;
    assert n == q * TWO_64 + r;
    if r == TWO_64 - 1 {
      assert n + 1 == (q + 1) * TWO_64;
    } else {
      assert n + 1 == q * TWO_64 + (r + 1);
    }
  }

  type Byte = x: int | 0 <= x < 256

  type Bytes = seq<Byte>

  ghost predicate NoDup<T>(s: seq<T>) {
    forall i, j :: 0 <= i < j < |s| ==> s[i] != s[j]
  }

  lemma Snoc<T>(s: seq<T>)
    requires s != []
    ensures s == s[..|s| - 1] + [s[|s| - 1]]
  {
  }

  lemma TakeNext<T>(s: seq<T>, i: nat)
    requires i < |s|
    ensures s[..i + 1] == s[..i] + [s[i]]
  {
  }

  lemma Append<T>(s: seq<T>, x: T)
    ensures (s + [x])[..|s|] == s
  {
  }

  lemma Associate<T>(s: seq<T>, t: seq<T>, u: seq<T>)
    ensures s + t + u == s + (t + u)
  {
  }

  /** An order in which Go may range over a set: every member once. */
  ghost predicate IterationOrder<T(!new)>(order: seq<T>, s: set<T>) {
    NoDup(order) && forall x :: x in order <==> x in s
  }

  /** `order` lists, once each, the members of `all` that a loop over the set has met; `rest` is still to come. */
  ghost predicate Visited<T(!new)>(order: seq<T>, all: set<T>, rest: set<T>) {
    NoDup(order) && rest <= all && forall x :: x in order <==> x in all && x !in rest
  }

  lemma VisitNext<T(!new)>(order: seq<T>, all: set<T>, rest: set<T>, x: T)
    requires Visited(order, all, rest) && x in rest
    ensures Visited(order + [x], all, rest - {x})
  {
  }
}
