/** What several modules share. */
module Basics {

  datatype Option<T> = None | Some(value: T)

  /** A 16-bit unsigned number, and the cut to it. */
  type uint16 = n: nat | n < 0x1_0000

  function Wrap16(n: nat): uint16 {
    n % 0x1_0000
  }

  /** Everything in a list of lists, in order. */
  function Flatten<T>(lists: seq<seq<T>>): seq<T> {
    if lists == [] then [] else lists[0] + Flatten(lists[1..])
  }

  /** A multiple is at least as far from zero as the divisor, in the direction of the factor. */
  lemma MultipleIsFar(d: int, p: nat)
    ensures d >= 1 ==> d * p >= p
    ensures d <= -1 ==> d * p + p <= 0
  {
  }

  lemma Distribute(x: int, y: int, p: int)
    ensures (x - y) * p == x * p - y * p
    ensures (x + y) * p == x * p + y * p
  {
  }

  /** Quotient and remainder are the only way to write a number as a multiple and a rest. */
  lemma DivModUnique(q: nat, p: nat, r: nat)
    requires r < p
    ensures (q * p + r) / p == q && (q * p + r) % p == r
  {
    var n := q * p + r;
    assert n == (n / p) * p + n % p;
    Distribute(q, n / p, p);
    MultipleIsFar(q - n / p, p);
  }
}
