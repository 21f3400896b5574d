/** Rotations of 32-bit words by an amount taken modulo 32; a rotation by zero is the identity. */
module Rotation {

  function Left(x: bv32, c: bv32): bv32
    requires c < 32
  {
    (x << c) | (x >> (32 - c))
  }

  function Right(x: bv32, c: bv32): bv32
    requires c < 32
  {
    (x >> c) | (x << (32 - c))
  }

  function Rotl(x: bv32, n: bv32): bv32 {
    Left(x, n & 31)
  }

  function Rotr(x: bv32, n: bv32): bv32 {
    Right(x, n & 31)
  }

  /** One place to the left, the top bit coming back in at the bottom. */
  lemma RotlOne(x: bv32)
    ensures Rotl(x, 0) == x && Rotl(x, 1) == (x << 1) | (x >> 31)
  {
    LeftOne(x);
    hide Left;
    NextAmount(0);
  }

  lemma LeftOne(x: bv32)
    ensures Left(x, 0) == x && Left(x, 1) == (x << 1) | (x >> 31)
  {
  }

  /** One place more, for any amount; amounts count modulo 32. */
  lemma RotlMore(x: bv32, n: bv32)
    ensures Rotl(x, n + 1) == Rotl(Rotl(x, n), 1)
  {
    LeftMore(x, n & 31);
    hide Left;
    NextAmount(n);
  }

  lemma NextAmount(n: bv32)
    ensures (n + 1) & 31 == if n & 31 == 31 then 0 else (n & 31) + 1
    ensures (1 as bv32) & 31 == 1 && (0 as bv32) & 31 == 0 && n & 31 < 32
  {
  }

  lemma LeftMore(x: bv32, c: bv32)
    requires c < 32
    ensures Left(Left(x, c), 1) == Left(x, if c == 31 then 0 else c + 1)
  {
  }

  lemma Upper(x: bv32, c: bv32)
    requires 0 < c < 32
    ensures ((x << c) | (x >> (32 - c))) >> c == (x << c) >> c
  {
  }

  lemma Lower(x: bv32, c: bv32)
    requires 0 < c < 32
    ensures ((x << c) | (x >> (32 - c))) << (32 - c) == (x >> (32 - c)) << (32 - c)
  {
  }

  lemma Halves(x: bv32, c: bv32)
    requires 0 < c < 32
    ensures ((x << c) >> c) | ((x >> (32 - c)) << (32 - c)) == x
  {
  }

  lemma RightLeft(x: bv32, c: bv32)
    requires c < 32
    ensures Right(Left(x, c), c) == x
  {
    if c == 0 {
    } else {
      Upper(x, c);
      Lower(x, c);
      Halves(x, c);
    }
  }

  lemma Turn(x: bv32, c: bv32)
    requires 0 < c < 32
    ensures Right(x, c) == Left(x, 32 - c)
    ensures Left(x, c) == Right(x, 32 - c)
  {
  }

  lemma LeftRight(x: bv32, c: bv32)
    requires c < 32
    ensures Left(Right(x, c), c) == x
  {
    if c == 0 {
    } else {
      var y := Right(x, c);
      Turn(x, c);
      Turn(y, c);
      RightLeft(x, 32 - c);
    }
  }

  lemma RotrRotl(x: bv32, n: bv32)
    ensures Rotr(Rotl(x, n), n) == x
  {
    RightLeft(x, n & 31);
  }

  lemma RotlRotr(x: bv32, n: bv32)
    ensures Rotl(Rotr(x, n), n) == x
  {
    LeftRight(x, n & 31);
  }
}
