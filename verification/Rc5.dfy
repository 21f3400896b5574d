/** RC5-32 with a 16-byte key (RFC 2040): key expansion, and both directions as the server runs them. */
module Rc5 {
  import opened Basics
  import opened Rotation
  import opened Words

  const ROUNDS := 12
  const KEY_WORDS := 4
  const SUB_WORDS := 26
  const PW32: bv32 := 0xB7E15163
  const QW32: bv32 := 0x61C88647
  /** The second magic constant of RFC 2040. */
  const Q: bv32 := 0x9E3779B9

  // ---- one half of a round ----

  /** `x` absorbs `y` and a key word, rotated by `y`. */
  function Absorb(x: bv32, y: bv32, k: bv32): bv32 {
    Add32(Rotl(Xor32(x, y), y), k)
  }

  function Release(x: bv32, y: bv32, k: bv32): bv32 {
    Xor32(Rotr(Sub32(x, k), y), y)
  }

  lemma ReleaseAbsorb(x: bv32, y: bv32, k: bv32)
    ensures Release(Absorb(x, y, k), y, k) == x
    ensures Absorb(Release(x, y, k), y, k) == x
  {
    hide Rotl, Rotr, Xor32, Add32, Sub32;
    SubAdd32(Rotl(Xor32(x, y), y), k);
    RotrRotl(Xor32(x, y), y);
    XorCancel32(x, y);
    XorCancel32(Rotr(Sub32(x, k), y), y);
    RotlRotr(Sub32(x, k), y);
    AddSub32(x, k);
  }

  // ---- section 6 of RFC 2040, for any number of rounds ----

  /** The expanded key. */
  type Keys = s: seq<bv32> | |s| == SUB_WORDS witness seq(26, i => 0)

  function Round(s: seq<bv32>, j: nat, b: Pair): Pair
    requires 2 * j + 1 < |s|
  {
    var l := Absorb(b.l, b.r, s[2 * j]);
    Pair(l, Absorb(b.r, l, s[2 * j + 1]))
  }

  function Unround(s: seq<bv32>, j: nat, b: Pair): Pair
    requires 2 * j + 1 < |s|
  {
    var r := Release(b.r, b.l, s[2 * j + 1]);
    Pair(Release(b.l, r, s[2 * j]), r)
  }

  lemma UnroundRound(s: seq<bv32>, j: nat, b: Pair)
    requires 2 * j + 1 < |s|
    ensures Unround(s, j, Round(s, j, b)) == b
    ensures Round(s, j, Unround(s, j, b)) == b
  {
    hide Absorb, Release;
    var l := Absorb(b.l, b.r, s[2 * j]);
    ReleaseAbsorb(b.r, l, s[2 * j + 1]);
    ReleaseAbsorb(b.l, b.r, s[2 * j]);
    ReleaseAbsorb(b.r, b.l, s[2 * j + 1]);
    ReleaseAbsorb(b.l, Release(b.r, b.l, s[2 * j + 1]), s[2 * j]);
  }

  function EncryptRounds(s: seq<bv32>, r: nat, b: Pair): Pair
    requires 2 * r + 1 < |s|
  {
    if r == 0 then Pair(Add32(b.l, s[0]), Add32(b.r, s[1])) else Round(s, r, EncryptRounds(s, r - 1, b))
  }

  function DecryptRounds(s: seq<bv32>, r: nat, b: Pair): Pair
    requires 2 * r + 1 < |s|
  {
    if r == 0 then Pair(Sub32(b.l, s[0]), Sub32(b.r, s[1])) else DecryptRounds(s, r - 1, Unround(s, r, b))
  }

  /**
    * The halves as one sequence: both words plus their key words, then each one the last but one xor the last, rotated
    * by the last, plus the next key word.
    */
  ghost predicate AreHalves(a: seq<bv32>, s: seq<bv32>, b: Pair) {
    && 2 <= |a| <= |s|
    && a[0] == Add32(b.l, s[0]) && a[1] == Add32(b.r, s[1])
    && forall i :: 2 <= i < |a| ==> a[i] == Add32(Rotl(Xor32(a[i - 2], a[i - 1]), a[i - 1]), s[i])
  }

  /** So many rounds end at so many pairs of halves further; the server's eleven at the 22nd and the 23rd. */
  lemma {:induction false} RoundsReachHalves(a: seq<bv32>, s: seq<bv32>, r: nat, b: Pair)
    requires AreHalves(a, s, b) && 2 * r + 1 < |a|
    ensures EncryptRounds(s, r, b) == Pair(a[2 * r], a[2 * r + 1])
    ensures r == 11 && |s| == 26 ==> EncryptBlock(s, b) == Pair(a[22], a[23])
  {
    hide Add32, Xor32, Rotl;
    if r > 0 {
      RoundsReachHalves(a, s, r - 1, b);
      assert a[2 * r] == Absorb(a[2 * r - 2], a[2 * r - 1], s[2 * r]);
      assert a[2 * r + 1] == Absorb(a[2 * r - 1], a[2 * r], s[2 * r + 1]);
      hide Absorb, AreHalves;
    }
  }

  /** With equally many rounds each direction undoes the other. */
  lemma {:induction false} RoundTrip(s: seq<bv32>, r: nat, b: Pair)
    requires 2 * r + 1 < |s|
    ensures DecryptRounds(s, r, EncryptRounds(s, r, b)) == b
    ensures EncryptRounds(s, r, DecryptRounds(s, r, b)) == b
  {
    hide Add32, Sub32, Round, Unround;
    if r == 0 {
      SubAdd32(b.l, s[0]);
      SubAdd32(b.r, s[1]);
      AddSub32(b.l, s[0]);
      AddSub32(b.r, s[1]);
    } else {
      RoundTrip(s, r - 1, b);
      RoundTrip(s, r - 1, Unround(s, r, b));
      UnroundRound(s, r, EncryptRounds(s, r - 1, b));
      UnroundRound(s, r, b);
    }
  }

  /** Block by block, as the buffer loop does. */
  function EncryptAll(s: seq<bv32>, r: nat, blocks: seq<Pair>): seq<Pair>
    requires 2 * r + 1 < |s|
  {
    seq(|blocks|, i requires 0 <= i < |blocks| => EncryptRounds(s, r, blocks[i]))
  }

  function DecryptAll(s: seq<bv32>, r: nat, blocks: seq<Pair>): seq<Pair>
    requires 2 * r + 1 < |s|
  {
    seq(|blocks|, i requires 0 <= i < |blocks| => DecryptRounds(s, r, blocks[i]))
  }

  /** For every key, buffer and round count, r rounds back undo r rounds out, and the other way round. */
  lemma BufferRoundTrip(s: seq<bv32>, r: nat, blocks: seq<Pair>)
    requires 2 * r + 1 < |s|
    ensures DecryptAll(s, r, EncryptAll(s, r, blocks)) == blocks
    ensures EncryptAll(s, r, DecryptAll(s, r, blocks)) == blocks
  {
    forall i | 0 <= i < |blocks|
      ensures DecryptRounds(s, r, EncryptRounds(s, r, blocks[i])) == blocks[i]
      ensures EncryptRounds(s, r, DecryptRounds(s, r, blocks[i])) == blocks[i]
    {
      RoundTrip(s, r, blocks[i]);
    }
  }

  // ---- what the server runs: eleven rounds out, twelve rounds back ----

  function EncryptBlock(s: Keys, b: Pair): Pair {
    EncryptRounds(s, ROUNDS - 1, b)
  }

  function DecryptBlock(s: Keys, b: Pair): Pair {
    DecryptRounds(s, ROUNDS, b)
  }

  /** A block survives the server's round trip exactly when its ciphertext is a fixed point of round 12. */
  lemma ServerRoundTrip(s: Keys, b: Pair)
    ensures DecryptBlock(s, EncryptBlock(s, b)) == b
            <==> Round(s, ROUNDS, EncryptBlock(s, b)) == EncryptBlock(s, b)
  {
    hide EncryptRounds, Round, Unround;
    var c := EncryptBlock(s, b);
    var z := Unround(s, ROUNDS, c);
    assert DecryptBlock(s, c) == DecryptRounds(s, ROUNDS - 1, z);
    UnroundRound(s, ROUNDS, c);
    RoundTrip(s, ROUNDS - 1, b);
    RoundTrip(s, ROUNDS - 1, z);
  }

  /** What round 12 makes of two particular blocks. */
  lemma RoundOfProbes(s: Keys)
    ensures Round(s, ROUNDS, Pair(0, 0)).l == s[24]
    ensures s[24] == 0 ==> Round(s, ROUNDS, Pair(0, 32)).l == 32
  {
    hide Add32;
    AddZero(s[24]);
    AddZero(32);
    assert Rotl(Xor32(0, 0), 0) == 0;
    assert Rotl(Xor32(0, 32), 32) == 32;
  }

  lemma AddZero(x: bv32)
    ensures Add32(0, x) == x && Add32(x, 0) == x
  {
  }

  /** Whatever the key, some block is not recovered. */
  lemma SomeBlockIsLost(s: Keys) returns (b: Pair)
    ensures DecryptBlock(s, EncryptBlock(s, b)) != b
  {
    hide EncryptRounds, DecryptRounds, Round;
    var c := if s[24] == 0 then Pair(0, 32) else Pair(0, 0);
    RoundOfProbes(s);
    b := DecryptRounds(s, ROUNDS - 1, c);
    RoundTrip(s, ROUNDS - 1, c);
    ServerRoundTrip(s, b);
  }

  // ---- section 5 of RFC 2040 ----

  function AbsorbKeyByte(l: bv32, b: bv8): bv32 {
    Add32(Rotl(l, 8), b as bv32)
  }

  /** A key word: the four key bytes absorbed from the last to the first, eight bits at a time. */
  function RfcKeyWord(b0: bv8, b1: bv8, b2: bv8, b3: bv8): bv32 {
    AbsorbKeyByte(AbsorbKeyByte(AbsorbKeyByte(AbsorbKeyByte(0, b3), b2), b1), b0)
  }

  /** S[0] = P and S[i] = S[i-1] + Q. */
  function RfcInitial(i: nat): bv32 {
    if i == 0 then PW32 else Add32(RfcInitial(i - 1), Q)
  }

  /** The two tables, the two running words and the two running indices of the mixing pass. */
  datatype Mix = Mix(s: seq<bv32>, l: seq<bv32>, a: bv32, b: bv32, i: nat, j: nat)

  predicate MixSizes(m: Mix) {
    |m.s| == SUB_WORDS && |m.l| == KEY_WORDS && m.i < SUB_WORDS && m.j < KEY_WORDS
  }

  function MixOnce(m: Mix): (r: Mix)
    requires MixSizes(m)
    ensures MixSizes(r)
  {
    var a := Rotl(Add32(Add32(m.s[m.i], m.a), m.b), 3);
    var b := Rotl(Add32(Add32(m.l[m.j], a), m.b), Add32(a, m.b));
    Mix(m.s[m.i := a], m.l[m.j := b], a, b, (m.i + 1) % SUB_WORDS, (m.j + 1) % KEY_WORDS)
  }

  function RfcMix(l: seq<bv32>, n: nat): (m: Mix)
    requires |l| == KEY_WORDS
    ensures MixSizes(m)
  {
    if n == 0 then Mix(seq(SUB_WORDS, i requires 0 <= i < SUB_WORDS => RfcInitial(i)), l, 0, 0, 0, 0)
    else MixOnce(RfcMix(l, n - 1))
  }

  function RfcKeyWords(seed: seq<bv8>): (l: seq<bv32>)
    requires |seed| == 16
    ensures |l| == KEY_WORDS
  {
    seq(KEY_WORDS, i requires 0 <= i < KEY_WORDS =>
      RfcKeyWord(seed[4 * i], seed[4 * i + 1], seed[4 * i + 2], seed[4 * i + 3]))
  }

  /** The expanded key: three passes over the longer table. */
  function RfcExpand(seed: seq<bv8>): Keys
    requires |seed| == 16
  {
    RfcMix(RfcKeyWords(seed), 3 * SUB_WORDS).s
  }

  // ---- the expansion as three passes over 26 words ----

  /** What lies in cell `k` of a table of `m` cells after `n` writes, the w-th one writing c[w + 1] to cell w % m. */
  function Latest(c: seq<bv32>, start: seq<bv32>, m: nat, n: nat, k: nat): bv32
    requires 0 < m == |start| && n < |c| && k < m
  {
    if n == 0 then start[k] else if (n - 1) % m == k then c[n] else Latest(c, start, m, n - 1, k)
  }

  lemma SmallRest(n: nat, m: nat)
    requires n < m
    ensures n % m == n
  {
  }

  lemma {:induction false} LatestAtStart(c: seq<bv32>, start: seq<bv32>, m: nat, n: nat, k: nat)
    requires 0 < m == |start| && n < |c| && n <= k < m
    ensures Latest(c, start, m, n, k) == start[k]
  {
    if n > 0 {
      SmallRest(n - 1, m);
      LatestAtStart(c, start, m, n - 1, k);
    }
  }

  /** Positions less than a whole table apart are different cells; those a whole table apart are the same one. */
  lemma CellsApart(m: nat, w: nat, n: nat)
    requires m == 26 || m == 4
    ensures w < n < w + m ==> n % m != w % m
    ensures n == w + m ==> n % m == w % m
    ensures w % m < m && (w < m ==> w % m == w)
  {
    if m == 26 {
      assert w < n < w + 26 ==> n % 26 != w % 26;
      assert (w + 26) % 26 == w % 26;
    } else {
      assert w < n < w + 4 ==> n % 4 != w % 4;
      assert (w + 4) % 4 == w % 4;
    }
  }

  lemma {:induction false} LatestStays(c: seq<bv32>, start: seq<bv32>, m: nat, w: nat, n: nat)
    requires (m == 26 || m == 4) && m == |start| && w < n <= w + m && n < |c|
    ensures w % m < m && Latest(c, start, m, n, w % m) == c[w + 1]
  {
    CellsApart(m, w, n - 1);
    if n > w + 1 {
      LatestStays(c, start, m, w, n - 1);
    }
  }

  /** The cell that is written next: as it was at the start, or written one pass before. */
  lemma LatestNext(c: seq<bv32>, start: seq<bv32>, m: nat, n: nat)
    requires (m == 26 || m == 4) && m == |start| && n < |c|
    ensures n % m < m && Latest(c, start, m, n, n % m) == if n < m then start[n] else c[n - m + 1]
  {
    hide Latest;
    CellsApart(m, n, n);
    if n < m {
      LatestAtStart(c, start, m, n, n);
    } else {
      CellsApart(m, n - m, n);
      LatestStays(c, start, m, n - m, n);
    }
  }

  /**
    * The words A and B of section 5.3 of RFC 2040 after each of the 78 steps: a table cell is read as it was written a
    * pass before.
    */
  datatype Passes = Passes(a: seq<bv32>, b: seq<bv32>, start: seq<bv32>, l: seq<bv32>) {
    predicate Sizes() {
      |a| == |b| == 79 && |start| == 26 && |l| == 4
    }

    predicate StepIs(n: nat)
      requires Sizes() && n < 78
    {
      && a[n + 1] == Rotl(Add32(Add32(if n < 26 then start[n] else a[n - 25], a[n]), b[n]), 3)
      && b[n + 1] == Rotl(Add32(Add32(if n < 4 then l[n] else b[n - 3], a[n + 1]), b[n]), Add32(a[n + 1], b[n]))
    }

    ghost predicate AreMixed()
      requires Sizes()
    {
      a[0] == b[0] == 0 && forall n: nat :: n < 78 ==> StepIs(n)
    }
  }

  /** The cells of a table after so many writes. */
  ghost predicate AreLatest(cells: seq<bv32>, c: seq<bv32>, start: seq<bv32>, n: nat) {
    0 < |cells| == |start| && n < |c| && forall k: nat :: k < |cells| ==> cells[k] == Latest(c, start, |start|, n, k)
  }

  lemma Written(cells: seq<bv32>, c: seq<bv32>, start: seq<bv32>, n: nat, i: nat)
    requires AreLatest(cells, c, start, n) && n + 1 < |c| && i == n % |cells| && i < |cells|
    ensures AreLatest(cells[i := c[n + 1]], c, start, n + 1)
  {
  }

  ghost predicate MixIs(m: Mix, x: Passes, n: nat)
    requires x.Sizes() && n < 79
  {
    && MixSizes(m) && m.a == x.a[n] && m.b == x.b[n] && m.i == n % 26 && m.j == n % 4
    && AreLatest(m.s, x.a, x.start, n) && AreLatest(m.l, x.b, x.l, n)
  }

  /** What the step writes, once the two cells it reads are known. */
  lemma MixWrites(m: Mix, x: Passes, n: nat)
    requires x.Sizes() && n < 78 && x.StepIs(n) && MixSizes(m) && m.a == x.a[n] && m.b == x.b[n]
    requires m.s[m.i] == if n < 26 then x.start[n] else x.a[n - 25]
    requires m.l[m.j] == if n < 4 then x.l[n] else x.b[n - 3]
    ensures MixOnce(m)
            == Mix(m.s[m.i := x.a[n + 1]], m.l[m.j := x.b[n + 1]], x.a[n + 1], x.b[n + 1], (m.i + 1) % 26, (m.j + 1) % 4)
  {
    hide Add32, Rotl;
  }

  lemma NextCell(n: nat, m: nat)
    requires m > 1
    ensures (n % m + 1) % m == (n + 1) % m
  {
    var q, r := n / m, n % m;
    assert n == q * m + r;
    if r + 1 < m {
      DivModUnique(q, m, r + 1);
      SmallRest(r + 1, m);
    } else {
      Distribute(q, 1, m);
      DivModUnique(q + 1, m, 0);
    }
  }

  lemma MixOneMore(m: Mix, x: Passes, n: nat)
    requires x.Sizes() && n < 78 && x.StepIs(n) && MixIs(m, x, n)
    ensures MixIs(MixOnce(m), x, n + 1)
  {
    hide MixOnce, Passes.StepIs, Latest;
    LatestNext(x.a, x.start, 26, n);
    LatestNext(x.b, x.l, 4, n);
    MixWrites(m, x, n);
    NextCell(n, 26);
    NextCell(n, 4);
    hide AreLatest;
    Written(m.s, x.a, x.start, n, m.i);
    Written(m.l, x.b, x.l, n, m.j);
  }

  lemma {:induction false} MixReaches(x: Passes, n: nat)
    requires x.Sizes() && x.AreMixed() && n < 79 && forall i :: 0 <= i < 26 ==> x.start[i] == RfcInitial(i)
    ensures MixIs(RfcMix(x.l, n), x, n)
  {
    hide RfcInitial, MixOnce, Add32, Rotl, Passes.StepIs;
    if n > 0 {
      MixReaches(x, n - 1);
      MixOneMore(RfcMix(x.l, n - 1), x, n - 1);
    }
  }

  /** The table the passes start from: P, and Q more from word to word. */
  ghost predicate IsStart(start: seq<bv32>) {
    && |start| == 26 && start[0] == 0xB7E1_5163
    && forall i :: 1 <= i < 26 ==> start[i] == Add32(start[i - 1], 0x9E37_79B9)
  }

  lemma {:induction false} StartIsInitial(start: seq<bv32>, i: nat)
    requires IsStart(start) && i < 26
    ensures start[i] == RfcInitial(i)
  {
    hide Add32;
    if i > 0 {
      StartIsInitial(start, i - 1);
    }
  }

  /** The expanded key are the 26 words of the third and last pass. */
  lemma ExpandedIsThirdPass(seed: seq<bv8>, x: Passes)
    requires |seed| == 16 && x.Sizes() && IsStart(x.start) && x.AreMixed()
    requires forall i :: 0 <= i < 4 ==> x.l[i] == LoadWord(seed[4 * i + 3], seed[4 * i + 2], seed[4 * i + 1], seed[4 * i])
    ensures RfcExpand(seed) == x.a[53..]
  {
    hide RfcInitial, RfcMix, LoadWord, RfcKeyWord, Passes.AreMixed, IsStart;
    forall i | 0 <= i < 4
      ensures x.l[i] == RfcKeyWords(seed)[i]
    {
      LittleEndianKeyWord(seed[4 * i], seed[4 * i + 1], seed[4 * i + 2], seed[4 * i + 3]);
    }
    assert x.l == RfcKeyWords(seed);
    forall i | 0 <= i < 26
      ensures x.start[i] == RfcInitial(i)
    {
      StartIsInitial(x.start, i);
    }
    MixReaches(x, 78);
    forall k: nat | k < 26
      ensures RfcExpand(seed)[k] == x.a[53 + k]
    {
      LatestStays(x.a, x.start, 26, 52 + k, 78);
      assert (52 + k) % 26 == k;
    }
  }

  /** Subtracting the server's constant is adding that of RFC 2040. */
  lemma SubtractingIsAddingQ(x: bv32)
    ensures Sub32(x, QW32) == Add32(x, Q)
  {
    hide Add32, Sub32;
    Difference(x, QW32);
    Sum(x, Q);
  }

  /** Reading the key bytes as a little-endian word absorbs them as the standard does. */
  lemma LittleEndianKeyWord(b0: bv8, b1: bv8, b2: bv8, b3: bv8)
    ensures LoadWord(b3, b2, b1, b0) == RfcKeyWord(b0, b1, b2, b3)
  {
  }

  // ---- the cipher object ----

  /** A word buffer as blocks. */
  function AsBlocks(w: seq<bv32>): (b: seq<Pair>)
    requires |w| % 2 == 0
    ensures |b| == |w| / 2
  {
    seq(|w| / 2, i requires 0 <= i < |w| / 2 => Pair(w[2 * i], w[2 * i + 1]))
  }

  class Cipher {
    const mKey: array<bv32>
    const mSub: array<bv32>

    ghost predicate Valid()
    {
      mKey.Length == KEY_WORDS && mSub.Length == SUB_WORDS
    }

    constructor ()
      ensures Valid() && fresh(mKey) && fresh(mSub)
      ensures mSub[..] == seq(SUB_WORDS, i => 0)
    {
      mKey := new bv32[4](i => 0);
      mSub := new bv32[26](i => 0);
      new;
      assert mSub[..] == seq(SUB_WORDS, i => 0);
    }

    method LoadKey(aSeed: array<bv8>)
      requires Valid() && aSeed.Length == 16
      modifies mKey
      ensures mKey[..] == RfcKeyWords(aSeed[..])
    {
      hide RfcKeyWord, LoadWord;
      for i := 0 to KEY_WORDS
        invariant forall k :: 0 <= k < i ==> mKey[k] == RfcKeyWords(aSeed[..])[k]
      {
        mKey[i] := LoadWord(aSeed[4 * i + 3], aSeed[4 * i + 2], aSeed[4 * i + 1], aSeed[4 * i]);
        LittleEndianKeyWord(aSeed[4 * i], aSeed[4 * i + 1], aSeed[4 * i + 2], aSeed[4 * i + 3]);
      }
      assert mKey[..] == RfcKeyWords(aSeed[..]);
    }

    method InitialiseSub()
      requires Valid()
      modifies mSub
      ensures mSub[..] == seq(SUB_WORDS, i requires 0 <= i < SUB_WORDS => RfcInitial(i))
    {
      hide Add32, Sub32;
      mSub[0] := PW32;
      for i := 1 to SUB_WORDS
        invariant forall k :: 0 <= k < i ==> mSub[k] == RfcInitial(k)
      {
        mSub[i] := Sub32(mSub[i - 1], QW32);
        SubtractingIsAddingQ(mSub[i - 1]);
      }
    }

    /** One turn of the mixing pass. */
    method MixStep(i: nat, j: nat, x: bv32, y: bv32) returns (x': bv32, y': bv32)
      requires Valid() && i < SUB_WORDS && j < KEY_WORDS
      modifies mKey, mSub
      ensures Mix(mSub[..], mKey[..], x', y', (i + 1) % SUB_WORDS, (j + 1) % KEY_WORDS)
              == MixOnce(old(Mix(mSub[..], mKey[..], x, y, i, j)))
    {
      hide Add32, Rotl;
      mSub[i] := Rotl(Add32(Add32(mSub[i], x), y), 3);
      x' := mSub[i];
      mKey[j] := Rotl(Add32(Add32(mKey[j], x'), y), Add32(x', y));
      y' := mKey[j];
    }

    method GenerateKey(aSeed: array<bv8>)
      requires Valid() && aSeed.Length == 16
      modifies mKey, mSub
      ensures mSub[..] == RfcExpand(aSeed[..])
    {
      hide MixOnce, RfcKeyWords, RfcInitial;
      LoadKey(aSeed);
      InitialiseSub();
      ghost var l := mKey[..];
      var i, j, x, y := 0, 0, 0, 0;
      for k := 0 to 3 * SUB_WORDS
        invariant 0 <= i < SUB_WORDS && 0 <= j < KEY_WORDS
        invariant Mix(mSub[..], mKey[..], x, y, i, j) == RfcMix(l, k)
      {
        assert RfcMix(l, k + 1) == MixOnce(RfcMix(l, k));
        x, y := MixStep(i, j, x, y);
        i := (i + 1) % SUB_WORDS;
        j := (j + 1) % KEY_WORDS;
      }
    }

    /** The rounds of one block. */
    method EncryptWords(a: bv32, b: bv32) returns (le: bv32, re: bv32)
      requires Valid()
      ensures Pair(le, re) == EncryptRounds(mSub[..], ROUNDS - 1, Pair(a, b))
    {
      hide Add32, Absorb;
      le, re := Add32(a, mSub[0]), Add32(b, mSub[1]);
      for j := 1 to ROUNDS
        invariant Pair(le, re) == EncryptRounds(mSub[..], j - 1, Pair(a, b))
      {
        le := Absorb(le, re, mSub[2 * j]);
        re := Absorb(re, le, mSub[2 * j + 1]);
      }
    }

    /** The buffer, read as little-endian words, block by block. */
    method Encrypt(buf: array<bv32>)
      requires Valid() && buf.Length % 2 == 0 && buf != mSub
      modifies buf
      ensures AsBlocks(buf[..]) == EncryptAll(mSub[..], ROUNDS - 1, old(AsBlocks(buf[..])))
      ensures forall i :: 0 <= i < buf.Length / 2 ==>
                Pair(buf[2 * i], buf[2 * i + 1]) == EncryptRounds(mSub[..], 11, old(Pair(buf[2 * i], buf[2 * i + 1])))
    {
      hide EncryptRounds;
      ghost var s, w := mSub[..], buf[..];
      for i := 0 to buf.Length / 2
        invariant forall k :: 0 <= k < i ==> Pair(buf[2 * k], buf[2 * k + 1]) == EncryptRounds(s, ROUNDS - 1, Pair(w[2 * k], w[2 * k + 1]))
        invariant forall k :: 2 * i <= k < buf.Length ==> buf[k] == w[k]
      {
        var le, re := EncryptWords(buf[2 * i], buf[2 * i + 1]);
        buf[2 * i] := le;
        buf[2 * i + 1] := re;
      }
    }

    /** The inverse rounds of one block. */
    method DecryptWords(c: bv32, d: bv32) returns (a: bv32, b: bv32)
      requires Valid()
      ensures Pair(b, a) == DecryptRounds(mSub[..], ROUNDS, Pair(c, d))
    {
      hide Sub32, Release;
      var ld, rd := c, d;
      var j := ROUNDS;
      while j >= 1
        invariant 0 <= j <= ROUNDS
        invariant DecryptRounds(mSub[..], j, Pair(ld, rd)) == DecryptRounds(mSub[..], ROUNDS, Pair(c, d))
      {
        rd := Release(rd, ld, mSub[2 * j + 1]);
        ld := Release(ld, rd, mSub[2 * j]);
        j := j - 1;
      }
      a, b := Sub32(rd, mSub[1]), Sub32(ld, mSub[0]);
    }

    method Decrypt(buf: array<bv32>)
      requires Valid() && buf.Length % 2 == 0 && buf != mSub
      modifies buf
      ensures AsBlocks(buf[..]) == DecryptAll(mSub[..], ROUNDS, old(AsBlocks(buf[..])))
      ensures forall i :: 0 <= i < buf.Length / 2 ==>
                Pair(buf[2 * i], buf[2 * i + 1]) == DecryptRounds(mSub[..], 12, old(Pair(buf[2 * i], buf[2 * i + 1])))
    {
      hide DecryptRounds;
      ghost var s, w := mSub[..], buf[..];
      for i := 0 to buf.Length / 2
        invariant forall k :: 0 <= k < i ==> Pair(buf[2 * k], buf[2 * k + 1]) == DecryptRounds(s, ROUNDS, Pair(w[2 * k], w[2 * k + 1]))
        invariant forall k :: 2 * i <= k < buf.Length ==> buf[k] == w[k]
      {
        var a, b := DecryptWords(buf[2 * i], buf[2 * i + 1]);
        buf[2 * i] := b;
        buf[2 * i + 1] := a;
      }
    }
  }
}
