/** The Blowfish block cipher, its key schedule and its CFB64 stream. */
module Blowfish {
  import opened Words
  import opened Feedback
  import opened Cfb64

  const ROUNDS := 16
  const KEY_SIZE := 72

  // ---- the block cipher, for any round function and any P-array ----

  /** One pass of the loop: mix the key word in, apply the round function, swap the halves. */
  function Round(f: bv32 -> bv32, k: bv32, b: Pair): Pair {
    var l := Xor32(b.l, k);
    Pair(Xor32(b.r, f(l)), l)
  }

  function Rounds(f: bv32 -> bv32, keys: seq<bv32>, b: Pair): Pair {
    if keys == [] then b
    else Round(f, keys[|keys| - 1], Rounds(f, keys[..|keys| - 1], b))
  }

  function EncipherWith(f: bv32 -> bv32, p: seq<bv32>, b: Pair): Pair
    requires |p| == ROUNDS + 2
  {
    var t := Rounds(f, p[..ROUNDS], b);
    Pair(Xor32(t.r, p[ROUNDS + 1]), Xor32(t.l, p[ROUNDS]))
  }

  /**
    * The halves of the network as one sequence: the two halves of the block, each mixed with its key word, then each one
    * the last but one mixed with the round function of the last and the next key word.
    */
  ghost predicate AreHalves(a: seq<bv32>, f: bv32 -> bv32, p: seq<bv32>, b: Pair) {
    && |a| == 17 && |p| == 18
    && a[0] == Xor32(b.l, p[0])
    && a[1] == Xor32(Xor32(b.r, f(a[0])), p[1])
    && forall i :: 2 <= i < 17 ==> a[i] == Xor32(Xor32(a[i - 2], f(a[i - 1])), p[i])
  }

  lemma OneHalf(f: bv32 -> bv32, k: bv32, t: Pair, x: bv32, last: bv32, next: bv32)
    requires t == Pair(Xor32(x, f(last)), last) && next == Xor32(Xor32(x, f(last)), k)
    ensures Round(f, k, t) == Pair(Xor32(last, f(next)), next)
  {
    hide Xor32;
  }

  lemma {:induction false} RoundsReachHalves(a: seq<bv32>, f: bv32 -> bv32, p: seq<bv32>, b: Pair, n: nat)
    requires AreHalves(a, f, p, b) && 1 <= n <= 16
    ensures var t := Rounds(f, p[..n], b);
            t.r == a[n - 1] && t.l == Xor32(if n == 1 then b.r else a[n - 2], f(a[n - 1]))
  {
    hide Xor32;
    RoundsOneMore(f, p, n - 1, b);
    if n == 1 {
      assert p[..0] == [];
    } else {
      RoundsReachHalves(a, f, p, b, n - 1);
      assert n > 2 ==> a[n - 1] == Xor32(Xor32(a[n - 3], f(a[n - 2])), p[n - 1]);
      hide AreHalves, Rounds, Round;
      OneHalf(f, p[n - 1], Rounds(f, p[..n - 1], b), if n == 2 then b.r else a[n - 3], a[n - 2], a[n - 1]);
    }
  }

  /** The sixteen rounds end at the last two halves: the last one second, the one before whitened by the 18th key word. */
  lemma EncipherByHalves(a: seq<bv32>, f: bv32 -> bv32, p: seq<bv32>, b: Pair)
    requires AreHalves(a, f, p, b)
    ensures EncipherWith(f, p, b) == Pair(Xor32(a[15], p[17]), a[16])
  {
    hide Xor32;
    RoundsReachHalves(a, f, p, b, 16);
  }

  /** The first `n` key words of the decryption loop: P[17], P[16], and so on down. */
  function Downwards(p: seq<bv32>, n: nat): seq<bv32>
    requires |p| == ROUNDS + 2 && n <= ROUNDS
  {
    seq(n, i requires 0 <= i < n => p[ROUNDS + 1 - i])
  }

  function DecipherWith(f: bv32 -> bv32, p: seq<bv32>, b: Pair): Pair
    requires |p| == ROUNDS + 2
  {
    var t := Rounds(f, Downwards(p, ROUNDS), b);
    Pair(Xor32(t.r, p[0]), Xor32(t.l, p[1]))
  }

  /** One decryption round takes off one encryption round. */
  lemma RoundOff(f: bv32 -> bv32, e: Pair, k0: bv32, k1: bv32, k2: bv32)
    ensures var t := Round(f, k0, e);
            Round(f, k2, Pair(Xor32(t.r, k2), Xor32(t.l, k1))) == Pair(Xor32(e.r, k1), Xor32(e.l, k0))
  {
    hide Xor32;
    var t := Round(f, k0, e);
    XorCancel32(t.r, k2);
    XorRegroup32(e.r, f(t.r), k1);
  }

  /** The rounds with one key more, at the end. */
  lemma RoundsOneMore(f: bv32 -> bv32, keys: seq<bv32>, n: nat, b: Pair)
    requires n < |keys|
    ensures Rounds(f, keys[..n + 1], b) == Round(f, keys[n], Rounds(f, keys[..n], b))
  {
    assert keys[..n + 1][..n] == keys[..n];
  }

  lemma DownwardsOneMore(f: bv32 -> bv32, p: seq<bv32>, n: nat, b: Pair)
    requires |p| == ROUNDS + 2 && 1 <= n <= ROUNDS
    ensures Rounds(f, Downwards(p, n), b) == Round(f, p[ROUNDS + 2 - n], Rounds(f, Downwards(p, n - 1), b))
  {
    assert Downwards(p, n)[..n - 1] == Downwards(p, n - 1);
  }

  lemma DownwardsNothing(f: bv32 -> bv32, p: seq<bv32>, b: Pair)
    requires |p| == ROUNDS + 2
    ensures Rounds(f, Downwards(p, 0), b) == b
  {
  }

  lemma {:induction false} AfterRounds(f: bv32 -> bv32, p: seq<bv32>, b: Pair, n: nat)
    requires |p| == ROUNDS + 2 && n <= ROUNDS
    ensures var e := Rounds(f, p[..ROUNDS - n], b);
            Rounds(f, Downwards(p, n), EncipherWith(f, p, b))
            == Pair(Xor32(e.r, p[ROUNDS + 1 - n]), Xor32(e.l, p[ROUNDS - n]))
  {
    hide Xor32;
    if n == 0 {
    } else {
      hide Round, Rounds, Downwards, EncipherWith;
      AfterRounds(f, p, b, n - 1);
      var m := ROUNDS - n;
      RoundsOneMore(f, p, m, b);
      DownwardsOneMore(f, p, n, EncipherWith(f, p, b));
      RoundOff(f, Rounds(f, p[..m], b), p[m], p[m + 1], p[m + 2]);
    }
  }

  lemma DecipherUndoesEncipher(f: bv32 -> bv32, p: seq<bv32>, b: Pair)
    requires |p| == ROUNDS + 2
    ensures DecipherWith(f, p, EncipherWith(f, p, b)) == b
  {
    hide Xor32;
    AfterRounds(f, p, b, ROUNDS);
    XorCancel32(b.l, p[0]);
    XorCancel32(b.r, p[1]);
  }

  /** Decryption is encryption under the P-array read backwards. */
  lemma DecipherIsReversedEncipher(f: bv32 -> bv32, p: seq<bv32>, b: Pair)
    requires |p| == ROUNDS + 2
    ensures DecipherWith(f, p, b) == EncipherWith(f, Reversed(p), b)
    ensures EncipherWith(f, p, b) == DecipherWith(f, Reversed(p), b)
  {
    hide Xor32;
    assert Downwards(p, ROUNDS) == Reversed(p)[..ROUNDS];
    assert Downwards(Reversed(p), ROUNDS) == p[..ROUNDS];
  }

  lemma EncipherUndoesDecipher(f: bv32 -> bv32, p: seq<bv32>, b: Pair)
    requires |p| == ROUNDS + 2
    ensures EncipherWith(f, p, DecipherWith(f, p, b)) == b
  {
    DecipherIsReversedEncipher(f, p, b);
    DecipherIsReversedEncipher(f, p, DecipherWith(f, p, b));
    DecipherUndoesEncipher(f, Reversed(p), b);
  }

  // ---- the keyed tables ----

  /** The mixed P-array and the four mixed S-boxes, row after row as they lie in memory. */
  datatype Tables = Tables(p: seq<bv32>, s: seq<bv32>)

  type Keyed = t: Tables | |t.p| == ROUNDS + 2 && |t.s| == 1024
    witness Tables(seq(18, i => 0), seq(1024, i => 0))

  /** The S-box entry of a row selected by one byte of the word. */
  function Entry(s: seq<bv32>, row: nat, octet: bv8): bv32
    requires |s| == 1024 && row < 4
  {
    s[256 * row + (octet as nat)]
  }

  function F(s: seq<bv32>, x: bv32): bv32
    requires |s| == 1024
  {
    Add32(Xor32(Add32(Entry(s, 0, Octet(x, 24)), Entry(s, 1, Octet(x, 16))), Entry(s, 2, Octet(x, 8))), Entry(s, 3, Octet(x, 0)))
  }

  /** The four bytes of the word, most significant first, select from the four S-boxes, 256 words each. */
  lemma FOfBytes(s: seq<bv32>, b0: bv8, b1: bv8, b2: bv8, b3: bv8)
    requires |s| == 1024
    ensures F(s, LoadWord(b0, b1, b2, b3))
            == Add32(Xor32(Add32(s[b0 as nat], s[256 + b1 as nat]), s[512 + b2 as nat]), s[768 + b3 as nat])
  {
    hide Octet, LoadWord, Add32, Xor32;
    OctetsLoadWord(b0, b1, b2, b3);
  }

  function RoundFunction(t: Keyed): bv32 -> bv32 {
    x => F(t.s, x)
  }

  function EncipherPair(t: Keyed, b: Pair): Pair {
    EncipherWith(RoundFunction(t), t.p, b)
  }

  function DecipherPair(t: Keyed, b: Pair): Pair {
    DecipherWith(RoundFunction(t), t.p, b)
  }

  /** For any contents of the tables, each direction undoes the other. */
  lemma BlockRoundTrip(t: Keyed, b: Pair)
    ensures DecipherPair(t, EncipherPair(t, b)) == b
    ensures EncipherPair(t, DecipherPair(t, b)) == b
  {
    DecipherUndoesEncipher(RoundFunction(t), t.p, b);
    EncipherUndoesDecipher(RoundFunction(t), t.p, b);
  }

  /** The block cipher on bytes. */
  function BlockFunction(t: Keyed): Block -> Block {
    b => Store(EncipherPair(t, Load(b)))
  }

  /** The stream a key drives. */
  function KeyStream(t: Keyed): Stream<Register, bv8> {
    Cfb(BlockFunction(t), Xor)
  }

  lemma StreamOf(t: Keyed, b: Block)
    ensures KeyStream(t) == Cfb(BlockFunction(t), Xor) && BlockFunction(t)(b) == Store(EncipherPair(t, Load(b)))
  {
  }

  /** Byte by byte: the plaintext byte xor the byte of the enciphered ciphertext block before it. */
  lemma CipherBytes(t: Keyed, iv: Block, plain: seq<Block>, out: seq<bv8>, before: Block, j: nat, k: nat)
    requires j < |plain| && k < 8 && out == Feedback.Encrypt(KeyStream(t), Register(iv, 0), Bytes(plain)).out
    requires IsBefore(before, iv, out, j)
    ensures |out| == 8 * |plain| && out[8 * j + k] == plain[j][k] ^ Store(EncipherPair(t, Load(before)))[k]
  {
    hide *;
    StreamOf(t, before);
    StreamBytes(BlockFunction(t), iv, plain, out, before, j, k);
  }

  // ---- the key schedule ----

  function PushOctet(data: bv32, octet: bv8): bv32 {
    (data << 8) | (octet as bv32)
  }

  /** The seed read cyclically. */
  function SeedAt(seed: seq<uint8>, i: nat): uint8
    requires seed != []
  {
    seed[i % |seed|]
  }

  function SeedByte(seed: seq<uint8>, i: nat): bv8
    requires seed != []
  {
    Byte(SeedAt(seed, i))
  }

  /** The first `n` of the four seed bytes from position `x` on, the seed read cyclically. */
  function SeedWord(seed: seq<uint8>, x: nat, n: nat): bv32
    requires seed != []
  {
    if n == 0 then 0 else PushOctet(SeedWord(seed, x, n - 1), SeedByte(seed, x + n - 1))
  }

  lemma FourOctets(b0: bv8, b1: bv8, b2: bv8, b3: bv8)
    ensures PushOctet(PushOctet(PushOctet(PushOctet(0, b0), b1), b2), b3) == LoadWord(b0, b1, b2, b3)
  {
  }

  /** Four bytes of the seed, read cyclically, the first one most significant. */
  lemma SeedWordIsLoad(seed: seq<uint8>, x: nat)
    requires seed != []
    ensures SeedWord(seed, x, 4)
            == LoadWord(SeedByte(seed, x), SeedByte(seed, x + 1), SeedByte(seed, x + 2), SeedByte(seed, x + 3))
  {
    hide PushOctet, LoadWord, SeedByte;
    FourOctets(SeedByte(seed, x), SeedByte(seed, x + 1), SeedByte(seed, x + 2), SeedByte(seed, x + 3));
    assert SeedWord(seed, x, 1) == PushOctet(0, SeedByte(seed, x));
    assert SeedWord(seed, x, 2) == PushOctet(SeedWord(seed, x, 1), SeedByte(seed, x + 1));
    assert SeedWord(seed, x, 3) == PushOctet(SeedWord(seed, x, 2), SeedByte(seed, x + 2));
  }

  lemma WordTells(a0: bv8, a1: bv8, a2: bv8, a3: bv8, b0: bv8, b1: bv8, b2: bv8, b3: bv8)
    requires LoadWord(a0, a1, a2, a3) == LoadWord(b0, b1, b2, b3)
    ensures a0 == b0 && a1 == b1 && a2 == b2 && a3 == b3
  {
    hide LoadWord, Octet;
    OctetsLoadWord(a0, a1, a2, a3);
    OctetsLoadWord(b0, b1, b2, b3);
  }

  lemma ByteTells(x: uint8, y: uint8)
    requires Byte(x) == Byte(y)
    ensures x == y
  {
    hide Byte;
    assert Byte(x) as nat == x && Byte(y) as nat == y;
  }

  lemma SeedByteTells(seed: seq<uint8>, other: seq<uint8>, i: nat)
    requires seed != [] && other != [] && SeedByte(seed, i) == SeedByte(other, i)
    ensures seed[i % |seed|] == other[i % |other|]
  {
    ByteTells(SeedAt(seed, i), SeedAt(other, i));
  }

  /** A seed word tells its four bytes. */
  lemma SeedWordTells(seed: seq<uint8>, other: seq<uint8>, x: nat, k: nat)
    requires seed != [] && other != [] && k < 4 && SeedWord(seed, x, 4) == SeedWord(other, x, 4)
    ensures seed[(x + k) % |seed|] == other[(x + k) % |other|]
  {
    hide *;
    SeedWordIsLoad(seed, x);
    SeedWordIsLoad(other, x);
    WordTells(SeedByte(seed, x), SeedByte(seed, x + 1), SeedByte(seed, x + 2), SeedByte(seed, x + 3),
              SeedByte(other, x), SeedByte(other, x + 1), SeedByte(other, x + 2), SeedByte(other, x + 3));
    assert SeedByte(seed, x + k) == SeedByte(other, x + k);
    SeedByteTells(seed, other, x + k);
  }

  /** The P-array once its first `n` words were mixed with the seed. */
  function Mixed(p: seq<bv32>, seed: seq<uint8>, n: nat): (r: seq<bv32>)
    requires seed != [] && n <= |p|
    ensures |r| == |p|
  {
    seq(|p|, i requires 0 <= i < |p| => if i < n then Xor32(p[i], SeedWord(seed, 4 * i, 4)) else p[i])
  }

  /** The byte is the one at a position of the seed, read cyclically. */
  predicate IsSeedByte(b: bv8, seed: seq<uint8>, i: nat)
    requires seed != []
  {
    b as nat == seed[i % |seed|]
  }

  lemma SeedByteIs(b: bv8, seed: seq<uint8>, i: nat)
    requires seed != [] && IsSeedByte(b, seed, i)
    ensures SeedByte(seed, i) == b
  {
    hide Byte;
    assert Byte(SeedAt(seed, i)) as nat == b as nat;
  }

  /** The i-th word of the P-array is mixed with four bytes of the seed, from byte 4 i on, the first one most significant. */
  lemma MixedWord(p: seq<bv32>, seed: seq<uint8>, i: nat, b0: bv8, b1: bv8, b2: bv8, b3: bv8)
    requires |p| == 18 && seed != [] && i < 18
    requires IsSeedByte(b0, seed, 4 * i) && IsSeedByte(b1, seed, 4 * i + 1) && IsSeedByte(b2, seed, 4 * i + 2) && IsSeedByte(b3, seed, 4 * i + 3)
    ensures Mixed(p, seed, 18)[i] == Xor32(p[i], LoadWord(b0, b1, b2, b3))
  {
    hide LoadWord, SeedWord, SeedByte, IsSeedByte, Xor32;
    SeedWordIsLoad(seed, 4 * i);
    SeedByteIs(b0, seed, 4 * i);
    SeedByteIs(b1, seed, 4 * i + 1);
    SeedByteIs(b2, seed, 4 * i + 2);
    SeedByteIs(b3, seed, 4 * i + 3);
  }

  /** Two seeds of at most 72 bytes mix the P-array alike if and only if they repeat to the same 72 bytes. */
  lemma MixedAlikeIff(p: seq<bv32>, seed: seq<uint8>, other: seq<uint8>)
    requires |p| == 18 && 0 < |seed| <= 72 && 0 < |other| <= 72
    ensures Mixed(p, seed, 18) == Mixed(p, other, 18) <==> forall i :: 0 <= i < 72 ==> seed[i % |seed|] == other[i % |other|]
  {
    if Mixed(p, seed, 18) == Mixed(p, other, 18) {
      forall i | 0 <= i < 72
        ensures seed[i % |seed|] == other[i % |other|]
      {
        MixedTells(p, seed, other, i / 4, i % 4);
      }
    }
    if forall i :: 0 <= i < 72 ==> seed[i % |seed|] == other[i % |other|] {
      SameMixed(p, seed, other);
    }
  }

  lemma MixedTells(p: seq<bv32>, seed: seq<uint8>, other: seq<uint8>, i: nat, k: nat)
    requires |p| == 18 && seed != [] && other != [] && i < 18 && k < 4 && Mixed(p, seed, 18) == Mixed(p, other, 18)
    ensures seed[(4 * i + k) % |seed|] == other[(4 * i + k) % |other|]
  {
    hide Xor32, SeedWord;
    assert Xor32(p[i], SeedWord(seed, 4 * i, 4)) == Mixed(p, seed, 18)[i] == Xor32(p[i], SeedWord(other, 4 * i, 4));
    XorTells(p[i], SeedWord(seed, 4 * i, 4), SeedWord(other, 4 * i, 4));
    SeedWordTells(seed, other, 4 * i, k);
  }

  lemma XorTells(x: bv32, y: bv32, z: bv32)
    ensures Xor32(x, y) == Xor32(x, z) ==> y == z
  {
  }

  /** Store the n-th pair of words: nine pairs fill the P-array, the others the S-boxes. */
  function Put(t: Keyed, n: nat, b: Pair): Keyed
    requires n < 521
  {
    if n < 9 then t.(p := t.p[2 * n := b.l][2 * n + 1 := b.r])
    else t.(s := t.s[2 * (n - 9) := b.l][2 * (n - 9) + 1 := b.r])
  }

  datatype Filling = Filling(t: Keyed, b: Pair)

  /** The tables and the chained block after `n` pairs. */
  function Filled(t: Keyed, n: nat): Filling
    requires n <= 521
  {
    if n == 0 then Filling(t, Pair(0, 0))
    else
      var before := Filled(t, n - 1);
      var b := EncipherPair(before.t, before.b);
      Filling(Put(before.t, n - 1, b), b)
  }

  lemma FilledOneMore(t: Keyed, n: nat, now: Keyed, b: Pair)
    requires n < 521 && Filled(t, n) == Filling(now, b)
    ensures Filled(t, n + 1) == Filling(Put(now, n, EncipherPair(now, b)), EncipherPair(now, b))
  {
    hide Put, EncipherPair;
  }

  /** The key a seed gives: at most 72 bytes of it are read. */
  function Schedule(initial: Keyed, seed: seq<uint8>): Keyed
    requires seed != []
  {
    var used := if |seed| > KEY_SIZE then seed[..KEY_SIZE] else seed;
    Filled(initial.(p := Mixed(initial.p, used, ROUNDS + 2)), 521).t
  }

  // ---- the key schedule, table word by table word ----

  /** Word `i` of the 1042 words of the tables once `n` pairs were stored: half of a pair, or as it was. */
  function Over(word: bv32, bs: seq<Pair>, n: nat, i: nat): bv32
    requires n < |bs|
  {
    if i >= 2 * n then word else if i % 2 == 0 then bs[i / 2 + 1].l else bs[i / 2 + 1].r
  }

  function Overlay(t: Keyed, bs: seq<Pair>, n: nat): Keyed
    requires n < |bs|
  {
    Tables(seq(18, i requires 0 <= i < 18 => Over(t.p[i], bs, n, i)), seq(1024, i requires 0 <= i < 1024 => Over(t.s[i], bs, n, 18 + i)))
  }

  /** The chain of pairs: zero, then each one enciphered under the tables with all pairs before it in place. */
  ghost predicate IsChain(t: Keyed, bs: seq<Pair>) {
    && |bs| == 522
    && bs[0] == Pair(0, 0)
    && forall n, next :: 0 <= n < next < 522 && next == n + 1 ==> bs[next] == EncipherPair(Overlay(t, bs, n), bs[n])
  }

  lemma OverlayMore(t: Keyed, bs: seq<Pair>, n: nat)
    requires |bs| == 522 && n < 521
    ensures Put(Overlay(t, bs, n), n, bs[n + 1]) == Overlay(t, bs, n + 1)
  {
    var a, b := Put(Overlay(t, bs, n), n, bs[n + 1]), Overlay(t, bs, n + 1);
    assert a.p == b.p;
    assert a.s == b.s;
  }

  lemma {:induction false} FilledIsOverlay(t: Keyed, bs: seq<Pair>, n: nat)
    requires IsChain(t, bs) && n <= 521
    ensures Filled(t, n) == Filling(Overlay(t, bs, n), bs[n])
  {
    if n == 0 {
      assert Overlay(t, bs, 0).p == t.p && Overlay(t, bs, 0).s == t.s;
    } else {
      FilledIsOverlay(t, bs, n - 1);
      OverlayMore(t, bs, n - 1);
      hide Put, Overlay, EncipherPair;
    }
  }

  /** The 521 pairs of the chain, in order, are the whole of the P-array and the S-boxes of the key. */
  lemma ScheduleIsChain(initial: Keyed, seed: seq<uint8>, bs: seq<Pair>)
    requires 0 < |seed| <= 72 && IsChain(initial.(p := Mixed(initial.p, seed, 18)), bs)
    ensures var t := Schedule(initial, seed);
            && (forall i :: 0 <= i < 18 ==> t.p[i] == if i % 2 == 0 then bs[i / 2 + 1].l else bs[i / 2 + 1].r)
            && (forall i :: 0 <= i < 1024 ==> t.s[i] == if i % 2 == 0 then bs[i / 2 + 10].l else bs[i / 2 + 10].r)
  {
    hide Filled, Mixed, IsChain;
    FilledIsOverlay(initial.(p := Mixed(initial.p, seed, 18)), bs, 521);
  }

  // ---- which seeds give the same key ----

  lemma {:induction false} SameSeedWord(seed: seq<uint8>, other: seq<uint8>, x: nat, n: nat)
    requires seed != [] && other != [] && x + n <= KEY_SIZE
    requires forall i :: 0 <= i < KEY_SIZE ==> seed[i % |seed|] == other[i % |other|]
    ensures SeedWord(seed, x, n) == SeedWord(other, x, n)
  {
    hide PushOctet;
    if n == 0 {
    } else {
      SameSeedWord(seed, other, x, n - 1);
      var i := x + n - 1;
      assert seed[i % |seed|] == other[i % |other|];
    }
  }

  lemma SameMixed(p: seq<bv32>, seed: seq<uint8>, other: seq<uint8>)
    requires |p| == 18 && seed != [] && other != []
    requires forall i :: 0 <= i < KEY_SIZE ==> seed[i % |seed|] == other[i % |other|]
    ensures Mixed(p, seed, 18) == Mixed(p, other, 18)
  {
    forall i | 0 <= i < 18
      ensures SeedWord(seed, 4 * i, 4) == SeedWord(other, 4 * i, 4)
    {
      SameSeedWord(seed, other, 4 * i, 4);
    }
  }

  /** Seeds that repeat to the same 72 bytes give the same key. */
  lemma CyclicSeed(initial: Keyed, seed: seq<uint8>, other: seq<uint8>)
    requires 0 < |seed| <= KEY_SIZE && 0 < |other| <= KEY_SIZE
    requires forall i :: 0 <= i < KEY_SIZE ==> seed[i % |seed|] == other[i % |other|]
    ensures Schedule(initial, seed) == Schedule(initial, other)
  {
    SameMixed(initial.p, seed, other);
  }

  /** Bytes past the 72nd never reach the key. */
  lemma SeedBeyondLimit(initial: Keyed, seed: seq<uint8>, tail: seq<uint8>)
    requires |seed| == KEY_SIZE
    ensures Schedule(initial, seed + tail) == Schedule(initial, seed)
  {
    assert (seed + tail)[..KEY_SIZE] == seed;
    assert seed[..KEY_SIZE] == seed;
    if tail == [] {
      assert seed + tail == seed;
    }
  }

  // ---- the cipher object ----

  class Cipher {
    const initial: Keyed
    const mP: array<bv32>
    const mS: array<bv32>
    const mEnIV: array<bv8>
    const mDeIV: array<bv8>
    var mEnNum: int
    var mDeNum: int

    ghost predicate Valid()
      reads this
    {
      && mP.Length == ROUNDS + 2 && mS.Length == 1024
      && mEnIV.Length == mDeIV.Length == 8 && mEnIV != mDeIV
      && 0 <= mEnNum < 8 && 0 <= mDeNum < 8
    }

    ghost function CurrentKey(): Keyed
      requires Valid()
      reads this, mP, mS
    {
      Tables(mP[..], mS[..])
    }

    ghost function EncryptRegister(): Register
      requires Valid()
      reads this, mEnIV
    {
      Register(mEnIV[..], mEnNum)
    }

    ghost function DecryptRegister(): Register
      requires Valid()
      reads this, mDeIV
    {
      Register(mDeIV[..], mDeNum)
    }

    constructor (initial: Keyed)
      ensures Valid() && this.initial == initial
      ensures fresh(mP) && fresh(mS) && fresh(mEnIV) && fresh(mDeIV)
      ensures CurrentKey() == initial
      ensures EncryptRegister() == DecryptRegister() == Register(seq(8, i => 0), 0)
    {
      this.initial := initial;
      mP := new bv32[18](i requires 0 <= i < 18 => initial.p[i]);
      mS := new bv32[1024](i requires 0 <= i < 1024 => initial.s[i]);
      mEnIV := new bv8[8](i => 0);
      mDeIV := new bv8[8](i => 0);
      mEnNum, mDeNum := 0, 0;
      new;
      assert mP[..] == initial.p && mS[..] == initial.s;
      assert mEnIV[..] == mDeIV[..] == seq(8, i => 0);
    }

    method Encipher(aBlock: array<bv32>)
      requires Valid() && aBlock.Length == 2
      modifies aBlock
      ensures Pair(aBlock[0], aBlock[1]) == EncipherPair(CurrentKey(), old(Pair(aBlock[0], aBlock[1])))
    {
      hide Xor32, F;
      var lv, rv := aBlock[0], aBlock[1];
      ghost var start, f, p := Pair(lv, rv), RoundFunction(CurrentKey()), mP[..];
      for i := 0 to ROUNDS
        invariant Pair(lv, rv) == Rounds(f, p[..i], start)
      {
        lv := Xor32(lv, mP[i]);
        rv := Xor32(rv, F(mS[..], lv));
        lv, rv := rv, lv;
        assert p[..i + 1][..i] == p[..i];
      }
      lv := Xor32(lv, mP[ROUNDS]);
      rv := Xor32(rv, mP[ROUNDS + 1]);
      aBlock[0] := rv;
      aBlock[1] := lv;
    }

    method Decipher(aBlock: array<bv32>)
      requires Valid() && aBlock.Length == 2
      modifies aBlock
      ensures Pair(aBlock[0], aBlock[1]) == DecipherPair(CurrentKey(), old(Pair(aBlock[0], aBlock[1])))
    {
      hide Xor32, F, Rounds, Downwards;
      var lv, rv := aBlock[0], aBlock[1];
      ghost var start, f, p := Pair(lv, rv), RoundFunction(CurrentKey()), mP[..];
      DownwardsNothing(f, p, start);
      var i := ROUNDS + 1;
      while i > 1
        invariant 1 <= i <= ROUNDS + 1
        invariant Pair(lv, rv) == Rounds(f, Downwards(p, ROUNDS + 1 - i), start)
      {
        ghost var n := ROUNDS + 1 - i;
        DownwardsOneMore(f, p, n + 1, start);
        lv := Xor32(lv, mP[i]);
        rv := Xor32(rv, F(mS[..], lv));
        lv, rv := rv, lv;
        i := i - 1;
      }
      lv := Xor32(lv, mP[1]);
      rv := Xor32(rv, mP[0]);
      aBlock[0] := rv;
      aBlock[1] := lv;
    }

    /** swap_block, encipher, swap_block: the register is read and written big-endian. */
    method EncipherBytes(aIV: array<bv8>)
      requires Valid() && aIV.Length == 8
      modifies aIV
      ensures aIV[..] == BlockFunction(CurrentKey())(old(aIV[..]))
    {
      ghost var before: Block := aIV[..];
      var words := new bv32[2];
      words[0] := LoadWord(aIV[0], aIV[1], aIV[2], aIV[3]);
      words[1] := LoadWord(aIV[4], aIV[5], aIV[6], aIV[7]);
      assert Pair(words[0], words[1]) == Load(before);
      Encipher(words);
      var after := Store(Pair(words[0], words[1]));
      for i := 0 to 8
        invariant aIV[..i] == after[..i]
      {
        aIV[i] := after[i];
      }
      assert aIV[..] == aIV[..8] == after[..8] == after;
    }

    /** The body of the encryption loop on the register: one byte in, one byte out. */
    method EncryptOctet(octet: bv8) returns (val: bv8)
      requires Valid()
      modifies mEnIV, `mEnNum
      ensures Valid()
      ensures val == Xor(octet, Cfb64.Key(BlockFunction(CurrentKey()), old(EncryptRegister())))
      ensures EncryptRegister() == Feed(BlockFunction(CurrentKey()), old(EncryptRegister()), val)
    {
      hide BlockFunction;
      ghost var E, s := BlockFunction(CurrentKey()), EncryptRegister();
      if mEnNum == 0 {
        EncipherBytes(mEnIV);
      }
      assert mEnIV[..] == Refreshed(E, s);
      val := Xor(octet, mEnIV[mEnNum]);
      mEnIV[mEnNum] := val;
      mEnNum := (mEnNum + 1) % 8;
    }

    method Encrypt(aBuf: array<bv8>, aOff: nat, aLen: nat)
      requires Valid() && aOff + aLen <= aBuf.Length && aBuf != mEnIV && aBuf != mDeIV
      modifies aBuf, mEnIV, `mEnNum
      ensures Valid()
      ensures var r := Feedback.Encrypt(KeyStream(CurrentKey()), old(EncryptRegister()), old(aBuf[aOff..aOff + aLen]));
              && aBuf[..] == old(aBuf[..aOff]) + r.out + old(aBuf[aOff + aLen..])
              && EncryptRegister() == r.register
    {
      hide BlockFunction, EncryptedTo, Cfb64.Key, Feed, Feedback.Encrypt;
      ghost var E, start, before := BlockFunction(CurrentKey()), EncryptRegister(), aBuf[..];
      EncryptedNothing(E, start, before, aOff);
      for i := 0 to aLen
        invariant Valid()
        invariant EncryptedTo(E, start, before, aBuf[..], aOff, aOff + i, EncryptRegister())
      {
        ghost var cur := aBuf[..];
        EncryptOneMore(E, start, before, cur, aOff, aOff + i, EncryptRegister());
        var val := EncryptOctet(aBuf[aOff + i]);
        aBuf[aOff + i] := val;
        assert aBuf[..] == cur[aOff + i := val];
      }
      EncryptedMeans(E, start, before, aBuf[..], aOff, aOff + aLen, EncryptRegister());
    }

    /** The body of the decryption loop on the register: one byte in, one byte out. */
    method DecryptOctet(octet: bv8) returns (val: bv8)
      requires Valid()
      modifies mDeIV, `mDeNum
      ensures Valid()
      ensures val == Xor(octet, Cfb64.Key(BlockFunction(CurrentKey()), old(DecryptRegister())))
      ensures DecryptRegister() == Feed(BlockFunction(CurrentKey()), old(DecryptRegister()), octet)
    {
      hide BlockFunction;
      ghost var E, s := BlockFunction(CurrentKey()), DecryptRegister();
      if mDeNum == 0 {
        EncipherBytes(mDeIV);
      }
      assert mDeIV[..] == Refreshed(E, s);
      val := Xor(octet, mDeIV[mDeNum]);
      mDeIV[mDeNum] := octet;
      mDeNum := (mDeNum + 1) % 8;
    }

    method Decrypt(aBuf: array<bv8>, aOff: nat, aLen: nat)
      requires Valid() && aOff + aLen <= aBuf.Length && aBuf != mEnIV && aBuf != mDeIV
      modifies aBuf, mDeIV, `mDeNum
      ensures Valid()
      ensures var r := Feedback.Decrypt(KeyStream(CurrentKey()), old(DecryptRegister()), old(aBuf[aOff..aOff + aLen]));
              && aBuf[..] == old(aBuf[..aOff]) + r.out + old(aBuf[aOff + aLen..])
              && DecryptRegister() == r.register
    {
      hide BlockFunction, DecryptedTo, Cfb64.Key, Feed, Feedback.Decrypt;
      ghost var E, start, before := BlockFunction(CurrentKey()), DecryptRegister(), aBuf[..];
      DecryptedNothing(E, start, before, aOff);
      for i := 0 to aLen
        invariant Valid()
        invariant DecryptedTo(E, start, before, aBuf[..], aOff, aOff + i, DecryptRegister())
      {
        ghost var cur := aBuf[..];
        DecryptOneMore(E, start, before, cur, aOff, aOff + i, DecryptRegister());
        var val := DecryptOctet(aBuf[aOff + i]);
        aBuf[aOff + i] := val;
        assert aBuf[..] == cur[aOff + i := val];
      }
      DecryptedMeans(E, start, before, aBuf[..], aOff, aOff + aLen, DecryptRegister());
    }

    /** Each vector that is given replaces its register and rewinds its position; the other is kept. */
    method SetIVs(aEncIV: array?<bv8>, aDecIV: array?<bv8>)
      requires Valid()
      requires aEncIV != null ==> aEncIV.Length == 8 && aEncIV != mEnIV && aEncIV != mDeIV
      requires aDecIV != null ==> aDecIV.Length == 8 && aDecIV != mEnIV && aDecIV != mDeIV
      modifies mEnIV, mDeIV, `mEnNum, `mDeNum
      ensures Valid()
      ensures EncryptRegister() == if aEncIV == null then old(EncryptRegister()) else Register(aEncIV[..], 0)
      ensures DecryptRegister() == if aDecIV == null then old(DecryptRegister()) else Register(aDecIV[..], 0)
    {
      if aEncIV != null {
        forall i | 0 <= i < 8 { mEnIV[i] := aEncIV[i]; }
        mEnNum := 0;
        assert mEnIV[..] == aEncIV[..];
      }
      if aDecIV != null {
        forall i | 0 <= i < 8 { mDeIV[i] := aDecIV[i]; }
        mDeNum := 0;
        assert mDeIV[..] == aDecIV[..];
      }
    }

    /** The next word of the seed, four bytes read cyclically from position `x`. */
    method ReadSeed(aSeed: seq<uint8>, x: nat) returns (data: bv32)
      requires aSeed != []
      ensures data == SeedWord(aSeed, x, 4)
    {
      hide PushOctet;
      data := 0;
      for n := 0 to 4
        invariant data == SeedWord(aSeed, x, n)
      {
        data := PushOctet(data, Byte(aSeed[(x + n) % |aSeed|]));
      }
    }

    /** Start again from the initial tables and mix the seed into the P-array. */
    method MixSeed(aSeed: seq<uint8>)
      requires Valid() && aSeed != []
      modifies mP, mS
      ensures CurrentKey() == initial.(p := Mixed(initial.p, aSeed, ROUNDS + 2))
    {
      hide Xor32, SeedWord;
      forall i | 0 <= i < ROUNDS + 2 { mP[i] := initial.p[i]; }
      forall i | 0 <= i < 1024 { mS[i] := initial.s[i]; }
      assert mS[..] == initial.s;
      for i := 0 to ROUNDS + 2
        invariant forall j :: 0 <= j < i ==> mP[j] == Xor32(initial.p[j], SeedWord(aSeed, 4 * j, 4))
        invariant forall j :: i <= j < ROUNDS + 2 ==> mP[j] == initial.p[j]
        invariant mS[..] == initial.s
      {
        var data := ReadSeed(aSeed, 4 * i);
        mP[i] := Xor32(mP[i], data);
      }
      assert mP[..] == Mixed(initial.p, aSeed, ROUNDS + 2);
    }

    /** Replace the P-array, two words at a time, by the chained block. */
    method FillP(aBlock: array<bv32>, ghost t: Keyed)
      requires Valid() && aBlock.Length == 2 && aBlock[0] == aBlock[1] == 0
      requires CurrentKey() == t
      modifies mP, aBlock
      ensures Filled(t, 9) == Filling(CurrentKey(), Pair(aBlock[0], aBlock[1]))
    {
      hide EncipherPair;
      var i := 0;
      while i < ROUNDS + 2
        invariant 0 <= i <= ROUNDS + 2 && i % 2 == 0
        invariant Filled(t, i / 2) == Filling(CurrentKey(), Pair(aBlock[0], aBlock[1]))
      {
        Encipher(aBlock);
        mP[i] := aBlock[0];
        mP[i + 1] := aBlock[1];
        i := i + 2;
      }
    }

    /** Then one row of the S-boxes. */
    method FillRow(aBlock: array<bv32>, j: nat, ghost t: Keyed)
      requires Valid() && aBlock.Length == 2 && j < 4
      requires Filled(t, 9 + 128 * j) == Filling(CurrentKey(), Pair(aBlock[0], aBlock[1]))
      modifies mS, aBlock
      ensures Filled(t, 9 + 128 * (j + 1)) == Filling(CurrentKey(), Pair(aBlock[0], aBlock[1]))
    {
      hide EncipherPair, Filled;
      ghost var n := 9 + 128 * j;
      var k := 0;
      while k < 256
        invariant 0 <= k <= 256 && k % 2 == 0
        invariant n == 9 + 128 * j + k / 2
        invariant Filled(t, n) == Filling(CurrentKey(), Pair(aBlock[0], aBlock[1]))
      {
        FilledOneMore(t, n, CurrentKey(), Pair(aBlock[0], aBlock[1]));
        Encipher(aBlock);
        ghost var before := mS[..];
        mS[256 * j + k] := aBlock[0];
        mS[256 * j + k + 1] := aBlock[1];
        assert 256 * j + k == 2 * (n - 9);
        assert mS[..] == before[2 * (n - 9) := aBlock[0]][2 * (n - 9) + 1 := aBlock[1]];
        k, n := k + 2, n + 1;
      }
    }

    /**
      * Whatever the cipher held before, the tables become those of the seed. Neither register nor position
      * is touched.
      */
    method GenerateKey(aSeed: seq<uint8>)
      requires Valid() && aSeed != []
      modifies mP, mS
      ensures Valid()
      ensures CurrentKey() == Schedule(initial, aSeed)
    {
      hide EncipherPair, Mixed, Filled;
      MixSeed(if |aSeed| > KEY_SIZE then aSeed[..KEY_SIZE] else aSeed);
      ghost var t := CurrentKey();
      var block := new bv32[2](i => 0);
      FillP(block, t);
      for j := 0 to 4
        invariant Filled(t, 9 + 128 * j) == Filling(CurrentKey(), Pair(block[0], block[1]))
      {
        FillRow(block, j, t);
      }
    }
  }
}
