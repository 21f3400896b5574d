/** The CAST-128 block cipher (RFC 2144), the form the server computes it in, and its CFB64 stream. */
module Cast5 {
  import opened Rotation
  import opened Words
  import opened Feedback
  import opened Cfb64

  const ROUNDS := 16
  const KEY_SIZE := 16

  /** The eight S-boxes, row after row as they lie in memory. */
  type Boxes = s: seq<bv32> | |s| == 2048 witness seq(2048, i => 0)

  function Entry(s: Boxes, row: nat, octet: bv8): bv32
    requires row < 8
  {
    s[256 * row + (octet as nat)]
  }

  /** The key schedule's output: sixteen masking words, then sixteen rotation words. */
  type Subkeys = k: seq<bv32> | |k| == 2 * KEY_SIZE witness seq(32, i => 0)

  // ---- the standard: section 2.2 of RFC 2144 ----

  /** How round `i` masks the data half before the rotation. */
  function RfcMask(i: nat, km: bv32, d: bv32): bv32 {
    if i % 3 == 0 then Add32(km, d) else if i % 3 == 1 then Xor32(km, d) else Sub32(km, d)
  }

  /** How round `i` combines the four S-box words. */
  function RfcCombine(i: nat, a: bv32, b: bv32, c: bv32, e: bv32): bv32 {
    if i % 3 == 0 then Add32(Sub32(Xor32(a, b), c), e)
    else if i % 3 == 1 then Xor32(Add32(Sub32(a, b), c), e)
    else Sub32(Xor32(Add32(a, b), c), e)
  }

  /** The rotated word I of round `i`: five bits of the rotation word count. */
  function RfcI(k: Subkeys, i: nat, d: bv32): bv32
    requires i < ROUNDS
  {
    Rotl(RfcMask(i, k[i], d), k[KEY_SIZE + i] & 0x1F)
  }

  /** The three round functions, chosen by the round number; the S-boxes read I from its top byte down. */
  function RfcF(s: Boxes, k: Subkeys, i: nat, d: bv32): bv32
    requires i < ROUNDS
  {
    var I := RfcI(k, i, d);
    RfcCombine(i, Entry(s, 0, Octet(I, 24)), Entry(s, 1, Octet(I, 16)), Entry(s, 2, Octet(I, 8)), Entry(s, 3, Octet(I, 0)))
  }

  /** The rotated words of the three round types. */
  lemma RotatedWords(k: Subkeys, i: nat, d: bv32)
    requires i < 16
    ensures i % 3 == 0 ==> RfcI(k, i, d) == Rotl(Add32(k[i], d), k[16 + i] & 31)
    ensures i % 3 == 1 ==> RfcI(k, i, d) == Rotl(Xor32(k[i], d), k[16 + i] & 31)
    ensures i % 3 == 2 ==> RfcI(k, i, d) == Rotl(Sub32(k[i], d), k[16 + i] & 31)
  {
    hide Add32, Xor32, Sub32, Rotl;
  }

  /** Their combinations of the first four S-boxes, 256 words each, by the bytes of that word from the top down. */
  lemma RoundsOfBytes(s: Boxes, k: Subkeys, i: nat, d: bv32, b0: bv8, b1: bv8, b2: bv8, b3: bv8)
    requires i < 16 && RfcI(k, i, d) == LoadWord(b0, b1, b2, b3)
    ensures var s1, s2, s3, s4 := s[b0 as nat], s[256 + b1 as nat], s[512 + b2 as nat], s[768 + b3 as nat];
            && (i % 3 == 0 ==> RfcF(s, k, i, d) == Add32(Sub32(Xor32(s1, s2), s3), s4))
            && (i % 3 == 1 ==> RfcF(s, k, i, d) == Xor32(Add32(Sub32(s1, s2), s3), s4))
            && (i % 3 == 2 ==> RfcF(s, k, i, d) == Sub32(Xor32(Add32(s1, s2), s3), s4))
  {
    hide RfcI, RfcF, LoadWord, Add32, Xor32, Sub32;
    RoundOfBytes(s, k, i, d, b0, b1, b2, b3);
  }

  lemma RoundOfBytes(s: Boxes, k: Subkeys, i: nat, d: bv32, b0: bv8, b1: bv8, b2: bv8, b3: bv8)
    requires i < 16 && RfcI(k, i, d) == LoadWord(b0, b1, b2, b3)
    ensures RfcF(s, k, i, d) == RfcCombine(i, s[b0 as nat], s[256 + b1 as nat], s[512 + b2 as nat], s[768 + b3 as nat])
  {
    hide RfcI, RfcCombine, Octet, LoadWord;
    OctetsLoadWord(b0, b1, b2, b3);
  }

  // ---- a Feistel network, for any round functions ----

  /** L, R := R, L xor f(R), once per round function. */
  function Network(fs: seq<bv32 -> bv32>, b: Pair): Pair {
    if fs == [] then b
    else
      var t := Network(fs[..|fs| - 1], b);
      Pair(t.r, Xor32(t.l, fs[|fs| - 1](t.r)))
  }

  /** The network with its halves exchanged at the end. */
  function Crypt(fs: seq<bv32 -> bv32>, b: Pair): Pair {
    var t := Network(fs, b);
    Pair(t.r, t.l)
  }

  lemma NetworkOfNothing(b: Pair)
    ensures Network([], b) == b
  {
  }

  /** One more round. */
  lemma NetworkStep(fs: seq<bv32 -> bv32>, f: bv32 -> bv32, b: Pair)
    ensures var t := Network(fs, b);
            Network(fs + [f], b) == Pair(t.r, Xor32(t.l, f(t.r)))
  {
    hide Xor32;
    assert (fs + [f])[..|fs|] == fs;
  }

  lemma {:induction false} PeelOff(fs: seq<bv32 -> bv32>, b: Pair, n: nat)
    requires n <= |fs|
    ensures var t := Network(fs[..|fs| - n], b);
            Network(Reversed(fs)[..n], Crypt(fs, b)) == Pair(t.r, t.l)
  {
    hide Xor32;
    if n == 0 {
      assert fs[..|fs|] == fs;
    } else {
      PeelOff(fs, b, n - 1);
      var m := |fs| - n;
      var t := Network(fs[..m], b);
      assert fs[..m + 1][..m] == fs[..m];
      assert Reversed(fs)[..n][..n - 1] == Reversed(fs)[..n - 1];
      XorCancel32(t.l, fs[m](t.r));
    }
  }

  /** Running the round functions backwards undoes the network. */
  lemma ReversedCryptUndoes(fs: seq<bv32 -> bv32>, b: Pair)
    ensures Crypt(Reversed(fs), Crypt(fs, b)) == b
    ensures Crypt(fs, Crypt(Reversed(fs), b)) == b
  {
    PeelOff(fs, b, |fs|);
    assert fs[..0] == [];
    assert Reversed(fs)[..|fs|] == Reversed(fs);
    PeelOff(Reversed(fs), b, |fs|);
    assert Reversed(fs)[..0] == [];
    assert Reversed(Reversed(fs)) == fs;
    assert fs[..|fs|] == fs;
  }

  /** The standard's network over `n` rounds. */
  function RfcRounds(s: Boxes, k: Subkeys, n: nat): (fs: seq<bv32 -> bv32>)
    requires n <= ROUNDS
    ensures |fs| == n
  {
    seq(n, i requires 0 <= i < n => (d: bv32) => RfcF(s, k, i, d))
  }

  /** CAST-128 with the sixteen rounds, or the twelve of a short key. */
  function RfcCast(s: Boxes, k: Subkeys, short: bool, b: Pair): Pair {
    Crypt(RfcRounds(s, k, if short then ROUNDS - 4 else ROUNDS), b)
  }

  /** The halves as one sequence: L0, R0, and each one the last but one xor the round function of the last. */
  ghost predicate AreHalves(a: seq<bv32>, fs: seq<bv32 -> bv32>, b: Pair) {
    && |a| == |fs| + 2
    && a[0] == b.l && a[1] == b.r
    && forall i :: 0 <= i < |fs| ==> a[i + 2] == Xor32(a[i], fs[i](a[i + 1]))
  }

  lemma {:induction false} NetworkReachesHalves(a: seq<bv32>, fs: seq<bv32 -> bv32>, b: Pair)
    requires AreHalves(a, fs, b)
    ensures Network(fs, b) == Pair(a[|fs|], a[|fs| + 1])
  {
    hide Xor32;
    if fs == [] {
    } else {
      var n := |fs| - 1;
      NetworkReachesHalves(a[..n + 2], fs[..n], b);
    }
  }

  /** The cipher is the last two halves exchanged, after sixteen rounds, or twelve with a short key. */
  lemma CastByHalves(a: seq<bv32>, s: Boxes, k: Subkeys, short: bool, b: Pair)
    requires AreHalves(a, RfcRounds(s, k, if short then 12 else 16), b)
    ensures RfcCast(s, k, short, b) == if short then Pair(a[13], a[12]) else Pair(a[17], a[16])
  {
    hide RfcF, Xor32, Network;
    NetworkReachesHalves(a, RfcRounds(s, k, if short then 12 else 16), b);
  }

  /** The cipher is a permutation: the same rounds in reverse order undo it. */
  lemma CastIsUndone(s: Boxes, k: Subkeys, short: bool, b: Pair)
    ensures var back := Reversed(RfcRounds(s, k, if short then ROUNDS - 4 else ROUNDS));
            && Crypt(back, RfcCast(s, k, short, b)) == b
            && RfcCast(s, k, short, Crypt(back, b)) == b
  {
    ReversedCryptUndoes(RfcRounds(s, k, if short then ROUNDS - 4 else ROUNDS), b);
  }

  // ---- the form the server computes ----

  /** Masking and rotation words interleaved, each rotation 16 further than the standard's. */
  function Biased(k: Subkeys): (m: seq<bv32>)
    ensures |m| == 2 * KEY_SIZE
  {
    seq(2 * KEY_SIZE, i requires 0 <= i < 2 * KEY_SIZE =>
      if i % 2 == 0 then k[i / 2] else (k[KEY_SIZE + i / 2] + 16) & 0x1F)
  }

  function CastOp(a: bv32, b: bv32, op: nat): bv32
    requires op <= 2
  {
    if op == 0 then Add32(a, b) else if op == 1 then Sub32(a, b) else Xor32(a, b)
  }

  const OPERATORS: seq<nat> := [2, 1, 0]

  function FastT(m: seq<bv32>, n: nat, d: bv32, op1: nat): bv32
    requires |m| == 2 * KEY_SIZE && n < ROUNDS && op1 <= 2
  {
    Rotl(CastOp(m[2 * n], d, op1), m[2 * n + 1])
  }

  /** What one round adds to the other half: the S-boxes read the bytes of `t` in a permuted order. */
  function FastF(s: Boxes, t: bv32, op1: nat, op2: nat, op3: nat): bv32
    requires op1 <= 2 && op2 <= 2 && op3 <= 2
  {
    CastOp(CastOp(CastOp(Entry(s, 0, Octet(t, 8)), Entry(s, 1, Octet(t, 0)), op2),
                  Entry(s, 2, Octet(t, 24)), op3),
           Entry(s, 3, Octet(t, 16)), op1)
  }

  lemma LeftBySixteenMore(x: bv32, k: bv32)
    ensures Rotl(x, (k + 16) & 0x1F) == Left(Rotl(x, k & 0x1F), 16)
  {
  }

  /** Sixteen further to the left, the bytes a b c d of a word read c d a b. */
  lemma OctetsLeft16(x: bv32)
    ensures Octet(Left(x, 16), 8) == Octet(x, 24)
    ensures Octet(Left(x, 16), 0) == Octet(x, 16)
    ensures Octet(Left(x, 16), 24) == Octet(x, 8)
    ensures Octet(Left(x, 16), 16) == Octet(x, 0)
  {
  }

  /** The operators the three rotating indices select in round `i`. */
  lemma OperatorsOfRound(i: nat)
    ensures (OPERATORS[(2 + i) % 3], OPERATORS[i % 3], OPERATORS[(1 + i) % 3])
            == if i % 3 == 0 then (0, 2, 1) else if i % 3 == 1 then (2, 1, 0) else (1, 0, 2)
  {
  }

  /** Those operators spell the masking and the combination of the standard's three round types. */
  lemma OperatorsSpellRfc(i: nat, op1: nat, op2: nat, op3: nat,
                          km: bv32, d: bv32, a: bv32, b: bv32, c: bv32, e: bv32)
    requires (op1, op2, op3) == if i % 3 == 0 then (0, 2, 1) else if i % 3 == 1 then (2, 1, 0) else (1, 0, 2)
    ensures CastOp(km, d, op1) == RfcMask(i, km, d)
    ensures CastOp(CastOp(CastOp(a, b, op2), c, op3), e, op1) == RfcCombine(i, a, b, c, e)
  {
    hide Add32, Sub32, Xor32;
  }

  /** The fast round is the standard's, operators, rotation and byte order included. */
  lemma FastRoundIsRfc(s: Boxes, k: Subkeys, i: nat, d: bv32)
    requires i < ROUNDS
    ensures var op1, op2, op3 := OPERATORS[(2 + i) % 3], OPERATORS[i % 3], OPERATORS[(1 + i) % 3];
            FastF(s, FastT(Biased(k), i, d, op1), op1, op2, op3) == RfcF(s, k, i, d)
  {
    hide Rotl, Octet, Entry, Left, CastOp, RfcMask, RfcCombine;
    var x, I := RfcMask(i, k[i], d), RfcI(k, i, d);
    OperatorsOfRound(i);
    OperatorsSpellRfc(i, OPERATORS[(2 + i) % 3], OPERATORS[i % 3], OPERATORS[(1 + i) % 3], k[i], d,
                      Entry(s, 0, Octet(I, 24)), Entry(s, 1, Octet(I, 16)), Entry(s, 2, Octet(I, 8)), Entry(s, 3, Octet(I, 0)));
    LeftBySixteenMore(x, k[KEY_SIZE + i]);
    OctetsLeft16(I);
    assert Biased(k)[2 * i] == k[i] && Biased(k)[2 * i + 1] == (k[KEY_SIZE + i] + 16) & 0x1F;
  }

  /** One fast round takes the standard's network one round further. */
  lemma FastStep(s: Boxes, k: Subkeys, i: nat, start: Pair)
    requires i < ROUNDS
    ensures var n := Network(RfcRounds(s, k, i), start);
            var op1, op2, op3 := OPERATORS[(2 + i) % 3], OPERATORS[i % 3], OPERATORS[(1 + i) % 3];
            Network(RfcRounds(s, k, i + 1), start) == Pair(n.r, Xor32(n.l, FastF(s, FastT(Biased(k), i, n.r, op1), op1, op2, op3)))
  {
    hide Xor32, FastF, FastT, RfcF, Biased, Network;
    FastRoundIsRfc(s, k, i, Network(RfcRounds(s, k, i), start).r);
    var fs, f := RfcRounds(s, k, i), RfcRounds(s, k, i + 1)[i];
    assert RfcRounds(s, k, i + 1) == fs + [f];
    NetworkStep(fs, f, start);
  }

  lemma IndexTurns(n: nat)
    ensures (n % 3 + 1) % 3 == (n + 1) % 3
  {
  }

  /** The block cipher on bytes. */
  function BlockFunction(s: Boxes, k: Subkeys, short: bool): Block -> Block {
    b => Store(RfcCast(s, k, short, Load(b)))
  }

  /** The stream a key drives. */
  function KeyStream(s: Boxes, k: Subkeys, short: bool): Stream<Register, bv8> {
    Cfb(BlockFunction(s, k, short), Xor)
  }

  lemma StreamOf(s: Boxes, k: Subkeys, short: bool, b: Block)
    ensures KeyStream(s, k, short) == Cfb(BlockFunction(s, k, short), Xor)
    ensures BlockFunction(s, k, short)(b) == Store(RfcCast(s, k, short, Load(b)))
  {
  }

  /** Byte by byte: the plaintext byte xor the byte of the enciphered ciphertext block before it. */
  lemma CipherBytes(s: Boxes, key: Subkeys, short: bool, iv: Block, plain: seq<Block>, out: seq<bv8>, before: Block, j: nat, k: nat)
    requires j < |plain| && k < 8 && out == Feedback.Encrypt(KeyStream(s, key, short), Register(iv, 0), Bytes(plain)).out
    requires IsBefore(before, iv, out, j)
    ensures |out| == 8 * |plain| && out[8 * j + k] == plain[j][k] ^ Store(RfcCast(s, key, short, Load(before)))[k]
  {
    hide *;
    StreamOf(s, key, short, before);
    StreamBytes(BlockFunction(s, key, short), iv, plain, out, before, j, k);
  }

  /** The seed cut to sixteen bytes, or padded with zeros to that length. */
  function Padded(seed: seq<bv8>): (r: seq<bv8>)
    ensures |r| == KEY_SIZE
  {
    seq(KEY_SIZE, i requires 0 <= i < KEY_SIZE => if i < |seed| then seed[i] else 0)
  }

  /** Sixteen bytes: those of a long seed, or those of a short one and zeros. */
  lemma PaddedIs(seed: seq<bv8>)
    ensures |seed| >= 16 ==> Padded(seed) == seed[..16]
    ensures |seed| < 16 ==> Padded(seed) == seed + seq(16 - |seed|, _ => 0)
  {
  }

  // ---- the cipher object ----

  class Cipher {
    const S: Boxes
    /** The sub-key table of RFC 2144, section 2.4, for a padded seed. */
    const expand: seq<bv8> -> Subkeys
    const mKey: array<bv32>
    var mShortKey: bool
    const mEnIV: array<bv8>
    const mDeIV: array<bv8>
    var mEnNum: int
    var mDeNum: int
    /** The sub-keys `mKey` holds in biased form. */
    ghost var subkeys: Subkeys

    ghost predicate Valid()
      reads this, mKey
    {
      && mKey.Length == 2 * KEY_SIZE && mKey[..] == Biased(subkeys)
      && mEnIV.Length == mDeIV.Length == 8 && mEnIV != mDeIV
      && 0 <= mEnNum < 8 && 0 <= mDeNum < 8
    }

    ghost function EncryptRegister(): Register
      requires Valid()
      reads this, mKey, mEnIV
    {
      Register(mEnIV[..], mEnNum)
    }

    ghost function DecryptRegister(): Register
      requires Valid()
      reads this, mKey, mDeIV
    {
      Register(mDeIV[..], mDeNum)
    }

    constructor (S: Boxes, expand: seq<bv8> -> Subkeys)
      ensures Valid() && this.S == S && this.expand == expand && !mShortKey
      ensures fresh(mKey) && fresh(mEnIV) && fresh(mDeIV)
      ensures EncryptRegister() == DecryptRegister() == Register(seq(8, i => 0), 0)
    {
      this.S, this.expand := S, expand;
      mKey := new bv32[32](i => 0);
      mShortKey := false;
      mEnIV := new bv8[8](i => 0);
      mDeIV := new bv8[8](i => 0);
      mEnNum, mDeNum := 0, 0;
      subkeys := seq(32, i => if i < KEY_SIZE then 0 else 16);
      new;
      assert mKey[..] == Biased(subkeys);
      assert mEnIV[..] == mDeIV[..] == seq(8, i => 0);
    }

    /** One round: `lv` absorbs what `rv` gives. */
    method E_CAST(n: nat, lv: bv32, rv: bv32, op1: nat, op2: nat, op3: nat) returns (t: bv32, lv': bv32)
      requires Valid() && n < ROUNDS && op1 <= 2 && op2 <= 2 && op3 <= 2
      ensures lv' == Xor32(lv, FastF(S, FastT(Biased(subkeys), n, rv, op1), op1, op2, op3))
    {
      hide CastOp, Rotl, Entry, Octet, Biased;
      t := CastOp(mKey[n * 2], rv, op1);
      t := Rotl(t, mKey[n * 2 + 1]);
      var k := CastOp(Entry(S, 0, Octet(t, 8)), Entry(S, 1, Octet(t, 0)), op2);
      k := CastOp(k, Entry(S, 2, Octet(t, 24)), op3);
      k := CastOp(k, Entry(S, 3, Octet(t, 16)), op1);
      lv' := Xor32(lv, k);
    }

    /** The alternating in-place rounds compute the standard's network. */
    method Encipher(aBlock: array<bv32>)
      requires Valid() && aBlock.Length == 2 && aBlock != mKey
      modifies aBlock
      ensures Pair(aBlock[0], aBlock[1]) == RfcCast(S, subkeys, mShortKey, old(Pair(aBlock[0], aBlock[1])))
    {
      hide Xor32, FastF, FastT, RfcF, Network, Biased, RfcRounds;
      var lv, rv, t := aBlock[0], aBlock[1], 0;
      ghost var start := Pair(lv, rv);
      assert RfcRounds(S, subkeys, 0) == [];
      NetworkOfNothing(start);
      var rounds := ROUNDS;
      if mShortKey {
        rounds := rounds - 4;
      }
      var op1, op2, op3 := 2, 0, 1;
      for i := 0 to rounds
        invariant op1 == (2 + i) % 3 && op2 == i % 3 && op3 == (1 + i) % 3
        invariant (if i % 2 == 0 then Pair(lv, rv) else Pair(rv, lv)) == Network(RfcRounds(S, subkeys, i), start)
      {
        FastStep(S, subkeys, i, start);
        IndexTurns(2 + i);
        IndexTurns(i);
        IndexTurns(1 + i);
        if i % 2 == 0 {
          t, lv := E_CAST(i, lv, rv, OPERATORS[op1], OPERATORS[op2], OPERATORS[op3]);
        } else {
          t, rv := E_CAST(i, rv, lv, OPERATORS[op1], OPERATORS[op2], OPERATORS[op3]);
        }
        op1 := (op1 + 1) % 3;
        op2 := (op2 + 1) % 3;
        op3 := (op3 + 1) % 3;
      }
      aBlock[0] := rv;
      aBlock[1] := lv;
    }

    /** swap_block, encipher, swap_block: the register is read and written big-endian. */
    method EncipherBytes(aIV: array<bv8>)
      requires Valid() && aIV.Length == 8
      modifies aIV
      ensures aIV[..] == BlockFunction(S, subkeys, mShortKey)(old(aIV[..]))
    {
      ghost var before: Block := aIV[..];
      var words := new bv32[2];
      words[0] := LoadWord(aIV[0], aIV[1], aIV[2], aIV[3]);
      words[1] := LoadWord(aIV[4], aIV[5], aIV[6], aIV[7]);
      assert Pair(words[0], words[1]) == Load(before);
      Encipher(words);
      var after := Store(Pair(words[0], words[1]));
      for i := 0 to 8
        invariant aIV[..i] == after[..i]
      {
        aIV[i] := after[i];
      }
      assert aIV[..] == aIV[..8] == after[..8] == after;
    }

    /** The body of the encryption loop on the register: one byte in, one byte out. */
    method EncryptOctet(octet: bv8) returns (val: bv8)
      requires Valid()
      modifies mEnIV, `mEnNum
      ensures Valid()
      ensures val == Xor(octet, Cfb64.Key(BlockFunction(S, subkeys, mShortKey), old(EncryptRegister())))
      ensures EncryptRegister() == Feed(BlockFunction(S, subkeys, mShortKey), old(EncryptRegister()), val)
    {
      hide BlockFunction;
      ghost var E, s := BlockFunction(S, subkeys, mShortKey), EncryptRegister();
      if mEnNum == 0 {
        EncipherBytes(mEnIV);
      }
      assert mEnIV[..] == Refreshed(E, s);
      val := Xor(octet, mEnIV[mEnNum]);
      mEnIV[mEnNum] := val;
      mEnNum := (mEnNum + 1) % 8;
    }

    method Encrypt(aBuf: array<bv8>, aOff: nat, aLen: nat)
      requires Valid() && aOff + aLen <= aBuf.Length && aBuf != mEnIV && aBuf != mDeIV
      modifies aBuf, mEnIV, `mEnNum
      ensures Valid()
      ensures var r := Feedback.Encrypt(KeyStream(S, subkeys, mShortKey), old(EncryptRegister()), old(aBuf[aOff..aOff + aLen]));
              && aBuf[..] == old(aBuf[..aOff]) + r.out + old(aBuf[aOff + aLen..])
              && EncryptRegister() == r.register
    {
      hide BlockFunction, EncryptedTo, Cfb64.Key, Feed, Feedback.Encrypt;
      ghost var E, start, before := BlockFunction(S, subkeys, mShortKey), EncryptRegister(), aBuf[..];
      EncryptedNothing(E, start, before, aOff);
      for i := 0 to aLen
        invariant Valid()
        invariant EncryptedTo(E, start, before, aBuf[..], aOff, aOff + i, EncryptRegister())
      {
        ghost var cur := aBuf[..];
        EncryptOneMore(E, start, before, cur, aOff, aOff + i, EncryptRegister());
        var val := EncryptOctet(aBuf[aOff + i]);
        aBuf[aOff + i] := val;
        assert aBuf[..] == cur[aOff + i := val];
      }
      EncryptedMeans(E, start, before, aBuf[..], aOff, aOff + aLen, EncryptRegister());
    }

    /** The body of the decryption loop on the register: one byte in, one byte out. */
    method DecryptOctet(octet: bv8) returns (val: bv8)
      requires Valid()
      modifies mDeIV, `mDeNum
      ensures Valid()
      ensures val == Xor(octet, Cfb64.Key(BlockFunction(S, subkeys, mShortKey), old(DecryptRegister())))
      ensures DecryptRegister() == Feed(BlockFunction(S, subkeys, mShortKey), old(DecryptRegister()), octet)
    {
      hide BlockFunction;
      ghost var E, s := BlockFunction(S, subkeys, mShortKey), DecryptRegister();
      if mDeNum == 0 {
        EncipherBytes(mDeIV);
      }
      assert mDeIV[..] == Refreshed(E, s);
      val := Xor(octet, mDeIV[mDeNum]);
      mDeIV[mDeNum] := octet;
      mDeNum := (mDeNum + 1) % 8;
    }

    method Decrypt(aBuf: array<bv8>, aOff: nat, aLen: nat)
      requires Valid() && aOff + aLen <= aBuf.Length && aBuf != mEnIV && aBuf != mDeIV
      modifies aBuf, mDeIV, `mDeNum
      ensures Valid()
      ensures var r := Feedback.Decrypt(KeyStream(S, subkeys, mShortKey), old(DecryptRegister()), old(aBuf[aOff..aOff + aLen]));
              && aBuf[..] == old(aBuf[..aOff]) + r.out + old(aBuf[aOff + aLen..])
              && DecryptRegister() == r.register
    {
      hide BlockFunction, DecryptedTo, Cfb64.Key, Feed, Feedback.Decrypt;
      ghost var E, start, before := BlockFunction(S, subkeys, mShortKey), DecryptRegister(), aBuf[..];
      DecryptedNothing(E, start, before, aOff);
      for i := 0 to aLen
        invariant Valid()
        invariant DecryptedTo(E, start, before, aBuf[..], aOff, aOff + i, DecryptRegister())
      {
        ghost var cur := aBuf[..];
        DecryptOneMore(E, start, before, cur, aOff, aOff + i, DecryptRegister());
        var val := DecryptOctet(aBuf[aOff + i]);
        aBuf[aOff + i] := val;
        assert aBuf[..] == cur[aOff + i := val];
      }
      DecryptedMeans(E, start, before, aBuf[..], aOff, aOff + aLen, DecryptRegister());
    }

    /** Each vector that is given replaces its register and rewinds its position; the other is kept. */
    method SetIVs(aEncIV: array?<bv8>, aDecIV: array?<bv8>)
      requires Valid()
      requires aEncIV != null ==> aEncIV.Length == 8 && aEncIV != mEnIV && aEncIV != mDeIV
      requires aDecIV != null ==> aDecIV.Length == 8 && aDecIV != mEnIV && aDecIV != mDeIV
      modifies mEnIV, mDeIV, `mEnNum, `mDeNum
      ensures Valid()
      ensures EncryptRegister() == if aEncIV == null then old(EncryptRegister()) else Register(aEncIV[..], 0)
      ensures DecryptRegister() == if aDecIV == null then old(DecryptRegister()) else Register(aDecIV[..], 0)
    {
      if aEncIV != null {
        forall i | 0 <= i < 8 { mEnIV[i] := aEncIV[i]; }
        mEnNum := 0;
        assert mEnIV[..] == aEncIV[..];
      }
      if aDecIV != null {
        forall i | 0 <= i < 8 { mDeIV[i] := aDecIV[i]; }
        mDeNum := 0;
        assert mDeIV[..] == aDecIV[..];
      }
    }

    /** The key becomes that of the seed, and both positions are rewound; the registers keep their bytes. */
    method GenerateKey(aSeed: array<bv8>, aLen: nat)
      requires Valid() && 0 < aLen <= aSeed.Length
      modifies mKey, `mShortKey, `mEnNum, `mDeNum, `subkeys
      ensures Valid()
      ensures subkeys == expand(Padded(aSeed[..aLen])) && mShortKey == (aLen <= 10)
      ensures mEnNum == mDeNum == 0
    {
      hide RfcF;
      var len := if aLen > KEY_SIZE then KEY_SIZE else aLen;
      mEnNum, mDeNum := 0, 0;
      mShortKey := len <= 10;
      var x := Padded(aSeed[..len]);
      assert x == Padded(aSeed[..aLen]);
      var k := expand(x);
      subkeys := k;
      for i := 0 to KEY_SIZE
        invariant forall j :: 0 <= j < 2 * i ==> mKey[j] == Biased(k)[j]
        modifies mKey
      {
        mKey[i * 2] := k[i];
        mKey[i * 2 + 1] := (k[i + KEY_SIZE] + 16) & 0x1F;
      }
      assert mKey[..] == Biased(k);
    }
  }
}
