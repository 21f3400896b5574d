/** Cipher Feedback with 64-bit segments, applied byte by byte, for any block function. */
module Cfb64 {
  import opened Words
  import opened Feedback

  /** A position inside an 8-byte register. */
  type Slot = n: nat | n < 8

  /** The feedback register and the position of the next byte in it. */
  datatype Register = Register(iv: Block, num: Slot)

  /** The register's bytes, enciphered first when a new block starts. */
  function Refreshed(E: Block -> Block, s: Register): Block {
    if s.num == 0 then E(s.iv) else s.iv
  }

  function Key(E: Block -> Block, s: Register): bv8 {
    Refreshed(E, s)[s.num]
  }

  function Feed(E: Block -> Block, s: Register, cipher: bv8): Register {
    Register(Refreshed(E, s)[s.num := cipher], (s.num + 1) % 8)
  }

  /** The CFB64 stream of a block function, for any way to mix a byte with the keystream. */
  function Cfb(E: Block -> Block, mix: (bv8, bv8) -> bv8): Stream<Register, bv8> {
    Stream(s => Key(E, s), (s, c) => Feed(E, s, c), mix)
  }

  const Xor: (bv8, bv8) -> bv8 := (x, k) => x ^ k

  lemma XorIsInvolutive(E: Block -> Block)
    ensures Cfb(E, Xor).Involutive()
  {
    forall x: bv8, k: bv8
      ensures Xor(Xor(x, k), k) == x
    {
      XorCancel8(x, k);
    }
  }

  lemma ModSucc(n: nat)
    ensures (n % 8 + 1) % 8 == (n + 1) % 8
  {
  }

  /** The position counts the bytes modulo 8. */
  lemma {:induction false} Position(E: Block -> Block, mix: (bv8, bv8) -> bv8, s: Register, plain: seq<bv8>)
    ensures Encrypt(Cfb(E, mix), s, plain).register.num == (s.num + |plain|) % 8
  {
    if plain == [] {
    } else {
      Position(E, mix, s, plain[..|plain| - 1]);
      ModSucc(s.num + |plain| - 1);
    }
  }

  // ---- the block definition (NIST SP 800-38A, section 6.3, with 64-bit segments) ----

  function MixBlock(mix: (bv8, bv8) -> bv8, a: Block, b: Block): Block {
    seq(8, i requires 0 <= i < 8 => mix(a[i], b[i]))
  }

  /** What the j-th block is chained to: the initialisation vector, then the ciphertext block before it. */
  function Chained(iv: Block, cipher: seq<Block>, j: nat): Block
    requires j <= |cipher|
  {
    if j == 0 then iv else cipher[j - 1]
  }

  /** C_1 = P_1 xor E(IV) and C_j = P_j xor E(C_(j-1)). */
  ghost predicate IsCfbOf(E: Block -> Block, mix: (bv8, bv8) -> bv8, iv: Block, plain: seq<Block>, cipher: seq<Block>) {
    && |plain| == |cipher|
    && forall j :: 0 <= j < |plain| ==> cipher[j] == MixBlock(mix, plain[j], E(Chained(iv, cipher, j)))
  }

  /** The ciphertext blocks of the block definition. */
  function CfbBlocks(E: Block -> Block, mix: (bv8, bv8) -> bv8, iv: Block, plain: seq<Block>): (cipher: seq<Block>)
    ensures |cipher| == |plain|
  {
    if plain == [] then []
    else
      var cipher := CfbBlocks(E, mix, iv, plain[..|plain| - 1]);
      cipher + [MixBlock(mix, plain[|plain| - 1], E(Chained(iv, cipher, |cipher|)))]
  }

  lemma {:induction false} CfbBlocksChain(E: Block -> Block, mix: (bv8, bv8) -> bv8, iv: Block, plain: seq<Block>)
    ensures IsCfbOf(E, mix, iv, plain, CfbBlocks(E, mix, iv, plain))
  {
    if plain == [] {
    } else {
      var n := |plain| - 1;
      CfbBlocksChain(E, mix, iv, plain[..n]);
      var cipher, all := CfbBlocks(E, mix, iv, plain[..n]), CfbBlocks(E, mix, iv, plain);
      forall j | 0 <= j <= n
        ensures all[j] == MixBlock(mix, plain[j], E(Chained(iv, all, j)))
      {
        assert Chained(iv, all, j) == Chained(iv, cipher, j);
        if j < n {
          assert cipher[j] == MixBlock(mix, plain[..n][j], E(Chained(iv, cipher, j)));
        }
      }
    }
  }

  function Bytes(blocks: seq<Block>): seq<bv8> {
    if blocks == [] then [] else Bytes(blocks[..|blocks| - 1]) + blocks[|blocks| - 1]
  }

  /** The register after `k` bytes of a block: `k` ciphertext bytes, then the rest of the keystream. */
  ghost predicate Within(s: Register, iv: Block, e: Block, c: Block, k: nat) {
    && 0 <= k <= 8
    && s.num == k % 8
    && s.iv == if k == 0 then iv else c[..k] + e[k..]
  }

  lemma Replaced(c: Block, e: Block, k: nat)
    requires k < 8
    ensures (c[..k] + e[k..])[k] == e[k]
    ensures (c[..k] + e[k..])[k := c[k]] == c[..k + 1] + e[k + 1..]
  {
  }

  lemma OneByte(E: Block -> Block, mix: (bv8, bv8) -> bv8, iv: Block, p: Block, s: Register, k: nat)
    requires k < 8 && Within(s, iv, E(iv), MixBlock(mix, p, E(iv)), k)
    ensures mix(p[k], Key(E, s)) == MixBlock(mix, p, E(iv))[k]
    ensures Within(Feed(E, s, mix(p[k], Key(E, s))), iv, E(iv), MixBlock(mix, p, E(iv)), k + 1)
  {
    var e, c := E(iv), MixBlock(mix, p, E(iv));
    assert Refreshed(E, s) == c[..k] + e[k..] by {
      assert k == 0 ==> c[..0] + e[0..] == e;
    }
    Replaced(c, e, k);
  }

  /** One more byte, spelled out on the register. */
  lemma EncryptByte(E: Block -> Block, mix: (bv8, bv8) -> bv8, s: Register, front: seq<bv8>, x: bv8)
    ensures var r := Encrypt(Cfb(E, mix), s, front);
            var c := mix(x, Key(E, r.register));
            Encrypt(Cfb(E, mix), s, front + [x]) == Result(r.out + [c], Feed(E, r.register, c))
  {
    var all := front + [x];
    assert all[..|all| - 1] == front;
  }

  lemma DecryptByte(E: Block -> Block, mix: (bv8, bv8) -> bv8, s: Register, front: seq<bv8>, c: bv8)
    ensures var r := Decrypt(Cfb(E, mix), s, front);
            Decrypt(Cfb(E, mix), s, front + [c])
            == Result(r.out + [mix(c, Key(E, r.register))], Feed(E, r.register, c))
  {
    var all := front + [c];
    assert all[..|all| - 1] == front;
  }

  lemma OneMore(s: seq<bv8>, k: nat)
    requires 0 < k <= |s|
    ensures s[..k] == s[..k - 1] + [s[k - 1]]
  {
  }

  // ---- one call on a stretch of a buffer ----

  /** From `lo` up to `k` the buffer is encrypted, everything else is as it was; `s` is the register there. */
  ghost predicate EncryptedTo(E: Block -> Block, start: Register, before: seq<bv8>, cur: seq<bv8>, lo: nat, k: nat, s: Register) {
    && lo <= k <= |before|
    && var r := Encrypt(Cfb(E, Xor), start, before[lo..k]);
       cur == before[..lo] + r.out + before[k..] && s == r.register
  }

  lemma EncryptedNothing(E: Block -> Block, start: Register, before: seq<bv8>, lo: nat)
    requires lo <= |before|
    ensures EncryptedTo(E, start, before, before, lo, lo, start)
  {
    assert before[lo..lo] == [];
    EncryptNothing(Cfb(E, Xor), start);
    assert before == before[..lo] + [] + before[lo..];
  }

  lemma EncryptedMeans(E: Block -> Block, start: Register, before: seq<bv8>, cur: seq<bv8>, lo: nat, k: nat, s: Register)
    requires EncryptedTo(E, start, before, cur, lo, k, s)
    ensures lo <= k <= |before|
    ensures var r := Encrypt(Cfb(E, Xor), start, before[lo..k]); cur == before[..lo] + r.out + before[k..] && s == r.register
  {
  }

  lemma EncryptOneMore(E: Block -> Block, start: Register, before: seq<bv8>, cur: seq<bv8>, lo: nat, k: nat, s: Register)
    requires EncryptedTo(E, start, before, cur, lo, k, s) && k < |before|
    ensures |cur| == |before| && cur[k] == before[k]
    ensures var val := Xor(before[k], Key(E, s));
            EncryptedTo(E, start, before, cur[k := val], lo, k + 1, Feed(E, s, val))
  {
    hide Encrypt, Key, Feed, Cfb;
    var r := Encrypt(Cfb(E, Xor), start, before[lo..k]);
    EncryptByte(E, Xor, start, before[lo..k], before[k]);
    assert before[lo..k + 1] == before[lo..k] + [before[k]];
    var val := Xor(before[k], Key(E, s));
    assert cur[k := val] == before[..lo] + (r.out + [val]) + before[k + 1..];
  }

  /** From `lo` up to `k` the buffer is decrypted, everything else is as it was; `s` is the register there. */
  ghost predicate DecryptedTo(E: Block -> Block, start: Register, before: seq<bv8>, cur: seq<bv8>, lo: nat, k: nat, s: Register) {
    && lo <= k <= |before|
    && var r := Decrypt(Cfb(E, Xor), start, before[lo..k]);
       cur == before[..lo] + r.out + before[k..] && s == r.register
  }

  lemma DecryptedNothing(E: Block -> Block, start: Register, before: seq<bv8>, lo: nat)
    requires lo <= |before|
    ensures DecryptedTo(E, start, before, before, lo, lo, start)
  {
    assert before[lo..lo] == [];
    EncryptNothing(Cfb(E, Xor), start);
    assert before == before[..lo] + [] + before[lo..];
  }

  lemma DecryptedMeans(E: Block -> Block, start: Register, before: seq<bv8>, cur: seq<bv8>, lo: nat, k: nat, s: Register)
    requires DecryptedTo(E, start, before, cur, lo, k, s)
    ensures lo <= k <= |before|
    ensures var r := Decrypt(Cfb(E, Xor), start, before[lo..k]); cur == before[..lo] + r.out + before[k..] && s == r.register
  {
  }

  lemma DecryptOneMore(E: Block -> Block, start: Register, before: seq<bv8>, cur: seq<bv8>, lo: nat, k: nat, s: Register)
    requires DecryptedTo(E, start, before, cur, lo, k, s) && k < |before|
    ensures |cur| == |before| && cur[k] == before[k]
    ensures var val := Xor(before[k], Key(E, s));
            DecryptedTo(E, start, before, cur[k := val], lo, k + 1, Feed(E, s, before[k]))
  {
    hide Decrypt, Key, Feed, Cfb;
    var r := Decrypt(Cfb(E, Xor), start, before[lo..k]);
    DecryptByte(E, Xor, start, before[lo..k], before[k]);
    assert before[lo..k + 1] == before[lo..k] + [before[k]];
    var val := Xor(before[k], Key(E, s));
    assert cur[k := val] == before[..lo] + (r.out + [val]) + before[k + 1..];
  }

  lemma {:induction false} WithinBlock(E: Block -> Block, mix: (bv8, bv8) -> bv8, iv: Block, p: Block, k: nat)
    requires k <= 8
    ensures var c := MixBlock(mix, p, E(iv));
            && Encrypt(Cfb(E, mix), Register(iv, 0), p[..k]).out == c[..k]
            && Within(Encrypt(Cfb(E, mix), Register(iv, 0), p[..k]).register, iv, E(iv), c, k)
  {
    if k == 0 {
      assert p[..0] == [];
      EncryptNothing(Cfb(E, mix), Register(iv, 0));
    } else {
      hide Encrypt, Key, Feed, Within, MixBlock, Cfb;
      WithinBlock(E, mix, iv, p, k - 1);
      OneByte(E, mix, iv, p, Encrypt(Cfb(E, mix), Register(iv, 0), p[..k - 1]).register, k - 1);
      EncryptByte(E, mix, Register(iv, 0), p[..k - 1], p[k - 1]);
      OneMore(p, k);
      OneMore(MixBlock(mix, p, E(iv)), k);
    }
  }

  lemma WholeBlock(E: Block -> Block, mix: (bv8, bv8) -> bv8, iv: Block, p: Block)
    ensures var c := MixBlock(mix, p, E(iv));
            Encrypt(Cfb(E, mix), Register(iv, 0), p) == Result(c, Register(c, 0))
  {
    hide Encrypt, Cfb, MixBlock;
    WithinBlock(E, mix, iv, p, 8);
    var c := MixBlock(mix, p, E(iv));
    assert p[..8] == p && c[..8] == c && c + E(iv)[8..] == c;
  }

  /** The shorter chain, and its last link. */
  lemma ChainStep(E: Block -> Block, mix: (bv8, bv8) -> bv8, iv: Block, plain: seq<Block>, cipher: seq<Block>)
    requires IsCfbOf(E, mix, iv, plain, cipher) && plain != []
    ensures var n := |plain| - 1;
            && |cipher| == n + 1
            && IsCfbOf(E, mix, iv, plain[..n], cipher[..n])
            && Chained(iv, cipher[..n], n) == Chained(iv, cipher, n)
            && cipher[n] == MixBlock(mix, plain[n], E(Chained(iv, cipher, n)))
            && Chained(iv, cipher, n + 1) == cipher[n]
  {
    var n := |plain| - 1;
    assert forall j :: 0 <= j <= n ==> Chained(iv, cipher[..n], j) == Chained(iv, cipher, j);
  }

  /** Over whole blocks from position 0 the byte loop computes the block definition. */
  lemma {:induction false} ByteLoopIsCfb(E: Block -> Block, mix: (bv8, bv8) -> bv8, iv: Block,
                                         plain: seq<Block>, cipher: seq<Block>)
    requires IsCfbOf(E, mix, iv, plain, cipher)
    ensures Encrypt(Cfb(E, mix), Register(iv, 0), Bytes(plain))
            == Result(Bytes(cipher), Register(Chained(iv, cipher, |cipher|), 0))
  {
    if plain == [] {
    } else {
      var n := |plain| - 1;
      ChainStep(E, mix, iv, plain, cipher);
      hide Encrypt, Cfb, MixBlock, IsCfbOf, Chained;
      ByteLoopIsCfb(E, mix, iv, plain[..n], cipher[..n]);
      EncryptConcat(Cfb(E, mix), Register(iv, 0), Bytes(plain[..n]), plain[n]);
      WholeBlock(E, mix, Chained(iv, cipher, n), plain[n]);
    }
  }

  lemma {:induction false} BytesLength(blocks: seq<Block>)
    ensures |Bytes(blocks)| == 8 * |blocks|
  {
    if blocks != [] {
      BytesLength(blocks[..|blocks| - 1]);
    }
  }

  lemma {:induction false} BytesAt(blocks: seq<Block>, j: nat)
    requires j < |blocks|
    ensures |Bytes(blocks)| == 8 * |blocks| && Bytes(blocks)[8 * j..8 * j + 8] == blocks[j]
  {
    var n := |blocks| - 1;
    BytesLength(blocks);
    BytesLength(blocks[..n]);
    assert Bytes(blocks) == Bytes(blocks[..n]) + blocks[n];
    hide Bytes;
    if j < n {
      BytesAt(blocks[..n], j);
      FrontSlice(Bytes(blocks[..n]), blocks[n], 8 * j, 8 * j + 8);
    }
  }

  lemma FrontSlice(front: seq<bv8>, last: seq<bv8>, from: nat, to: nat)
    requires from <= to <= |front|
    ensures (front + last)[from..to] == front[from..to]
  {
  }

  /** The eight bytes from a position on, and one of them. */
  lemma ByteOfStretch(s: seq<bv8>, from: nat, c: seq<bv8>, k: nat)
    requires from + 8 <= |s| && s[from..from + 8] == c && k < 8
    ensures s[from + k] == c[k]
  {
    assert s[from..from + 8][k] == s[from + k];
  }

  /** The block before the j-th one of some bytes, a vector being in front of them. */
  predicate IsBefore(before: Block, iv: Block, out: seq<bv8>, j: nat) {
    if j == 0 then before == iv else 8 * j <= |out| && out[8 * j - 8..8 * j] == before
  }

  /**
    * Byte by byte: over whole blocks from position 0, each byte that leaves is the plaintext byte xor the byte of the
    * enciphered block before it, the initialisation vector in front.
    */
  lemma StreamBytes(E: Block -> Block, iv: Block, plain: seq<Block>, out: seq<bv8>, before: Block, j: nat, k: nat)
    requires j < |plain| && k < 8 && out == Encrypt(Cfb(E, Xor), Register(iv, 0), Bytes(plain)).out
    requires IsBefore(before, iv, out, j)
    ensures |out| == 8 * |plain| && out[8 * j + k] == plain[j][k] ^ E(before)[k]
  {
    hide Encrypt, Cfb, Bytes, CfbBlocks, MixBlock, IsCfbOf, Chained;
    var cipher := CfbBlocks(E, Xor, iv, plain);
    CfbBlocksChain(E, Xor, iv, plain);
    ByteLoopIsCfb(E, Xor, iv, plain, cipher);
    ChainedByte(E, iv, plain, cipher, j, k);
    BytesAt(cipher, j);
    ByteOfStretch(Bytes(cipher), 8 * j, cipher[j], k);
    if j > 0 {
      BytesAt(cipher, j - 1);
    }
    assert before == if j == 0 then iv else cipher[j - 1];
  }

  lemma ChainedByte(E: Block -> Block, iv: Block, plain: seq<Block>, cipher: seq<Block>, j: nat, k: nat)
    requires IsCfbOf(E, Xor, iv, plain, cipher) && j < |plain| && k < 8
    ensures |cipher| == |plain| && cipher[j][k] == plain[j][k] ^ E(if j == 0 then iv else cipher[j - 1])[k]
  {
    assert cipher[j] == MixBlock(Xor, plain[j], E(Chained(iv, cipher, j)));
  }

  /** A trailing partial block is the prefix of the block that would follow. */
  lemma TrailingBytes(E: Block -> Block, mix: (bv8, bv8) -> bv8, iv: Block,
                      plain: seq<Block>, cipher: seq<Block>, last: Block, k: nat)
    requires IsCfbOf(E, mix, iv, plain, cipher) && k <= 8
    ensures Encrypt(Cfb(E, mix), Register(iv, 0), Bytes(plain) + last[..k]).out
            == Bytes(cipher) + MixBlock(mix, last, E(Chained(iv, cipher, |cipher|)))[..k]
  {
    ByteLoopIsCfb(E, mix, iv, plain, cipher);
    EncryptConcat(Cfb(E, mix), Register(iv, 0), Bytes(plain), last[..k]);
    WithinBlock(E, mix, Chained(iv, cipher, |cipher|), last, k);
  }
}
