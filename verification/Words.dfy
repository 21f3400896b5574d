/** Bytes, 32-bit words and the host-independent view of an 8-byte block. */
module Words {

  /** A byte as the number it stands for. */
  type uint8 = n: nat | n < 256

  /** A number below 256 as a byte. */
  function Byte(n: nat): (b: bv8)
    requires n < 256
    ensures b as nat == n
  {
    if n == 0 then 0 else Byte(n - 1) + 1
  }

  /** The two words of a block, the first one first. */
  datatype Pair = Pair(l: bv32, r: bv32)

  /** An 8-byte block, the unit of every 64-bit cipher of the server. */
  type Block = b: seq<bv8> | |b| == 8 witness [0, 0, 0, 0, 0, 0, 0, 0]

  /** A list read backwards. */
  function Reversed<T>(s: seq<T>): (r: seq<T>)
    ensures |r| == |s|
  {
    seq(|s|, i requires 0 <= i < |s| => s[|s| - 1 - i])
  }

  /** Addition, subtraction and exclusive or of words, modulo 2^32. */
  function Add32(x: bv32, y: bv32): bv32 {
    x + y
  }

  function Sub32(x: bv32, y: bv32): bv32 {
    x - y
  }

  function Xor32(x: bv32, y: bv32): bv32 {
    x ^ y
  }

  lemma Sum(x: bv32, y: bv32)
    ensures Add32(x, y) == x + y
  {
  }

  lemma Difference(x: bv32, y: bv32)
    ensures Sub32(x, y) == x - y
  {
  }

  lemma Exclusive(x: bv32, y: bv32)
    ensures Xor32(x, y) == x ^ y
  {
  }

  lemma SubOfSum(x: bv32, y: bv32)
    ensures Sub32(x + y, y) == x
  {
  }

  lemma AddOfDifference(x: bv32, y: bv32)
    ensures Add32(x - y, y) == x
  {
  }

  lemma XorOfXor(x: bv32, y: bv32)
    ensures Xor32(x ^ y, y) == x
  {
  }

  lemma XorAnyOrder(x: bv32, y: bv32, z: bv32)
    ensures Xor32(x ^ y, z) == Xor32(x ^ z, y)
  {
  }

  lemma SubAdd32(x: bv32, y: bv32)
    ensures Sub32(Add32(x, y), y) == x
  {
    hide Add32, Sub32;
    Sum(x, y);
    SubOfSum(x, y);
  }

  lemma AddSub32(x: bv32, y: bv32)
    ensures Add32(Sub32(x, y), y) == x
  {
    hide Add32, Sub32;
    Difference(x, y);
    AddOfDifference(x, y);
  }

  lemma XorCancel32(x: bv32, y: bv32)
    ensures Xor32(Xor32(x, y), y) == x
  {
    hide Xor32;
    Exclusive(x, y);
    XorOfXor(x, y);
  }

  lemma XorSwap32(x: bv32, y: bv32, z: bv32)
    ensures Xor32(Xor32(x, y), z) == Xor32(Xor32(x, z), y)
  {
    hide Xor32;
    Exclusive(x, y);
    Exclusive(x, z);
    XorAnyOrder(x, y, z);
  }

  lemma XorRegroup32(x: bv32, y: bv32, z: bv32)
    ensures Xor32(Xor32(Xor32(x, y), z), y) == Xor32(x, z)
  {
    hide Xor32;
    XorSwap32(x, y, z);
    XorCancel32(Xor32(x, z), y);
  }

  lemma XorCancel8(x: bv8, y: bv8)
    ensures (x ^ y) ^ y == x
    ensures x ^ y == y ^ x
  {
  }

  function Octet(w: bv32, shift: bv32): bv8
    requires shift <= 24
  {
    ((w >> shift) & 0xFF) as bv8
  }

  function LoadWord(b0: bv8, b1: bv8, b2: bv8, b3: bv8): bv32 {
    ((b0 as bv32) << 24) | ((b1 as bv32) << 16) | ((b2 as bv32) << 8) | (b3 as bv32)
  }

  /** Both words of a block, read most significant byte first (swap_block, then a native read). */
  function Load(b: Block): Pair {
    Pair(LoadWord(b[0], b[1], b[2], b[3]), LoadWord(b[4], b[5], b[6], b[7]))
  }

  /** The inverse of `Load`: a native write, then swap_block. */
  function Store(p: Pair): Block {
    [Octet(p.l, 24), Octet(p.l, 16), Octet(p.l, 8), Octet(p.l, 0),
     Octet(p.r, 24), Octet(p.r, 16), Octet(p.r, 8), Octet(p.r, 0)]
  }

  /** Most significant byte first. */
  lemma WordOfBytes(b0: bv8, b1: bv8, b2: bv8, b3: bv8)
    ensures LoadWord(b0, b1, b2, b3) == (((b0 as bv32) * 256 + (b1 as bv32)) * 256 + (b2 as bv32)) * 256 + (b3 as bv32)
  {
  }

  /** The first four bytes of a block are its first word. */
  lemma LoadIsBigEndian(b: Block)
    ensures Load(b).l == (((b[0] as bv32) * 256 + (b[1] as bv32)) * 256 + (b[2] as bv32)) * 256 + (b[3] as bv32)
    ensures Load(b).r == (((b[4] as bv32) * 256 + (b[5] as bv32)) * 256 + (b[6] as bv32)) * 256 + (b[7] as bv32)
  {
    WordOfBytes(b[0], b[1], b[2], b[3]);
    WordOfBytes(b[4], b[5], b[6], b[7]);
    hide LoadWord;
  }

  lemma LoadWordOctets(w: bv32)
    ensures LoadWord(Octet(w, 24), Octet(w, 16), Octet(w, 8), Octet(w, 0)) == w
  {
  }

  lemma OctetsLoadWord(b0: bv8, b1: bv8, b2: bv8, b3: bv8)
    ensures var w := LoadWord(b0, b1, b2, b3);
            Octet(w, 24) == b0 && Octet(w, 16) == b1 && Octet(w, 8) == b2 && Octet(w, 0) == b3
  {
  }

  /** Reading and writing a block are inverse to one another. */
  lemma LoadStore(p: Pair, b: Block)
    ensures Load(Store(p)) == p
    ensures Store(Load(b)) == b
  {
    LoadWordOctets(p.l);
    LoadWordOctets(p.r);
    OctetsLoadWord(b[0], b[1], b[2], b[3]);
    OctetsLoadWord(b[4], b[5], b[6], b[7]);
  }
}
