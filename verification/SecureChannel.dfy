/**
  * The message server's side of a connection: the key exchange, the switch to the negotiated key in the
  * middle of a received buffer, and the frames behind it.
  */
module SecureChannel {
  import opened Basics
  import opened Words
  import opened Feedback
  import opened Cfb64
  import opened Numerals
  import opened Frames
  import DH = DiffieHellman
  import Blowfish

  // ---- from the shared secret to the cipher key ----

  /** The P of the exchange, 512 bits in hexadecimal. */
  const P_TEXT: string := "E7A69EBDF105F2A6BBDEAD7E798F76A209AD73FB466431E2E7352ED262F8C558F10BEFEA977DE9E21DCEE9B04D245F300ECCBBA03E72630556D011023F9E857F"
  const G_TEXT: string := "05"

  /** The cipher seed a secret gives: its hexadecimal text, decoded. */
  function Seed(secret: nat): (s: seq<uint8>)
    ensures s != []
  {
    HexBytes(ToStr(secret))
  }

  /**
    * For a secret of at most 512 bits the seed is the secret's big-endian bytes: not empty, at most 64 of
    * them, and so never cut by the cipher's limit of 72.
    */
  lemma SeedOfSecret(secret: nat)
    ensures IsHex(ToStr(secret)) && |Seed(secret)| > 0
    ensures BigEndian(Seed(secret)) == secret
    ensures secret < Pow(16, 128) ==> |Seed(secret)| <= 64 < Blowfish.KEY_SIZE
  {
    ParsePrinted(secret);
    HexBytesValue(ToStr(secret));
    PrintedLength(secret, 128);
  }

  /** Different secrets give different seeds. */
  lemma SeedIsInjective(x: nat, y: nat)
    requires Seed(x) == Seed(y)
    ensures x == y
  {
    SeedOfSecret(x);
    SeedOfSecret(y);
  }

  lemma ModulusFits()
    ensures 1 < DH.Read(P_TEXT) < Pow(16, 128)
  {
    var s := Lower(P_TEXT);
    assert |s| == 128;
    ParseBound(s);
    assert s[127] == 'f';
  }

  /** The number P stands for. */
  function Modulus(): (p: nat)
    ensures 1 < p < Pow(16, 128)
  {
    ModulusFits();
    DH.Read(P_TEXT)
  }

  /** A secret of the exchange prints in at most 128 digits, so its seed fits the 256-byte buffer. */
  lemma SecretFits(secret: nat)
    requires secret < Modulus()
    ensures |ToStr(secret)| <= 128
  {
    PrintedLength(secret, 128);
  }

  // ---- the exchange response (MsgLoginChallengeS) ----

  const PADDING_LEN := 7
  const INT_LEN := 4
  /** The size of the message's structure, which its constructor asserts. */
  const MIN_LEN := 21

  /** The little-endian signed 32-bit integer at a position. */
  function IntAt(b: seq<bv8>, i: nat): int
    requires i + 4 <= |b|
  {
    var n := b[i] as nat + 0x100 * b[i + 1] as nat + 0x1_0000 * b[i + 2] as nat + 0x100_0000 * b[i + 3] as nat;
    if n < 0x8000_0000 then n else n - 0x1_0000_0000
  }

  /** Two's complement, low byte first: the bytes' value modulo 2^32, between -2^31 and 2^31. */
  lemma IntAtIsSigned(b: seq<bv8>, i: nat)
    requires i + 4 <= |b|
    ensures -0x8000_0000 <= IntAt(b, i) < 0x8000_0000
    ensures var n := b[i] as int + 256 * (b[i + 1] as int + 256 * (b[i + 2] as int + 256 * b[i + 3] as int));
            IntAt(b, i) == n || IntAt(b, i) == n - 0x1_0000_0000
  {
  }

  /** A character string: the bytes up to the first zero. */
  function CString(b: seq<bv8>): string {
    if b == [] || b[0] == 0 then "" else [b[0] as char] + CString(b[1..])
  }

  /** The length of a response in bytes and the public key in it. */
  datatype Response = Response(len: nat, key: string) | Malformed

  /**
    * The response at the front of a decrypted buffer. The size of the junk moves the reading position, backwards when
    * it is negative. A response is malformed where the source reads outside it, or fails the assertion on its length.
    */
  function ReadResponse(plain: seq<bv8>): (r: Response)
    ensures r.Response? ==> MIN_LEN <= r.len <= |plain|
  {
    if |plain| < PADDING_LEN + INT_LEN then Malformed
    else
      var len := PADDING_LEN + IntAt(plain, PADDING_LEN);
      if len < MIN_LEN || len > |plain| then Malformed
      else
        var at := PADDING_LEN + 2 * INT_LEN + IntAt(plain, PADDING_LEN + INT_LEN);
        if at < 0 || at + INT_LEN > len then Malformed
        else
          var keyLen := IntAt(plain, at);
          if keyLen < 0 || at + INT_LEN + keyLen > len then Malformed
          else Response(len, CString(plain[at + INT_LEN..at + INT_LEN + keyLen]))
  }

  /** What is read depends on no byte behind the size the response announces. */
  lemma ReadResponsePrefix(plain: seq<bv8>, tail: seq<bv8>)
    requires |plain| >= MIN_LEN && IntAt(plain, PADDING_LEN) == |plain| - PADDING_LEN
    ensures ReadResponse(plain + tail) == ReadResponse(plain)
  {
    hide IntAt, CString;
    var all := plain + tail;
    IntAtPrefix(plain, tail, PADDING_LEN);
    IntAtPrefix(plain, tail, PADDING_LEN + INT_LEN);
    var at := PADDING_LEN + 2 * INT_LEN + IntAt(plain, PADDING_LEN + INT_LEN);
    if 0 <= at <= |plain| - INT_LEN {
      IntAtPrefix(plain, tail, at);
      var keyLen := IntAt(plain, at);
      if keyLen >= 0 && at + INT_LEN + keyLen <= |plain| {
        assert all[at + INT_LEN..at + INT_LEN + keyLen] == plain[at + INT_LEN..at + INT_LEN + keyLen];
      }
    }
  }

  lemma IntAtPrefix(plain: seq<bv8>, tail: seq<bv8>, i: nat)
    requires i + 4 <= |plain|
    ensures IntAt(plain + tail, i) == IntAt(plain, i)
  {
  }

  lemma CutResponse(plain: seq<bv8>)
    requires |plain| >= PADDING_LEN + INT_LEN
    requires MIN_LEN <= PADDING_LEN + IntAt(plain, PADDING_LEN) <= |plain|
    ensures ReadResponse(plain[..PADDING_LEN + IntAt(plain, PADDING_LEN)]) == ReadResponse(plain)
  {
    var len := PADDING_LEN + IntAt(plain, PADDING_LEN);
    assert plain[..len] + plain[len..] == plain;
    IntAtPrefix(plain[..len], plain[len..], PADDING_LEN);
    ReadResponsePrefix(plain[..len], plain[len..]);
  }

  /** A size that does not fit makes the response malformed; otherwise it gives the response's length. */
  lemma UnfitResponse(plain: seq<bv8>)
    ensures |plain| < PADDING_LEN + INT_LEN ==> ReadResponse(plain).Malformed?
    ensures |plain| >= PADDING_LEN + INT_LEN ==>
              && (PADDING_LEN + IntAt(plain, PADDING_LEN) < MIN_LEN || PADDING_LEN + IntAt(plain, PADDING_LEN) > |plain|
                  ==> ReadResponse(plain).Malformed?)
              && (ReadResponse(plain).Response? ==> ReadResponse(plain).len == PADDING_LEN + IntAt(plain, PADDING_LEN))
  {
    hide IntAt, CString;
  }

  /** The response takes `len` bytes, at least 21; the key's length and then the key lie in it, 15 bytes and the junk behind the front. */
  predicate KeyLies(plain: seq<bv8>, len: nat, at: nat, n: nat) {
    && 21 <= len <= |plain| && at + 4 + n <= len
    && IntAt(plain, 7) == len - 7 && IntAt(plain, 11) == at - 15 && IntAt(plain, at) == n
  }

  /** A response is read if and only if there are such places, whichever way the junk moves them. */
  lemma ReadIffKeyLies(plain: seq<bv8>)
    ensures ReadResponse(plain).Response? <==> exists len, at, n :: KeyLies(plain, len, at, n)
    ensures forall len, at, n :: KeyLies(plain, len, at, n) ==> ReadResponse(plain) == Response(len, CString(plain[at + 4..at + 4 + n]))
  {
    hide IntAt, CString;
    if ReadResponse(plain).Response? {
      var at: nat := 15 + IntAt(plain, 11);
      assert KeyLies(plain, 7 + IntAt(plain, 7), at, IntAt(plain, at));
    }
  }

  // ---- a response as a peer builds it ----

  lemma ByteAsChar(c: char)
    requires 0 < c as nat < 256
    ensures Byte(c as nat) as char == c && Byte(c as nat) != 0
  {
    hide Byte;
  }

  /** The four bytes of a non-negative 32-bit integer. */
  function IntBytes(n: nat): (b: seq<bv8>)
    requires n < 0x8000_0000
    ensures |b| == INT_LEN
  {
    var n1 := n / 0x100;
    var n2 := n1 / 0x100;
    [Byte(n % 0x100), Byte(n1 % 0x100), Byte(n2 % 0x100), Byte(n2 / 0x100)]
  }

  lemma IntOfBytes(n: nat)
    requires n < 0x8000_0000
    ensures IntAt(IntBytes(n), 0) == n
  {
    hide Byte;
  }

  /** An integer in the middle of a buffer. */
  lemma IntInside(front: seq<bv8>, n: nat, back: seq<bv8>)
    requires n < 0x8000_0000
    ensures IntAt(front + IntBytes(n) + back, |front|) == n
  {
    IntOfBytes(n);
    hide IntBytes;
    var all := front + IntBytes(n) + back;
    assert forall k :: 0 <= k < 4 ==> all[|front| + k] == IntBytes(n)[k];
  }

  /** No character is zero, and each fits a byte. */
  predicate IsText(s: string) {
    forall i :: 0 <= i < |s| ==> 0 < s[i] as nat < 256
  }

  function Text(s: string): (b: seq<bv8>)
    requires IsText(s)
    ensures |b| == |s|
  {
    seq(|s|, i requires 0 <= i < |s| => Byte(s[i] as nat))
  }

  lemma {:induction false} CStringOfText(s: string)
    requires IsText(s)
    ensures CString(Text(s)) == s
  {
    if s == "" {
    } else {
      hide Byte;
      ByteAsChar(s[0]);
      CStringOfText(s[1..]);
      assert Text(s)[1..] == Text(s[1..]);
    }
  }

  /** A zero ends the string, whatever is behind it. */
  lemma {:induction false} CStringStops(s: string, rest: seq<bv8>)
    requires IsText(s)
    ensures CString(Text(s) + [0] + rest) == s
  {
    if s == "" {
      assert Text(s) + [0] + rest == [0] + rest;
    } else {
      hide Byte;
      ByteAsChar(s[0]);
      CStringStops(s[1..], rest);
      assert (Text(s) + [0] + rest)[1..] == Text(s[1..]) + [0] + rest;
    }
  }

  /** Padding, size, junk, key and the seal the peer's messages end with; the size counts everything but the padding. */
  function BuildResponse(padding: seq<bv8>, junk: seq<bv8>, key: string, seal: seq<bv8>): (b: seq<bv8>)
    requires |padding| == PADDING_LEN && IsText(key) && Announced(junk, key, seal) < 0x8000_0000
    ensures |b| == PADDING_LEN + Announced(junk, key, seal)
  {
    padding + IntBytes(Announced(junk, key, seal)) + IntBytes(|junk|) + junk + IntBytes(|key|) + Text(key) + seal
  }

  function Announced(junk: seq<bv8>, key: string, seal: seq<bv8>): nat {
    3 * INT_LEN + |junk| + |key| + |seal|
  }

  /** What a peer builds is read back, the whole of it and the key in it, unless it is shorter than any message. */
  lemma BuiltIsRead(padding: seq<bv8>, junk: seq<bv8>, key: string, seal: seq<bv8>)
    requires |padding| == PADDING_LEN && IsText(key) && Announced(junk, key, seal) < 0x8000_0000
    ensures var b := BuildResponse(padding, junk, key, seal); ReadResponse(b) == if |b| < MIN_LEN then Malformed else Response(|b|, key)
  {
    hide IntAt, IntBytes, Text, CString;
    var b := BuildResponse(padding, junk, key, seal);
    var size := IntBytes(Announced(junk, key, seal));
    var front := padding + size + IntBytes(|junk|) + junk;
    IntInside(padding, Announced(junk, key, seal), IntBytes(|junk|) + junk + IntBytes(|key|) + Text(key) + seal);
    assert b == padding + size + (IntBytes(|junk|) + junk + IntBytes(|key|) + Text(key) + seal);
    IntInside(padding + size, |junk|, junk + IntBytes(|key|) + Text(key) + seal);
    assert b == padding + size + IntBytes(|junk|) + (junk + IntBytes(|key|) + Text(key) + seal);
    IntInside(front, |key|, Text(key) + seal);
    assert b == front + IntBytes(|key|) + (Text(key) + seal);
    var at := |front| + INT_LEN;
    assert b[at..at + |key|] == Text(key);
    CStringOfText(key);
  }

  // ---- a received buffer ----

  datatype Status = KEY_EXCHANGE | NORMAL | OTHER

  /** The keys of a connection that has sent its exchange request. */
  datatype Pending = Pending(initial: Blowfish.Keyed, p: nat, a: nat, encryptIV: Block, decryptIV: Block)

  /** What a received buffer does: nothing, something the source leaves undefined, or a row of messages. */
  datatype Outcome = TooShort | BadResponse | Dispatched(split: Split)

  /** The decrypting side of a connection. */
  datatype Inbound = Inbound(key: Blowfish.Keyed, register: Register)

  /** The key negotiated with a peer whose public key text was `peer`. */
  function Negotiated(x: Pending, peer: string): Blowfish.Keyed
    requires x.p > 0
  {
    Blowfish.Schedule(x.initial, Seed(DH.ModPower(DH.Read(peer), x.a, x.p)))
  }

  function DecryptAll(c: Inbound, bytes: seq<bv8>): (r: Result<Register, bv8>)
    ensures |r.out| == |bytes|
  {
    Decrypt(Blowfish.KeyStream(c.key), c.register, bytes)
  }

  /** A buffer received while the status is not KEY_EXCHANGE. */
  function Receive(c: Inbound, bytes: seq<bv8>): Outcome {
    if |bytes| < HEADER_LEN then TooShort else Dispatched(SplitFrom(DecryptAll(c, bytes).out, 0))
  }

  /** The decrypting side after such a buffer. */
  function After(c: Inbound, bytes: seq<bv8>): Inbound {
    if |bytes| < HEADER_LEN then c else c.(register := DecryptAll(c, bytes).register)
  }

  /** The buffer that carries the exchange response: the old key up to its end, the new key behind it. */
  function ReceiveResponse(c: Inbound, x: Pending, bytes: seq<bv8>): Outcome
    requires x.p > 0
  {
    if |bytes| < HEADER_LEN then TooShort
    else
      match ReadResponse(DecryptAll(c, bytes).out)
      case Malformed => BadResponse
      case Response(len, peer) => Receive(Inbound(Negotiated(x, peer), Register(x.decryptIV, 0)), bytes[len..])
  }

  /** The buffer holds a whole exchange response. */
  predicate Answers(c: Inbound, bytes: seq<bv8>) {
    |bytes| >= HEADER_LEN && ReadResponse(DecryptAll(c, bytes).out).Response?
  }

  /** The decrypting side after the buffer that carried the response. */
  function AfterResponse(c: Inbound, x: Pending, bytes: seq<bv8>): Inbound
    requires x.p > 0 && Answers(c, bytes)
  {
    var response := ReadResponse(DecryptAll(c, bytes).out);
    After(Inbound(Negotiated(x, response.key), Register(x.decryptIV, 0)), bytes[response.len..])
  }

  /** Nothing happens, and nothing is decrypted, exactly below four bytes. */
  lemma TooShortIff(c: Inbound, x: Pending, bytes: seq<bv8>)
    requires x.p > 0
    ensures Receive(c, bytes).TooShort? <==> |bytes| < 4
    ensures |bytes| < 4 ==> ReceiveResponse(c, x, bytes).TooShort? && !Answers(c, bytes)
    ensures After(c, bytes) == if |bytes| < 4 then c else Inbound(c.key, DecryptAll(c, bytes).register)
    ensures |bytes| >= 4 && !Answers(c, bytes) ==> ReceiveResponse(c, x, bytes) == BadResponse
  {
    hide Decrypt, ReadResponse, SplitFrom;
  }

  // ---- the peer ----

  /** What the peer sends: the response under the old key, then sealed frames under the new one. */
  function PeerSends(c: Inbound, response: seq<bv8>, next: Inbound, frames: seq<seq<bv8>>, seal: seq<bv8>): seq<bv8> {
    Encrypt(Blowfish.KeyStream(c.key), c.register, response).out
    + Encrypt(Blowfish.KeyStream(next.key), next.register, Sealed(frames, seal)).out
  }

  lemma SealedIsLong(frames: seq<seq<bv8>>, seal: seq<bv8>)
    requires IsSeal(seal) && frames != [] && IsFrame(frames[0])
    ensures |Sealed(frames, seal)| >= HEADER_LEN
  {
  }

  lemma ReadWhole(plain: seq<bv8>)
    requires ReadResponse(plain).Response? && ReadResponse(plain).len == |plain|
    ensures |plain| >= MIN_LEN && IntAt(plain, PADDING_LEN) == |plain| - PADDING_LEN
  {
    hide IntAt, CString;
  }

  /** One decryption of a concatenation, by its front. */
  lemma DecryptFront(c: Inbound, plain: seq<bv8>, tail: seq<bv8>)
    ensures DecryptAll(c, Encrypt(Blowfish.KeyStream(c.key), c.register, plain).out + tail).out[..|plain|] == plain
  {
    var m := Blowfish.KeyStream(c.key);
    XorIsInvolutive(Blowfish.BlockFunction(c.key));
    DecryptUndoesEncrypt(m, c.register, plain);
    DecryptConcat(m, c.register, Encrypt(m, c.register, plain).out, tail);
  }

  /** The key and register the peer goes on with: it derived its secret from the request, g^a. */
  function PeerKey(x: Pending, g: nat, b: nat): Inbound
    requires x.p > 0
  {
    var secret := DH.ModPower(DH.Read(ToStr(DH.ModPower(g, x.a, x.p))), b, x.p);
    Inbound(Blowfish.Schedule(x.initial, Seed(secret)), Register(x.decryptIV, 0))
  }

  /** Both derive the key whose seed is g^(ab), by repeated multiplication modulo p, and start it at the vector's front. */
  lemma KeyOfPower(x: Pending, g: nat, b: nat, c: seq<nat>, ab: nat)
    requires x.p > 0 && DH.ArePowers(c, g, x.p) && ab < |c| && ab == x.a * b
    ensures PeerKey(x, g, b) == Inbound(Blowfish.Schedule(x.initial, Seed(c[ab])), Register(x.decryptIV, 0))
    ensures Negotiated(x, ToStr(DH.ModPower(g, b, x.p))) == Blowfish.Schedule(x.initial, Seed(c[ab]))
  {
    hide Blowfish.Schedule, Seed, DH.ModPower, DH.Read, DH.ArePowers, ToStr;
    DH.KeyAgreement(x.p, g, x.a, b);
  }

  /** The server reads the peer's response, derives the peer's key and finds the rest of the buffer behind the response. */
  lemma PeerIsRead(c: Inbound, x: Pending, g: nat, b: nat, response: seq<bv8>, rest: seq<bv8>)
    requires x.p > 0
    requires ReadResponse(response) == Response(|response|, ToStr(DH.ModPower(g, b, x.p)))
    ensures var first := Encrypt(Blowfish.KeyStream(c.key), c.register, response).out + rest;
            && Answers(c, first)
            && ReadResponse(DecryptAll(c, first).out) == ReadResponse(response)
            && first[|response|..] == rest
            && Inbound(Negotiated(x, ToStr(DH.ModPower(g, b, x.p))), Register(x.decryptIV, 0)) == PeerKey(x, g, b)
  {
    hide Encrypt, Decrypt, ReadResponse, Blowfish.Schedule, Seed, DH.ModPower, DH.Read, ToStr;
    DH.KeyAgreement(x.p, g, x.a, b);
    var first := Encrypt(Blowfish.KeyStream(c.key), c.register, response).out + rest;
    DecryptFront(c, response, rest);
    var plain := DecryptAll(c, first).out;
    ReadWhole(response);
    ReadResponsePrefix(response, plain[|response|..]);
    assert response + plain[|response|..] == plain;
  }

  /** A buffer sent in step is decrypted to what was sent, and the two sides are still in step. */
  lemma InStep(c: Inbound, plain: seq<bv8>)
    ensures var r := Encrypt(Blowfish.KeyStream(c.key), c.register, plain);
            && DecryptAll(c, r.out).out == plain && |r.out| == |plain|
            && (|plain| >= HEADER_LEN || plain == [] ==> After(c, r.out) == c.(register := r.register))
  {
    var m := Blowfish.KeyStream(c.key);
    XorIsInvolutive(Blowfish.BlockFunction(c.key));
    DecryptUndoesEncrypt(m, c.register, plain);
    EncryptNothing(m, c.register);
  }

  /** What is dispatched for some sealed frames. */
  function Arrival(frames: seq<seq<bv8>>, seal: seq<bv8>): Outcome {
    if frames == [] then TooShort else Dispatched(Finished(frames, |Sealed(frames, seal)|))
  }

  /** A buffer of sealed frames, sent and decrypted in step, is dispatched frame by frame, and leaves the sides in step. */
  lemma SealedFramesArrive(c: Inbound, frames: seq<seq<bv8>>, seal: seq<bv8>)
    requires IsSeal(seal) && forall k :: 0 <= k < |frames| ==> IsFrame(frames[k])
    ensures var r := Encrypt(Blowfish.KeyStream(c.key), c.register, Sealed(frames, seal));
            Receive(c, r.out) == Arrival(frames, seal) && After(c, r.out) == c.(register := r.register)
  {
    InStep(c, Sealed(frames, seal));
    hide Encrypt, Decrypt, SplitFrom, After;
    if frames != [] {
      SealedIsLong(frames, seal);
    }
    SplitSealed(frames, seal);
  }

  /**
    * The key switch in mid-buffer. The peer answers the request with its own public key g^b and goes on under
    * the key it derived from the request; the server derives the same key from the response, decrypts the
    * rest from its first byte with it, and dispatches exactly the peer's frames, in order, if there are any. It is
    * then in step with the peer.
    */
  lemma SwitchInMidBuffer(c: Inbound, x: Pending, g: nat, b: nat, response: seq<bv8>,
                          frames: seq<seq<bv8>>, seal: seq<bv8>)
    requires x.p > 0 && IsSeal(seal)
    requires forall k :: 0 <= k < |frames| ==> IsFrame(frames[k])
    requires ReadResponse(response) == Response(|response|, ToStr(DH.ModPower(g, b, x.p)))
    ensures var next := PeerKey(x, g, b);
            var first := PeerSends(c, response, next, frames, seal);
            && Answers(c, first) && ReceiveResponse(c, x, first) == Arrival(frames, seal)
            && AfterResponse(c, x, first)
               == next.(register := Encrypt(Blowfish.KeyStream(next.key), next.register, Sealed(frames, seal)).register)
  {
    hide Encrypt, Decrypt, ReadResponse, Receive, After, PeerKey, Negotiated, Arrival, DH.ModPower, ToStr, Sealed, IsFrame, IsSeal;
    var next := PeerKey(x, g, b);
    var rest := Encrypt(Blowfish.KeyStream(next.key), next.register, Sealed(frames, seal)).out;
    PeerIsRead(c, x, g, b, response, rest);
    SealedFramesArrive(next, frames, seal);
  }

  /** The same for a response a peer builds, with whatever padding and junk. */
  lemma PeerAnswers(c: Inbound, x: Pending, g: nat, b: nat, padding: seq<bv8>, junk: seq<bv8>,
                    frames: seq<seq<bv8>>, seal: seq<bv8>)
    requires x.p > 0 && IsSeal(seal) && |padding| == PADDING_LEN
    requires forall k :: 0 <= k < |frames| ==> IsFrame(frames[k])
    requires Announced(junk, ToStr(DH.ModPower(g, b, x.p)), seal) < 0x8000_0000
    ensures IsText(ToStr(DH.ModPower(g, b, x.p)))
    ensures var response := BuildResponse(padding, junk, ToStr(DH.ModPower(g, b, x.p)), seal);
            var next := PeerKey(x, g, b);
            var first := PeerSends(c, response, next, frames, seal);
            && Answers(c, first) && ReceiveResponse(c, x, first) == Arrival(frames, seal)
            && AfterResponse(c, x, first)
               == next.(register := Encrypt(Blowfish.KeyStream(next.key), next.register, Sealed(frames, seal)).register)
  {
    var key := ToStr(DH.ModPower(g, b, x.p));
    PrintedIsText(DH.ModPower(g, b, x.p));
    hide BuildResponse, ReadResponse, ReceiveResponse, AfterResponse, Answers, PeerSends, PeerKey, IsText, IsFrame;
    BuiltIsRead(padding, junk, key, seal);
    SwitchInMidBuffer(c, x, g, b, BuildResponse(padding, junk, key, seal), frames, seal);
  }

  lemma PrintedIsText(n: nat)
    ensures IsText(ToStr(n))
  {
    SeedOfSecret(n);
    assert forall i :: 0 <= i < |ToStr(n)| ==> IsHexDigit(ToStr(n)[i]);
  }

  /** "TQServer" */
  const SEAL: seq<bv8> := [0x54, 0x51, 0x53, 0x65, 0x72, 0x76, 0x65, 0x72]

  lemma SealIsSeal()
    ensures IsSeal(SEAL)
    ensures |SEAL| == 8 && forall i :: 0 <= i < 8 ==> SEAL[i] as char == "TQServer"[i]
  {
    assert LengthAt(SEAL, 0) == 0x54 + 256 * 0x51;
  }

  /** What each call of Client::send encrypts. */
  function Sent(msgs: seq<seq<bv8>>): seq<seq<bv8>> {
    seq(|msgs|, i requires 0 <= i < |msgs| => Sealed([msgs[i]], SEAL))
  }

  lemma {:induction false} SentFlattened(msgs: seq<seq<bv8>>)
    ensures Flatten(Sent(msgs)) == Sealed(msgs, SEAL)
  {
    if msgs == [] {
    } else {
      SentFlattened(msgs[1..]);
      assert Sent(msgs)[1..] == Sent(msgs[1..]);
      assert [msgs[0]][1..] == [];
      assert Sealed([msgs[0]], SEAL) == msgs[0] + SEAL;
    }
  }

  /**
    * A row of sends, each its own call, puts one stream on the wire: the bytes in order, and the register after them,
    * are those of one encryption of the sealed messages. A peer in step that receives them dispatches exactly the messages.
    */
  lemma RowOfSends(c: Inbound, msgs: seq<seq<bv8>>)
    ensures var row := EncryptCalls(Blowfish.KeyStream(c.key), c.register, Sent(msgs));
            Result(Flatten(row.out), row.register) == Encrypt(Blowfish.KeyStream(c.key), c.register, Sealed(msgs, SEAL))
    ensures (forall k :: 0 <= k < |msgs| ==> IsFrame(msgs[k])) ==>
              Receive(c, Flatten(EncryptCalls(Blowfish.KeyStream(c.key), c.register, Sent(msgs)).out)) == Arrival(msgs, SEAL)
  {
    hide Encrypt, Receive, IsFrame, IsSeal;
    EncryptCallsIsOneCall(Blowfish.KeyStream(c.key), c.register, Sent(msgs));
    SentFlattened(msgs);
    SealIsSeal();
    if forall k :: 0 <= k < |msgs| ==> IsFrame(msgs[k]) {
      SealedFramesArrive(c, msgs, SEAL);
    }
  }

  // ---- a whole session ----

  /** What a row of later buffers comes to, one call of the handler each. */
  function Serve(c: Inbound, buffers: seq<seq<bv8>>): seq<Outcome>
    decreases |buffers|
  {
    if buffers == [] then [] else [Receive(c, buffers[0])] + Serve(After(c, buffers[0]), buffers[1..])
  }

  /** The bytes of some groups of frames, and what is dispatched for them. */
  function SealedGroups(groups: seq<seq<seq<bv8>>>, seal: seq<bv8>): seq<seq<bv8>> {
    if groups == [] then [] else [Sealed(groups[0], seal)] + SealedGroups(groups[1..], seal)
  }

  function Arrivals(groups: seq<seq<seq<bv8>>>, seal: seq<bv8>): seq<Outcome> {
    if groups == [] then [] else [Arrival(groups[0], seal)] + Arrivals(groups[1..], seal)
  }

  ghost predicate AreGroups(groups: seq<seq<seq<bv8>>>) {
    forall i, k :: 0 <= i < |groups| && 0 <= k < |groups[i]| ==> IsFrame(groups[i][k])
  }

  /** However many buffers the peer fills with sealed frames: each dispatches exactly its frames, in order. */
  lemma {:induction false} BuffersArrive(c: Inbound, groups: seq<seq<seq<bv8>>>, seal: seq<bv8>)
    requires IsSeal(seal) && AreGroups(groups)
    ensures Serve(c, EncryptCalls(Blowfish.KeyStream(c.key), c.register, SealedGroups(groups, seal)).out) == Arrivals(groups, seal)
    decreases |groups|
  {
    hide Encrypt, Receive, After, Sealed, IsFrame, IsSeal, Arrival, Blowfish.KeyStream;
    if groups == [] {
    } else {
      var m, sealed := Blowfish.KeyStream(c.key), Sealed(groups[0], seal);
      SealedFramesArrive(c, groups[0], seal);
      var x := Encrypt(m, c.register, sealed);
      BuffersArrive(c.(register := x.register), groups[1..], seal);
      FirstCall(m, c.register, sealed, SealedGroups(groups[1..], seal));
    }
  }

  /** A row of calls is the first one and the others. */
  lemma FirstCall(m: Stream<Register, bv8>, r: Register, chunk: seq<bv8>, chunks: seq<seq<bv8>>)
    ensures var x := Encrypt(m, r, chunk);
            EncryptCalls(m, r, [chunk] + chunks).out == [x.out] + EncryptCalls(m, x.register, chunks).out
  {
    hide Encrypt;
    assert ([chunk] + chunks)[1..] == chunks;
  }

  /**
    * A whole session: the peer's response with some sealed frames behind it, or none, in the first buffer, then any
    * number of buffers of sealed frames under the running register. Everything arrives as it was sent.
    */
  lemma SessionArrives(c: Inbound, x: Pending, g: nat, b: nat, response: seq<bv8>,
                       frames: seq<seq<bv8>>, groups: seq<seq<seq<bv8>>>, seal: seq<bv8>)
    requires x.p > 0 && IsSeal(seal) && AreGroups(groups) && forall k :: 0 <= k < |frames| ==> IsFrame(frames[k])
    requires ReadResponse(response) == Response(|response|, ToStr(DH.ModPower(g, b, x.p)))
    ensures var next := PeerKey(x, g, b);
            var first := PeerSends(c, response, next, frames, seal);
            var register := Encrypt(Blowfish.KeyStream(next.key), next.register, Sealed(frames, seal)).register;
            var later := EncryptCalls(Blowfish.KeyStream(next.key), register, SealedGroups(groups, seal)).out;
            && Answers(c, first)
            && [ReceiveResponse(c, x, first)] + Serve(AfterResponse(c, x, first), later) == Arrivals([frames] + groups, seal)
  {
    hide Encrypt, ReadResponse, ReceiveResponse, AfterResponse, Answers, Serve, EncryptCalls, SealedGroups, Sealed, Arrival;
    hide PeerKey, PeerSends, DH.ModPower, ToStr, IsFrame, IsSeal, Blowfish.KeyStream;
    var next := PeerKey(x, g, b);
    SwitchInMidBuffer(c, x, g, b, response, frames, seal);
    var register := Encrypt(Blowfish.KeyStream(next.key), next.register, Sealed(frames, seal)).register;
    BuffersArrive(next.(register := register), groups, seal);
    assert ([frames] + groups)[1..] == groups;
  }

  // ---- the connection object ----

  lemma Parts(s: seq<bv8>, n: nat, len: nat)
    requires n <= len <= |s|
    ensures s[..n] + s[n..len] == s[..len] && s[..len] + s[len..] == s
  {
  }

  class Client {
    const mCipher: Blowfish.Cipher
    var mExchange: DH.Exchange?
    var mEncryptIV: array?<bv8>
    var mDecryptIV: array?<bv8>
    var mStatus: Status

    ghost predicate Valid()
      reads this, mCipher, mExchange
    {
      && mCipher.Valid()
      && (mStatus == KEY_EXCHANGE ==>
            && mExchange != null && mExchange.a.Big? && mExchange.p == Modulus()
            && mEncryptIV != null && mEncryptIV.Length == 8
            && mDecryptIV != null && mDecryptIV.Length == 8
            && mEncryptIV != mCipher.mEnIV && mEncryptIV != mCipher.mDeIV
            && mDecryptIV != mCipher.mEnIV && mDecryptIV != mCipher.mDeIV)
    }

    ghost function Incoming(): Inbound
      requires Valid()
      reads this, mCipher, mExchange, mCipher.mP, mCipher.mS, mCipher.mDeIV
    {
      Inbound(mCipher.CurrentKey(), mCipher.DecryptRegister())
    }

    ghost function Exchanging(): Pending
      requires Valid() && mStatus == KEY_EXCHANGE
      reads this, mCipher, mExchange, mEncryptIV, mDecryptIV
    {
      Pending(mCipher.initial, mExchange.p, mExchange.a.n, mEncryptIV[..], mDecryptIV[..])
    }

    /** A connection to the message server: the fixed key, and the state the exchange starts from. */
    constructor (initial: Blowfish.Keyed, seed: seq<uint8>)
      requires seed != []
      ensures Valid() && mStatus == OTHER && mCipher.initial == initial
      ensures fresh(mCipher) && fresh(mCipher.mP) && fresh(mCipher.mS) && fresh(mCipher.mEnIV) && fresh(mCipher.mDeIV)
      ensures Incoming() == Inbound(Blowfish.Schedule(initial, seed), Register(seq(8, i => 0), 0))
    {
      mCipher := new Blowfish.Cipher(initial);
      mExchange, mEncryptIV, mDecryptIV, mStatus := null, null, null, OTHER;
      new;
      mCipher.GenerateKey(seed);
    }

    /**
      * The status a new connection gets (src/server.cpp:270), and the request for the exchange, with the random prime
      * and the random vectors it drew. `proof` lays out the message that carries them; it leaves sealed and encrypted.
      */
    method GenerateExchangeRequest(prime: nat, encryptIV: Block, decryptIV: Block, proof: (Block, Block, string, string, string) -> seq<bv8>)
      returns (pubKey: string, data: seq<bv8>)
      requires Valid() && mExchange == null
      modifies this, mCipher`mEnNum, mCipher.mEnIV
      ensures Valid() && mStatus == KEY_EXCHANGE
      ensures Exchanging() == Pending(mCipher.initial, Modulus(), prime, encryptIV, decryptIV)
      ensures DH.Read(pubKey) == DH.ModPower(DH.Read(G_TEXT), prime, Modulus())
      ensures Incoming() == old(Incoming()) && mCipher.CurrentKey() == old(mCipher.CurrentKey())
      ensures var r := Encrypt(Blowfish.KeyStream(mCipher.CurrentKey()), old(mCipher.EncryptRegister()),
                               Sealed([proof(encryptIV, decryptIV, P_TEXT, G_TEXT, pubKey)], SEAL));
              data == r.out && mCipher.EncryptRegister() == r.register
    {
      pubKey := MakeRequest(prime, encryptIV, decryptIV);
      hide Encrypt, Blowfish.KeyStream, Modulus, DH.ModPower, DH.Read;
      data := Send(proof(encryptIV, decryptIV, P_TEXT, G_TEXT, pubKey));
    }

    method MakeRequest(prime: nat, encryptIV: Block, decryptIV: Block) returns (pubKey: string)
      requires Valid() && mExchange == null
      modifies this
      ensures Valid() && mStatus == KEY_EXCHANGE && fresh(mExchange) && fresh(mEncryptIV) && fresh(mDecryptIV)
      ensures Exchanging() == Pending(mCipher.initial, Modulus(), prime, encryptIV, decryptIV)
      ensures DH.Read(pubKey) == DH.ModPower(DH.Read(G_TEXT), prime, Modulus())
    {
      hide DH.ModPower, DH.Read, Pow;
      mStatus := KEY_EXCHANGE;
      mExchange := new DH.Exchange(P_TEXT, G_TEXT);
      assert mExchange.p == Modulus();
      pubKey := mExchange.GenerateRequest(prime);
      mEncryptIV := new bv8[8](i requires 0 <= i < 8 => encryptIV[i]);
      mDecryptIV := new bv8[8](i requires 0 <= i < 8 => decryptIV[i]);
      assert mEncryptIV[..] == encryptIV && mDecryptIV[..] == decryptIV;
    }

    /** The seed buffer holds 256 bytes, enough for a 2048-bit secret. */
    static method DecodeSeed(sKey: string, ghost secret: nat) returns (seed: seq<uint8>)
      requires sKey == ToStr(secret) && |sKey| <= 512
      ensures seed == Seed(secret)
    {
      hide HexBytes, GoodPairs, ToStr;
      var buffer := new uint8[256];
      var success, seedLen := Hex2Bin(sKey, buffer);
      SeedOfSecret(secret);
      seed := buffer[..seedLen];
    }

    /** The reply of the peer: the key is negotiated, the vectors are set, the exchange is over. */
    method HandleExchangeResponse(plain: seq<bv8>) returns (ok: bool)
      requires Valid() && mStatus == KEY_EXCHANGE
      modifies this, mExchange, mCipher`mEnNum, mCipher`mDeNum, mCipher.mP, mCipher.mS, mCipher.mEnIV, mCipher.mDeIV
      ensures Valid() && (ok <==> ReadResponse(plain).Response?)
      ensures !ok ==> mStatus == KEY_EXCHANGE && Incoming() == old(Incoming())
      ensures ok ==>
                && old(Exchanging()).p > 0
                && mStatus == NORMAL && mExchange == null
                && Incoming() == Inbound(Negotiated(old(Exchanging()), ReadResponse(plain).key),
                                         Register(old(Exchanging()).decryptIV, 0))
                && mCipher.EncryptRegister() == Register(old(Exchanging()).encryptIV, 0)
    {
      hide ReadResponse, Blowfish.Schedule, HexBytes, DH.ModPower, DH.Read, ToStr, Pow, Modulus;
      var response := ReadResponse(plain);
      if response.Malformed? {
        return false;
      }
      var sKey := mExchange.HandleResponse(response.key);
      DH.ModPowerBelow(DH.Read(response.key), mExchange.a.n, mExchange.p);
      SecretFits(mExchange.s.n);
      var seed := DecodeSeed(sKey, mExchange.s.n);
      mCipher.GenerateKey(seed);
      mCipher.SetIVs(mEncryptIV, mDecryptIV);
      mStatus := NORMAL;
      mExchange, mEncryptIV, mDecryptIV := null, null, null;
      ok := true;
    }

    /** A message leaves with the seal behind it, both encrypted in one call. */
    method Send(msg: seq<bv8>) returns (data: seq<bv8>)
      requires Valid()
      modifies mCipher`mEnNum, mCipher.mEnIV
      ensures Valid() && Incoming() == old(Incoming())
      ensures var r := Encrypt(Blowfish.KeyStream(mCipher.CurrentKey()), old(mCipher.EncryptRegister()), Sealed([msg], SEAL));
              data == r.out && mCipher.EncryptRegister() == r.register
    {
      hide Encrypt, Blowfish.KeyStream, Modulus;
      var len := |msg| + SEAL_LEN;
      var buffer := new bv8[len](i requires 0 <= i < len => if i < |msg| then msg[i] else SEAL[i - |msg|]);
      assert buffer[..len] == msg + SEAL == Sealed([msg], SEAL);
      mCipher.Encrypt(buffer, 0, len);
      data := buffer[..];
    }

    /** The first `n` bytes of the buffer are decrypted, the others as they were received. */
    ghost predicate DecryptedTo(received: array<bv8>, c: Inbound, bytes: seq<bv8>, n: nat)
      reads this, received, mCipher, mExchange, mCipher.mP, mCipher.mS, mCipher.mDeIV
    {
      && Valid() && n <= received.Length == |bytes|
      && received[..n] == DecryptAll(c, bytes[..n]).out && received[n..] == bytes[n..]
      && Incoming() == Inbound(c.key, DecryptAll(c, bytes[..n]).register)
    }

    /** The same on values. */
    lemma DecryptFurther(c: Inbound, bytes: seq<bv8>, cur: seq<bv8>, n: nat, len: nat)
      requires n <= len <= |bytes| == |cur|
      requires cur[..n] == DecryptAll(c, bytes[..n]).out && cur[n..] == bytes[n..]
      ensures cur[n..len] == bytes[n..len]
      ensures var r := Decrypt(Blowfish.KeyStream(c.key), DecryptAll(c, bytes[..n]).register, cur[n..len]);
              && r.register == DecryptAll(c, bytes[..len]).register
              && (cur[..n] + r.out + cur[len..])[..len] == DecryptAll(c, bytes[..len]).out
              && (cur[..n] + r.out + cur[len..])[len..] == bytes[len..]
    {
      hide Decrypt, Blowfish.KeyStream;
      Parts(bytes, n, len);
      DecryptConcat(Blowfish.KeyStream(c.key), c.register, bytes[..n], bytes[n..len]);
      assert cur[n..len] == cur[n..][..len - n] == bytes[n..][..len - n] == bytes[n..len];
      assert cur[len..] == cur[n..][len - n..] == bytes[n..][len - n..] == bytes[len..];
    }

    /** One more decrypt call on the buffer. */
    method DecryptMore(received: array<bv8>, n: nat, len: nat, ghost c: Inbound, ghost bytes: seq<bv8>)
      requires DecryptedTo(received, c, bytes, n) && n <= len <= received.Length
      requires received != mCipher.mEnIV && received != mCipher.mDeIV
      modifies received, mCipher`mDeNum, mCipher.mDeIV
      ensures DecryptedTo(received, c, bytes, len)
    {
      hide Decrypt, Modulus, Blowfish.KeyStream;
      DecryptFurther(c, bytes, received[..], n, len);
      mCipher.Decrypt(received, n, len - n);
    }

    /** What is decrypted in front is the front of the whole, decrypted. */
    lemma DecryptedFront(received: array<bv8>, c: Inbound, bytes: seq<bv8>, n: nat)
      requires DecryptedTo(received, c, bytes, n)
      ensures received[..n] == DecryptAll(c, bytes).out[..n]
    {
      hide Decrypt;
      Parts(bytes, n, n);
      DecryptConcat(Blowfish.KeyStream(c.key), c.register, bytes[..n], bytes[n..]);
    }

    /** Decrypt up to the size, then the rest of the response; zero if the size does not fit the buffer. */
    method DecryptResponse(received: array<bv8>) returns (len: nat)
      requires Valid() && mStatus == KEY_EXCHANGE && received != mCipher.mEnIV && received != mCipher.mDeIV
      requires received != mEncryptIV && received != mDecryptIV
      modifies received, mCipher`mDeNum, mCipher.mDeIV
      ensures Valid()
      ensures var plain := old(DecryptAll(Incoming(), received[..]).out);
              if len == 0 then ReadResponse(plain).Malformed?
              else
                && len <= received.Length && received[..len] == plain[..len] && received[len..] == old(received[..])[len..]
                && ReadResponse(plain[..len]) == ReadResponse(plain)
                && (ReadResponse(plain).Response? ==> ReadResponse(plain).len == len)
    {
      hide Decrypt, IntAt, ReadResponse, Modulus;
      ghost var c, bytes := Incoming(), received[..];
      ghost var plain := DecryptAll(c, bytes).out;
      UnfitResponse(plain);
      if received.Length < PADDING_LEN + INT_LEN {
        return 0;
      }
      var n := PADDING_LEN + INT_LEN;
      EncryptNothing(Blowfish.KeyStream(c.key), c.register);
      assert bytes[..0] == [] && bytes[0..] == received[0..];
      DecryptMore(received, 0, n, c, bytes);
      DecryptedFront(received, c, bytes, n);
      var size := IntAt(received[..n], PADDING_LEN);
      IntAtPrefix(plain[..n], plain[n..], PADDING_LEN);
      assert plain[..n] + plain[n..] == plain;
      if PADDING_LEN + size < MIN_LEN || PADDING_LEN + size > received.Length {
        return 0;
      }
      len := PADDING_LEN + size;
      DecryptMore(received, n, len, c, bytes);
      DecryptedFront(received, c, bytes, len);
      CutResponse(plain);
    }

    /** The case KEY_EXCHANGE: the response is handled, and what is behind it comes to the front of the buffer. */
    method ReceiveExchange(received: array<bv8>) returns (ok: bool, len: nat)
      requires Valid() && mStatus == KEY_EXCHANGE && HEADER_LEN <= received.Length
      requires received != mCipher.mEnIV && received != mCipher.mDeIV && received != mEncryptIV && received != mDecryptIV
      modifies received, this, mExchange, mCipher`mEnNum, mCipher`mDeNum, mCipher.mP, mCipher.mS, mCipher.mEnIV, mCipher.mDeIV
      ensures Valid() && len <= received.Length && (ok <==> mStatus == NORMAL) && (!ok ==> mStatus == KEY_EXCHANGE)
      ensures var response := ReadResponse(old(DecryptAll(Incoming(), received[..]).out));
              && ok == response.Response? && old(Exchanging()).p > 0
              && (ok ==>
                    && mExchange == null && response.len == len
                    && received[..received.Length - len] == old(received[..])[len..]
                    && Incoming() == Inbound(Negotiated(old(Exchanging()), response.key), Register(old(Exchanging()).decryptIV, 0))
                    && mCipher.EncryptRegister() == Register(old(Exchanging()).encryptIV, 0))
    {
      hide ReadResponse, Decrypt, Negotiated, Blowfish.KeyStream, Pow, Modulus;
      len := DecryptResponse(received);
      if len == 0 {
        return false, 0;
      }
      ok := HandleExchangeResponse(received[..len]);
      if ok {
        MoveToFront(received, len);
      }
    }

    method ReceiveHandler(aBuf: seq<bv8>) returns (o: Outcome)
      requires Valid()
      modifies this, mExchange, mCipher`mEnNum, mCipher`mDeNum, mCipher.mP, mCipher.mS, mCipher.mEnIV, mCipher.mDeIV
      ensures Valid()
      ensures |aBuf| < HEADER_LEN ==> mStatus == old(mStatus) && Incoming() == old(Incoming())
      ensures old(mStatus) != KEY_EXCHANGE ==>
                && o == Receive(old(Incoming()), aBuf) && Incoming() == After(old(Incoming()), aBuf)
                && mStatus == old(mStatus) && mCipher.EncryptRegister() == old(mCipher.EncryptRegister())
      ensures old(mStatus) == KEY_EXCHANGE ==>
                && old(Exchanging()).p > 0
                && o == ReceiveResponse(old(Incoming()), old(Exchanging()), aBuf)
                && (Answers(old(Incoming()), aBuf) <==> mStatus == NORMAL)
                && (mStatus == NORMAL ==>
                      && mExchange == null
                      && Incoming() == AfterResponse(old(Incoming()), old(Exchanging()), aBuf)
                      && mCipher.EncryptRegister() == Register(old(Exchanging()).encryptIV, 0))
    {
      hide ReadResponse, Decrypt, SplitFrom, Negotiated, Blowfish.KeyStream, Pow, Modulus;
      var aLen := |aBuf|;
      if aLen < HEADER_LEN {
        return TooShort;
      }
      var received := new bv8[aLen](i requires 0 <= i < aLen => aBuf[i]);
      assert received[..] == aBuf;
      if mStatus == KEY_EXCHANGE {
        var ok, len := ReceiveExchange(received);
        if !ok {
          return BadResponse;
        }
        aLen := aLen - len;
      }
      assert old(mStatus) != KEY_EXCHANGE ==> received[..aLen] == aBuf;
      if aLen < HEADER_LEN {
        return TooShort;
      }
      var s := DecryptAndSplit(received, aLen);
      o := Dispatched(s);
    }

    /** Decrypt the first `aLen` bytes with the current key and split them. */
    method DecryptAndSplit(received: array<bv8>, aLen: nat) returns (s: Split)
      requires Valid() && aLen <= received.Length && received != mCipher.mEnIV && received != mCipher.mDeIV
      modifies received, mCipher`mDeNum, mCipher.mDeIV
      ensures mCipher.Valid()
      ensures mCipher.CurrentKey() == old(mCipher.CurrentKey())
      ensures var r := old(DecryptAll(Incoming(), received[..aLen]));
              s == SplitFrom(r.out, 0) && mCipher.DecryptRegister() == r.register
    {
      hide Decrypt, SplitFrom, Blowfish.KeyStream, Modulus;
      mCipher.Decrypt(received, 0, aLen);
      assert received[..aLen] == old(DecryptAll(Incoming(), received[..aLen])).out;
      s := SplitBuffer(received, aLen);
    }

    /** The bytes from a position on, moved to the front of the buffer. */
    static method MoveToFront(received: array<bv8>, from: nat)
      requires from <= received.Length
      modifies received
      ensures received[..received.Length - from] == old(received[from..])
    {
      for i := 0 to received.Length - from
        invariant received[..i] == old(received[from..])[..i]
        invariant received[from + i..] == old(received[from + i..])
      {
        assert received[from + i] == old(received[from + i]) by {
          assert received[from + i..][0] == received[from + i];
        }
        received[i] := received[from + i];
      }
    }
  }
}
