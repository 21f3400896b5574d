/**
  * Feedback streams: each byte is mixed with a keystream byte taken from a register, and the ciphertext
  * byte is fed back into the register. Nothing here depends on what the register or a byte is.
  */
module Feedback {
  import opened Basics

  /** How a register yields its next keystream byte, absorbs a ciphertext byte, and how bytes are mixed. */
  datatype Stream<!S, !B(!new)> = Stream(key: S -> B, feed: (S, B) -> S, mix: (B, B) -> B) {
    /** Mixing twice with the same keystream byte is a no-op. */
    ghost predicate Involutive() {
      forall x, k :: mix(mix(x, k), k) == x
    }
  }

  /** The bytes a call leaves in its buffer and the register it leaves behind. */
  datatype Result<S, B> = Result(out: seq<B>, register: S)

  function Encrypt<S, B(!new)>(m: Stream<S, B>, s: S, plain: seq<B>): (r: Result<S, B>)
    ensures |r.out| == |plain|
  {
    if plain == [] then Result([], s)
    else
      var r := Encrypt(m, s, plain[..|plain| - 1]);
      var c := m.mix(plain[|plain| - 1], m.key(r.register));
      Result(r.out + [c], m.feed(r.register, c))
  }

  function Decrypt<S, B(!new)>(m: Stream<S, B>, s: S, cipher: seq<B>): (r: Result<S, B>)
    ensures |r.out| == |cipher|
  {
    if cipher == [] then Result([], s)
    else
      var r := Decrypt(m, s, cipher[..|cipher| - 1]);
      var c := cipher[|cipher| - 1];
      Result(r.out + [m.mix(c, m.key(r.register))], m.feed(r.register, c))
  }

  lemma EncryptNothing<S, B(!new)>(m: Stream<S, B>, s: S)
    ensures Encrypt(m, s, []) == Decrypt(m, s, []) == Result([], s)
  {
  }

  // ---- cutting the stream into calls ----

  lemma {:induction false} EncryptConcat<S, B(!new)>(m: Stream<S, B>, s: S, a: seq<B>, b: seq<B>)
    ensures var x := Encrypt(m, s, a);
            var y := Encrypt(m, x.register, b);
            Encrypt(m, s, a + b) == Result(x.out + y.out, y.register)
  {
    var x := Encrypt(m, s, a);
    if b == [] {
      assert a + b == a && x.out + [] == x.out;
    } else {
      var front := b[..|b| - 1];
      EncryptConcat(m, s, a, front);
      assert (a + b)[..|a + b| - 1] == a + front;
      var y := Encrypt(m, x.register, front);
      var c := m.mix(b[|b| - 1], m.key(y.register));
      assert x.out + (y.out + [c]) == (x.out + y.out) + [c];
    }
  }

  lemma {:induction false} DecryptConcat<S, B(!new)>(m: Stream<S, B>, s: S, a: seq<B>, b: seq<B>)
    ensures var x := Decrypt(m, s, a);
            var y := Decrypt(m, x.register, b);
            Decrypt(m, s, a + b) == Result(x.out + y.out, y.register)
  {
    var x := Decrypt(m, s, a);
    if b == [] {
      assert a + b == a && x.out + [] == x.out;
    } else {
      var front := b[..|b| - 1];
      DecryptConcat(m, s, a, front);
      assert (a + b)[..|a + b| - 1] == a + front;
      var y := Decrypt(m, x.register, front);
      var p := m.mix(b[|b| - 1], m.key(y.register));
      assert x.out + (y.out + [p]) == (x.out + y.out) + [p];
    }
  }

  /** One call per chunk, the register carried from call to call: the buffers left behind, in order. */
  function EncryptCalls<S, B(!new)>(m: Stream<S, B>, s: S, chunks: seq<seq<B>>): (r: Result<S, seq<B>>)
    decreases |chunks|
  {
    if chunks == [] then Result([], s)
    else
      var x := Encrypt(m, s, chunks[0]);
      var rest := EncryptCalls(m, x.register, chunks[1..]);
      Result([x.out] + rest.out, rest.register)
  }

  function DecryptCalls<S, B(!new)>(m: Stream<S, B>, s: S, chunks: seq<seq<B>>): (r: Result<S, seq<B>>)
    decreases |chunks|
  {
    if chunks == [] then Result([], s)
    else
      var x := Decrypt(m, s, chunks[0]);
      var rest := DecryptCalls(m, x.register, chunks[1..]);
      Result([x.out] + rest.out, rest.register)
  }

  lemma {:induction false} EncryptCallsIsOneCall<S, B(!new)>(m: Stream<S, B>, s: S, chunks: seq<seq<B>>)
    ensures var r := EncryptCalls(m, s, chunks);
            Encrypt(m, s, Flatten(chunks)) == Result(Flatten(r.out), r.register)
    decreases |chunks|
  {
    if chunks == [] {
    } else {
      var x := Encrypt(m, s, chunks[0]);
      var rest := EncryptCalls(m, x.register, chunks[1..]);
      EncryptCallsIsOneCall(m, x.register, chunks[1..]);
      EncryptConcat(m, s, chunks[0], Flatten(chunks[1..]));
      assert ([x.out] + rest.out)[1..] == rest.out;
    }
  }

  lemma {:induction false} DecryptCallsIsOneCall<S, B(!new)>(m: Stream<S, B>, s: S, chunks: seq<seq<B>>)
    ensures var r := DecryptCalls(m, s, chunks);
            Decrypt(m, s, Flatten(chunks)) == Result(Flatten(r.out), r.register)
    decreases |chunks|
  {
    if chunks == [] {
    } else {
      var x := Decrypt(m, s, chunks[0]);
      var rest := DecryptCalls(m, x.register, chunks[1..]);
      DecryptCallsIsOneCall(m, x.register, chunks[1..]);
      DecryptConcat(m, s, chunks[0], Flatten(chunks[1..]));
      assert ([x.out] + rest.out)[1..] == rest.out;
    }
  }

  // ---- the round trip ----

  /** One call each way: the plaintext comes back and both ends hold the same register. */
  lemma {:induction false} DecryptUndoesEncrypt<S, B(!new)>(m: Stream<S, B>, s: S, plain: seq<B>)
    requires m.Involutive()
    ensures var r := Encrypt(m, s, plain);
            Decrypt(m, s, r.out) == Result(plain, r.register)
  {
    if plain == [] {
    } else {
      var front := plain[..|plain| - 1];
      DecryptUndoesEncrypt(m, s, front);
      var r := Encrypt(m, s, front);
      assert Encrypt(m, s, plain).out[..|front|] == r.out;
      assert front + [plain[|plain| - 1]] == plain;
    }
  }

  lemma {:induction false} EncryptUndoesDecrypt<S, B(!new)>(m: Stream<S, B>, s: S, cipher: seq<B>)
    requires m.Involutive()
    ensures var r := Decrypt(m, s, cipher);
            Encrypt(m, s, r.out) == Result(cipher, r.register)
  {
    if cipher == [] {
    } else {
      var front := cipher[..|cipher| - 1];
      EncryptUndoesDecrypt(m, s, front);
      var r := Decrypt(m, s, front);
      assert Decrypt(m, s, cipher).out[..|front|] == r.out;
      assert front + [cipher[|cipher| - 1]] == cipher;
    }
  }

  /** The sender cuts the stream one way and the receiver another: the plaintext still comes back. */
  lemma StreamRoundTrip<S, B(!new)>(m: Stream<S, B>, s: S, sent: seq<seq<B>>, received: seq<seq<B>>)
    requires m.Involutive()
    requires Flatten(received) == Flatten(EncryptCalls(m, s, sent).out)
    ensures Flatten(DecryptCalls(m, s, received).out) == Flatten(sent)
    ensures DecryptCalls(m, s, received).register == EncryptCalls(m, s, sent).register
  {
    EncryptCallsIsOneCall(m, s, sent);
    DecryptCallsIsOneCall(m, s, received);
    DecryptUndoesEncrypt(m, s, Flatten(sent));
  }

  /** After equally many bytes the two ends hold the same register, wherever the calls were cut. */
  lemma RegistersAgree<S, B(!new)>(m: Stream<S, B>, s: S, plain: seq<B>, n: nat)
    requires m.Involutive() && n <= |plain|
    ensures Decrypt(m, s, Encrypt(m, s, plain).out[..n]) == Result(plain[..n], Encrypt(m, s, plain[..n]).register)
  {
    assert plain[..n] + plain[n..] == plain;
    EncryptConcat(m, s, plain[..n], plain[n..]);
    assert Encrypt(m, s, plain).out[..n] == Encrypt(m, s, plain[..n]).out;
    DecryptUndoesEncrypt(m, s, plain[..n]);
  }
}
