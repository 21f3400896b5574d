/** The Diffie-Hellman exchange, its public keys carried as hexadecimal text. */
module DiffieHellman {
  import opened Basics
  import opened Numerals

  // ---- modular powers ----

  function ModPower(b: nat, e: nat, p: nat): nat
    requires p > 0
  {
    Pow(b, e) % p
  }

  lemma ModPowerBelow(b: nat, e: nat, p: nat)
    requires p > 0
    ensures ModPower(b, e, p) < p
  {
  }

  /** A factor may be reduced before a product is. */
  lemma ModFactor(x: nat, y: nat, p: nat)
    requires p > 0
    ensures ((x % p) * y) % p == (x * y) % p
  {
    var q, r := x / p, x % p;
    assert x == q * p + r;
    Product(q, p, r, y);
    AddMultiple(q * y, r * y, p);
  }

  lemma SumOfMultiples(k: nat, q: nat, r: nat, p: nat)
    requires r < p
    ensures (k * p + q * p + r) % p == r
  {
    Gather(k, q, p);
    DivModUnique(k + q, p, r);
  }

  lemma Gather(k: nat, q: nat, p: nat)
    ensures k * p + q * p == (k + q) * p
  {
  }

  lemma AddMultiple(k: nat, n: nat, p: nat)
    requires p > 0
    ensures (k * p + n) % p == n % p
  {
    var q, r := n / p, n % p;
    assert n == q * p + r;
    SumOfMultiples(k, q, r, p);
  }

  lemma Product(q: nat, p: nat, r: nat, y: nat)
    ensures (q * p + r) * y == (q * y) * p + r * y
  {
    assert (q * p) * y == (q * y) * p;
  }

  lemma {:induction false} ModPowerOfRest(x: nat, e: nat, p: nat)
    requires p > 0
    ensures ModPower(x % p, e, p) == ModPower(x, e, p)
  {
    if e == 0 {
    } else {
      ModPowerOfRest(x, e - 1, p);
      var u, v := Pow(x % p, e - 1), Pow(x, e - 1);
      ModFactor(x, u, p);
      Commute(x, u);
      Commute(x, v);
      ModFactor(u, x, p);
      ModFactor(v, x, p);
    }
  }

  lemma Commute(x: nat, y: nat)
    ensures x * y == y * x
  {
  }

  lemma {:induction false} PowAdd(g: nat, m: nat, n: nat)
    ensures Pow(g, m + n) == Pow(g, m) * Pow(g, n)
  {
    if m == 0 {
    } else {
      PowAdd(g, m - 1, n);
      Associate(g, Pow(g, m - 1), Pow(g, n));
    }
  }

  lemma Associate(x: nat, y: nat, z: nat)
    ensures (x * y) * z == x * (y * z)
  {
  }

  lemma {:induction false} PowPow(g: nat, m: nat, n: nat)
    ensures Pow(Pow(g, m), n) == Pow(g, m * n)
  {
    if n == 0 {
    } else {
      PowPow(g, m, n - 1);
      assert m * n == m + m * (n - 1);
      PowAdd(g, m, m * (n - 1));
    }
  }

  /** The powers of a number modulo p, each the one before times the number, from the power zero on. */
  ghost predicate ArePowers(c: seq<nat>, b: nat, p: nat)
    requires p > 0
  {
    && (c != [] ==> c[0] == 1 % p)
    && forall e, next :: 0 <= e < next < |c| && next == e + 1 ==> c[next] == (b * c[e]) % p
  }

  /** The power zero is one, and one power further is one factor more, modulo p. */
  lemma ModPowerLaws(b: nat, e: nat, p: nat)
    requires p > 0
    ensures ModPower(b, 0, p) == 1 % p
    ensures ModPower(b, e + 1, p) == (b * ModPower(b, e, p)) % p
  {
    var x := Pow(b, e);
    ModFactor(x, b, p);
    Commute(x, b);
    Commute(x % p, b);
  }

  /** So it is what repeated multiplication reaches. */
  lemma {:induction false} ModPowerIsRepeated(c: seq<nat>, b: nat, e: nat, p: nat)
    requires p > 0 && ArePowers(c, b, p) && e < |c|
    ensures ModPower(b, e, p) == c[e]
  {
    if e == 0 {
      ModPowerLaws(b, 0, p);
    } else {
      ModPowerIsRepeated(c, b, e - 1, p);
      ModPowerLaws(b, e - 1, p);
    }
  }

  /** Both ends raise the other's public key to their own exponent and reach the same number. */
  lemma SecretsAgree(g: nat, a: nat, b: nat, p: nat)
    requires p > 0
    ensures ModPower(ModPower(g, b, p), a, p) == ModPower(ModPower(g, a, p), b, p) == ModPower(g, a * b, p)
  {
    ModPowerOfRest(Pow(g, b), a, p);
    ModPowerOfRest(Pow(g, a), b, p);
    PowPow(g, b, a);
    PowPow(g, a, b);
    Commute(a, b);
  }

  // ---- the exchange ----

  /** What str_to_bi_base(format_bi_str(text), 16) reads. */
  function Read(text: string): nat {
    Parse(Lower(text))
  }

  lemma ReadPrinted(n: nat)
    ensures Read(ToStr(n)) == n
  {
    ParseLower(ToStr(n));
    ParsePrinted(n);
  }

  /** The text `handleResponse` gives for the secret the other end computed in `generateResponse`. */
  lemma KeyAgreement(p: nat, g: nat, a: nat, b: nat)
    requires p > 0
    ensures var request := ToStr(ModPower(g, a, p));
            var response := ToStr(ModPower(g, b, p));
            ModPower(Read(response), a, p) == ModPower(Read(request), b, p) == ModPower(g, a * b, p)
    ensures forall c :: ArePowers(c, g, p) && a * b < |c| ==> ModPower(g, a * b, p) == c[a * b]
  {
    forall c | ArePowers(c, g, p) && a * b < |c|
      ensures ModPower(g, a * b, p) == c[a * b]
    {
      ModPowerIsRepeated(c, g, a * b, p);
    }
    ReadPrinted(ModPower(g, a, p));
    ReadPrinted(ModPower(g, b, p));
    SecretsAgree(g, a, b, p);
  }

  /** A big integer that may not have been computed yet. */
  datatype Number = Null | Big(n: nat)

  class Exchange {
    const p: nat
    const g: nat
    var a: Number
    var b: Number
    var s: Number
    var A: Number
    var B: Number

    constructor (aP: string, aG: string)
      ensures p == Read(aP) && g == Read(aG)
      ensures a == b == s == A == B == Null
    {
      p, g := Parse(Lower(aP)), Parse(Lower(aG));
      a, b, s, A, B := Null, Null, Null, Null, Null;
    }

    /** format_bi_str, character by character. */
    static method FormatBiStr(str: string) returns (buf: string)
      ensures buf == Lower(str)
    {
      buf := "";
      for i := 0 to |str|
        invariant buf == Lower(str)[..i]
      {
        buf := buf + [LowerChar(str[i])];
      }
    }

    /** `prime` is the number the random prime generator returned. */
    method GenerateRequest(prime: nat) returns (request: string)
      requires p > 0
      modifies `a, `A
      ensures a == Big(prime) && A == Big(ModPower(g, prime, p))
      ensures Read(request) == ModPower(g, prime, p)
      ensures request == ToStr(A.n)
    {
      a := Big(prime);
      A := Big(ModPower(g, a.n, p));
      request := ToStr(A.n);
      ReadPrinted(A.n);
    }

    method GenerateResponse(aPubKey: string, prime: nat) returns (response: string)
      requires p > 0
      modifies `b, `B, `A, `s
      ensures b == Big(prime) && B == Big(ModPower(g, prime, p)) && A == Big(Read(aPubKey))
      ensures s == Big(ModPower(Read(aPubKey), prime, p))
      ensures response == ToStr(B.n) && Read(response) == B.n
    {
      b := Big(prime);
      B := Big(ModPower(g, b.n, p));
      var text := FormatBiStr(aPubKey);
      A := Big(Parse(text));
      s := Big(ModPower(A.n, b.n, p));
      response := ToStr(B.n);
      ReadPrinted(B.n);
    }

    method HandleResponse(aPubKey: string) returns (response: string)
      requires p > 0 && a.Big?
      modifies `B, `s
      ensures B == Big(Read(aPubKey)) && s == Big(ModPower(Read(aPubKey), a.n, p))
      ensures response == ToStr(s.n) && Read(response) == s.n
    {
      var text := FormatBiStr(aPubKey);
      B := Big(Parse(text));
      s := Big(ModPower(B.n, a.n, p));
      response := ToStr(s.n);
      ReadPrinted(s.n);
    }
  }

  /** A whole exchange between two objects that were given the same P and G. */
  method AgreeOnSecret(aP: string, aG: string, primeA: nat, primeB: nat) returns (secret: string, peer: nat)
    requires Read(aP) > 0
    ensures Read(secret) == peer == ModPower(Read(aG), primeA * primeB, Read(aP))
    ensures forall c :: ArePowers(c, Read(aG), Read(aP)) && primeA * primeB < |c| ==> peer == c[primeA * primeB]
  {
    var server := new Exchange(aP, aG);
    var client := new Exchange(aP, aG);
    var request := server.GenerateRequest(primeA);
    var response := client.GenerateResponse(request, primeB);
    secret := server.HandleResponse(response);
    peer := client.s.n;
    KeyAgreement(server.p, server.g, primeA, primeB);
  }
}
