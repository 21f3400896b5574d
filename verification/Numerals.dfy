/** Printing numbers in a base, reading them back, and the hexadecimal decoder of the server. */
module Numerals {
  import opened Words

  // ---- arithmetic ----

  function Pow(b: nat, e: nat): nat {
    if e == 0 then 1 else b * Pow(b, e - 1)
  }

  lemma {:induction false} PowPositive(b: nat, e: nat)
    requires b > 0
    ensures Pow(b, e) > 0
  {
    if e > 0 {
      PowPositive(b, e - 1);
    }
  }

  // ---- printing (bi_to_str_base, bi_to_str_pos, digit_to_char) ----

  function DigitToChar(d: nat): char
    requires d < 16
  {
    if 0 <= d <= 9 then d as char + '0' else (d - 10) as char + 'A'
  }

  function ToStrPos(n: nat): (s: string)
    ensures s != []
  {
    (if n >= 16 then ToStrPos(n / 16) else "") + [DigitToChar(n % 16)]
  }

  function ToStr(n: int): string
  {
    if n < 0 then "-" + ToStrPos(-n) else ToStrPos(n)
  }

  // ---- reading ----

  function LowerChar(c: char): char {
    if 'A' <= c <= 'Z' then c - 'A' + 'a' else c
  }

  function Lower(s: string): (r: string)
    ensures |r| == |s|
  {
    seq(|s|, i requires 0 <= i < |s| => LowerChar(s[i]))
  }

  /** char2int: the value of a hexadecimal digit of either case, zero for any other character. */
  function CharToInt(c: char): (v: nat)
    ensures v < 16
  {
    if '0' <= c <= '9' then (c - '0') as nat
    else if 'A' <= c <= 'F' then (c - 'A') as nat + 10
    else if 'a' <= c <= 'f' then (c - 'a') as nat + 10
    else 0
  }

  /** isxdigit */
  predicate IsHexDigit(c: char) {
    '0' <= c <= '9' || 'A' <= c <= 'F' || 'a' <= c <= 'f'
  }

  predicate IsHex(s: string) {
    forall i :: 0 <= i < |s| ==> IsHexDigit(s[i])
  }

  /** The value of a digit string. */
  function Parse(s: string): nat {
    if s == [] then 0 else Parse(s[..|s| - 1]) * 16 + CharToInt(s[|s| - 1])
  }

  /** The characters of the digits, of either case, and what lower-casing does to them. */
  lemma DigitsAreHex(d: nat)
    requires d < 16
    ensures DigitToChar(d) == "0123456789ABCDEF"[d]
    ensures CharToInt("0123456789ABCDEF"[d]) == CharToInt("0123456789abcdef"[d]) == d
    ensures LowerChar("0123456789ABCDEF"[d]) == "0123456789abcdef"[d] == LowerChar("0123456789abcdef"[d])
  {
  }

  /** The hexadecimal characters are those sixteen, in either case. */
  lemma HexDigits(c: char)
    ensures IsHexDigit(c) <==> c in "0123456789ABCDEF" || c in "0123456789abcdef"
  {
    if IsHexDigit(c) {
      var d := CharToInt(c);
      assert "0123456789ABCDEF"[d] == c || "0123456789abcdef"[d] == c;
    }
  }

  lemma DigitRoundTrip(d: nat)
    requires d < 16
    ensures IsHexDigit(DigitToChar(d)) && CharToInt(DigitToChar(d)) == d
    ensures CharToInt(LowerChar(DigitToChar(d))) == d
  {
  }

  /** Reading a printed number gives it back. */
  lemma {:induction false} ParsePrinted(n: nat)
    ensures IsHex(ToStrPos(n))
    ensures Parse(ToStrPos(n)) == n
  {
    hide DigitToChar, CharToInt;
    var s := ToStrPos(n);
    var front := s[..|s| - 1];
    DigitRoundTrip(n % 16);
    if n >= 16 {
      ParsePrinted(n / 16);
      assert front == ToStrPos(n / 16);
    } else {
      assert front == [];
    }
  }

  /** Lower-casing the digits does not change the value they carry. */
  lemma {:induction false} ParseLower(s: string)
    ensures Parse(Lower(s)) == Parse(s)
  {
    if s == [] {
    } else {
      var n := |s| - 1;
      ParseLower(s[..n]);
      assert Lower(s)[..n] == Lower(s[..n]);
      LowerKeepsValue(s[n]);
    }
  }

  lemma LowerKeepsValue(c: char)
    ensures CharToInt(LowerChar(c)) == CharToInt(c)
  {
  }

  /** Each digit counts by its position from the end. */
  lemma {:induction false} ParseConcat(a: string, b: string)
    ensures Parse(a + b) == Parse(a) * Pow(16, |b|) + Parse(b)
  {
    if b == "" {
      assert a + b == a;
    } else {
      var front := b[..|b| - 1];
      ParseConcat(a, front);
      assert (a + b)[..|a + b| - 1] == a + front;
      OneDigitMore(Parse(a), Pow(16, |front|), Parse(front), CharToInt(b[|b| - 1]));
    }
  }

  lemma OneDigitMore(x: nat, p: nat, y: nat, d: nat)
    ensures (x * p + y) * 16 + d == x * (16 * p) + (y * 16 + d)
  {
    assert x * (16 * p) == 16 * (x * p);
  }

  /** A number prints in at most `k` digits exactly when it is below the k-th power of the base. */
  lemma {:induction false} PrintedLength(n: nat, k: nat)
    requires k > 0
    ensures |ToStrPos(n)| <= k <==> n < Pow(16, k)
  {
    PowPositive(16, k - 1);
    if n >= 16 && k > 1 {
      PrintedLength(n / 16, k - 1);
    }
  }

  /** A digit string of length k is below 16^k. */
  lemma {:induction false} ParseBound(s: string)
    ensures Parse(s) < Pow(16, |s|)
  {
    if s == [] {
    } else {
      ParseBound(s[..|s| - 1]);
    }
  }

  // ---- hex2bin ----

  /** A byte from two digits. */
  function HexByte(high: char, low: char): uint8 {
    CharToInt(low) + CharToInt(high) * 0x10
  }

  /** Half of a number, rounded up. */
  function HalfUp(n: nat): (h: nat)
    ensures 2 * h == n || 2 * h == n + 1
  {
    n / 2 + n % 2
  }

  /** Digit pairs taken from the end; an odd digit in front stands alone. */
  function HexBytes(hex: string): (r: seq<uint8>)
    ensures |r| == HalfUp(|hex|)
  {
    var n := |hex|;
    if n == 0 then []
    else if n == 1 then [HexByte('0', hex[0])]
    else HexBytes(hex[..n - 2]) + [HexByte(hex[n - 2], hex[n - 1])]
  }

  /** The value of bytes read most significant first. */
  function BigEndian(bytes: seq<uint8>): nat {
    if bytes == [] then 0 else 256 * BigEndian(bytes[..|bytes| - 1]) + bytes[|bytes| - 1]
  }

  /** The decoded bytes carry the value of the digits, for odd and even lengths. */
  lemma {:induction false} HexBytesValue(hex: string)
    ensures BigEndian(HexBytes(hex)) == Parse(hex)
  {
    var n := |hex|;
    if n == 0 {
    } else if n == 1 {
      assert HexBytes(hex)[..0] == [];
    } else {
      var front := hex[..n - 2];
      HexBytesValue(front);
      assert HexBytes(hex)[..|HexBytes(hex)| - 1] == HexBytes(front);
      assert hex[..n - 1][..n - 2] == front;
    }
  }

  /** How many digit pairs, counted from the end, are hexadecimal before the first that is not. */
  function GoodPairs(hex: string): (g: nat)
    ensures g <= HalfUp(|hex|)
    ensures g == HalfUp(|hex|) <==> IsHex(hex)
  {
    var n := |hex|;
    if n == 0 then 0
    else if !IsHexDigit(hex[n - 1]) || (n > 1 && !IsHexDigit(hex[n - 2])) then 0
    else if n == 1 then 1
    else
      assert hex == hex[..n - 2] + [hex[n - 2], hex[n - 1]];
      1 + GoodPairs(hex[..n - 2])
  }

  lemma {:induction false} HexBytesAt(hex: string, j: nat)
    requires j < HalfUp(|hex|)
    ensures var i := |hex| - 1 - 2 * (HalfUp(|hex|) - 1 - j);
            && 0 <= i < |hex|
            && HexBytes(hex)[j] == (if i != 0 then CharToInt(hex[i]) + CharToInt(hex[i - 1]) * 0x10 else CharToInt(hex[i]))
  {
    var n := |hex|;
    if j < HalfUp(n) - 1 {
      HexBytesAt(hex[..n - 2], j);
    }
  }

  predicate GoodPair(hex: string, i: nat)
    requires i < |hex|
  {
    IsHexDigit(hex[i]) && (i == 0 || IsHexDigit(hex[i - 1]))
  }

  /** One pair of the loop: what is left of the text after it. */
  lemma OnePair(hex: string, i: nat)
    requires i < |hex|
    ensures GoodPairs(hex[..i + 1])
            == if GoodPair(hex, i) then 1 + (if i >= 2 then GoodPairs(hex[..i - 1]) else 0) else 0
  {
    assert i >= 2 ==> hex[..i + 1][..i - 1] == hex[..i - 1];
  }

  /**
    * hex2bin. On success the output holds the decoded bytes; otherwise only the pairs after the last bad
    * one were written. `aOutLen` is set either way.
    */
  method Hex2Bin(aHexStr: string, aOutBytes: array<uint8>) returns (success: bool, aOutLen: nat)
    requires HalfUp(|aHexStr|) <= aOutBytes.Length
    modifies aOutBytes
    ensures aOutLen == HalfUp(|aHexStr|)
    ensures success <==> IsHex(aHexStr)
    ensures success ==> aOutBytes[..aOutLen] == HexBytes(aHexStr)
    ensures forall j :: 0 <= j < aOutBytes.Length ==>
              aOutBytes[j] == if aOutLen - GoodPairs(aHexStr) <= j < aOutLen then HexBytes(aHexStr)[j] else old(aOutBytes[j])
  {
    hide HexBytes, CharToInt, IsHexDigit, HalfUp, GoodPairs, GoodPair;
    success := true;
    var len := |aHexStr|;
    aOutLen := HalfUp(len);
    var i, j := len - 1, aOutLen - 1;
    ghost var good := 0;
    assert aHexStr[..len] == aHexStr;
    while i >= 0
      invariant -1 <= j < aOutLen && i == len - 1 - 2 * (aOutLen - 1 - j) && (j >= 0 <==> i >= 0)
      invariant good <= aOutLen - 1 - j && (success <==> good == aOutLen - 1 - j)
      invariant GoodPairs(aHexStr) == good + if success && i >= 0 then GoodPairs(aHexStr[..i + 1]) else 0
      invariant forall k :: 0 <= k < aOutBytes.Length ==>
                  aOutBytes[k] == if aOutLen - good <= k < aOutLen then HexBytes(aHexStr)[k] else old(aOutBytes[k])
    {
      OnePair(aHexStr, i);
      if !GoodPair(aHexStr, i) {
        success := false;
      }
      if success {
        HexBytesAt(aHexStr, j);
        var result: uint8 := if i != 0 then CharToInt(aHexStr[i]) + CharToInt(aHexStr[i - 1]) * 0x10 else CharToInt(aHexStr[i]);
        aOutBytes[j] := result;
        good := good + 1;
      }
      i := i - 2;
      j := j - 1;
    }
    assert success ==> aOutBytes[..aOutLen] == HexBytes(aHexStr);
  }
}
