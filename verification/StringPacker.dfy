/** Length-prefixed strings in a buffer whose first byte counts them. */
module StringPacker {
  import opened Basics
  import opened Words

  /** A string after its length. */
  function Prefixed(s: seq<uint8>): seq<uint8> {
    [|s| % 256] + s
  }

  function Encoded(strs: seq<seq<uint8>>): seq<uint8> {
    if strs == [] then [] else Encoded(strs[..|strs| - 1]) + Prefixed(strs[|strs| - 1])
  }

  function TotalLength(strs: seq<seq<uint8>>): nat {
    if strs == [] then 0 else TotalLength(strs[..|strs| - 1]) + |strs[|strs| - 1]| + 1
  }

  lemma {:induction false} EncodedLength(strs: seq<seq<uint8>>)
    ensures |Encoded(strs)| == TotalLength(strs)
  {
    if strs == [] {
    } else {
      EncodedLength(strs[..|strs| - 1]);
    }
  }

  /** Where each string is. */
  lemma {:induction false} EncodedAt(strs: seq<seq<uint8>>, i: nat)
    requires i < |strs|
    ensures |Encoded(strs[..i])| + 1 + |strs[i]| <= |Encoded(strs)|
    ensures Encoded(strs)[|Encoded(strs[..i])|..|Encoded(strs[..i])| + 1 + |strs[i]|] == Prefixed(strs[i])
  {
    var n := |strs| - 1;
    if i == n {
    } else {
      EncodedAt(strs[..n], i);
      assert strs[..n][..i] == strs[..i];
      var a, b := |Encoded(strs[..i])|, |Encoded(strs[..i])| + 1 + |strs[i]|;
      assert Encoded(strs)[a..b] == Encoded(strs[..n])[a..b];
    }
  }

  /** The strings lie at the front of the buffer, behind its first byte, whatever bytes they have. */
  ghost predicate Front(buf: seq<uint8>, strs: seq<seq<uint8>>) {
    && (forall k :: 0 <= k < |strs| ==> |strs[k]| <= 255)
    && 1 + |Encoded(strs)| <= |buf|
    && buf[1..1 + |Encoded(strs)|] == Encoded(strs)
  }

  /** The buffer holds the strings. */
  ghost predicate Holds(buf: seq<uint8>, strs: seq<seq<uint8>>) {
    |strs| <= 255 && Front(buf, strs) && buf[0] == |strs|
  }

  /** The strings after one more; the count wraps at 256. */
  function Added(strs: seq<seq<uint8>>, s: seq<uint8>): seq<seq<uint8>> {
    if |strs| == 255 then [] else strs + [s]
  }

  function AddedAll(all: seq<seq<uint8>>): seq<seq<uint8>> {
    if all == [] then [] else Added(AddedAll(all[..|all| - 1]), all[|all| - 1])
  }

  /** The count after some additions. */
  function CountAfter(n: nat): (c: nat)
    ensures c <= n
  {
    if n == 0 then 0 else if CountAfter(n - 1) == 255 then 0 else CountAfter(n - 1) + 1
  }

  lemma Successor(n: nat)
    ensures (n + 1) % 256 == if n % 256 == 255 then 0 else n % 256 + 1
  {
  }

  lemma {:induction false} CountWraps(n: nat)
    ensures CountAfter(n) == n % 256
    ensures CountAfter(n) == n <==> n <= 255
  {
    if n > 0 {
      CountWraps(n - 1);
      Successor(n - 1);
    }
  }

  lemma LastOnes(all: seq<seq<uint8>>, n: nat, c: nat)
    requires |all| == n + 1 && c <= n
    ensures |all[..n][n - c..]| == c && all[..n][n - c..] + [all[n]] == all[n - c..]
    ensures all[n + 1..] == []
  {
  }

  lemma AddedAllMore(all: seq<seq<uint8>>, n: nat)
    requires |all| == n + 1
    ensures AddedAll(all) == Added(AddedAll(all[..n]), all[n])
    ensures CountAfter(n + 1) == if CountAfter(n) == 255 then 0 else CountAfter(n) + 1
  {
  }

  lemma {:induction false} LatestRemain(all: seq<seq<uint8>>)
    ensures AddedAll(all) == all[|all| - CountAfter(|all|)..]
  {
    if all == [] {
    } else {
      hide AddedAll, CountAfter;
      var n := |all| - 1;
      LatestRemain(all[..n]);
      LastOnes(all, n, CountAfter(n));
      AddedAllMore(all, n);
    }
  }

  /** What can still be read are the strings since the count last wrapped: all of them exactly up to 255. */
  lemma OnlyTheLatestRemain(all: seq<seq<uint8>>)
    ensures |all| % 256 <= |all| && AddedAll(all) == all[|all| - |all| % 256..]
    ensures AddedAll(all) == all <==> |all| <= 255
  {
    hide AddedAll, CountAfter;
    LatestRemain(all);
    CountWraps(|all|);
  }

  lemma SliceOfSlice(s: seq<uint8>, from: nat, to: nat, a: nat, b: nat)
    requires from <= to <= |s| && a <= b <= to - from
    ensures s[from..to][a..b] == s[from + a..from + b]
  {
    forall k | 0 <= k < b - a
      ensures s[from..to][a..b][k] == s[from + a..from + b][k]
    {
      assert s[from..to][a + k] == s[from + (a + k)];
    }
  }

  /** The length byte and the bytes of a string in the buffer. */
  lemma HeldLength(buf: seq<uint8>, strs: seq<seq<uint8>>, i: nat)
    requires Holds(buf, strs) && i < |strs|
    ensures |strs[i]| <= 255 && 1 + |Encoded(strs[..i])| + 1 + |strs[i]| <= |buf|
    ensures buf[1 + |Encoded(strs[..i])|] == |strs[i]|
    ensures buf[1 + |Encoded(strs[..i])| + 1..1 + |Encoded(strs[..i])| + 1 + |strs[i]|] == strs[i]
    ensures |Encoded(strs[..i + 1])| == |Encoded(strs[..i])| + 1 + |strs[i]|
  {
    EncodedAt(strs, i);
    assert strs[..i + 1][..i] == strs[..i];
    var a, n := |Encoded(strs[..i])|, |strs[i]|;
    hide Encoded;
    SliceOfSlice(buf, 1, 1 + |Encoded(strs)|, a, a + 1 + n);
    SliceOfSlice(buf, 1 + a, 1 + a + 1 + n, 1, 1 + n);
    assert buf[1 + a..1 + a + 1 + n] == Prefixed(strs[i]);
    assert buf[1 + a] == buf[1 + a..1 + a + 1 + n][0];
    assert Prefixed(strs[i])[1..1 + n] == strs[i];
  }

  // ---- reading any buffer ----

  /** The position after some strings from the front; none, when a length byte lies outside the buffer. */
  function PosAfter(buf: seq<uint8>, n: nat): Option<nat> {
    if n == 0 then Some(1)
    else
      match PosAfter(buf, n - 1)
      case None => None
      case Some(p) => if p < |buf| then Some(p + 1 + buf[p]) else None
  }

  /** The first strings, if all of them lie inside the buffer. */
  function Decoded(buf: seq<uint8>, n: nat): Option<seq<seq<uint8>>> {
    if n == 0 then Some([])
    else
      match (Decoded(buf, n - 1), PosAfter(buf, n - 1))
      case (Some(strs), Some(p)) =>
        if p < |buf| && p + 1 + buf[p] <= |buf| then Some(strs + [buf[p + 1..p + 1 + buf[p]]]) else None
      case _ => None
  }

  /** What getString comes to; undefined, where it reads outside the buffer. */
  datatype Reading = Success(s: seq<uint8>) | Failure | Undefined

  function Fetch(buf: seq<uint8>, count: uint8, aLen: nat, aIndex: uint8): Reading {
    if aIndex >= count then Failure
    else
      match PosAfter(buf, aIndex)
      case None => Undefined
      case Some(p) =>
        if p >= |buf| then Undefined
        else if aLen <= buf[p] then Failure
        else if p + 1 + buf[p] > |buf| then Undefined
        else Success(buf[p + 1..p + 1 + buf[p]])
  }

  lemma {:induction false} OutsideStays(buf: seq<uint8>, i: nat, n: nat)
    requires i <= n && PosAfter(buf, i).None?
    ensures PosAfter(buf, n).None?
  {
    if i < n {
      OutsideStays(buf, i, n - 1);
    }
  }

  /** One more string of the walk and of the decoding. */
  lemma DecodeOne(buf: seq<uint8>, n: nat, p: nat, strs: seq<seq<uint8>>)
    requires n > 0 && PosAfter(buf, n - 1) == Some(p) && Decoded(buf, n - 1) == Some(strs)
    ensures p < |buf| ==> PosAfter(buf, n) == Some(p + 1 + buf[p])
    ensures p < |buf| && p + 1 + buf[p] <= |buf| ==> Decoded(buf, n) == Some(strs + [buf[p + 1..p + 1 + buf[p]]])
    ensures p >= |buf| || p + 1 + buf[p] > |buf| ==> Decoded(buf, n) == None
  {
  }

  /** What is not decoded to some point is not decoded further. */
  lemma {:induction false} DecodedBefore(buf: seq<uint8>, n: nat)
    requires n > 0 && Decoded(buf, n).Some?
    ensures Decoded(buf, n - 1).Some? && PosAfter(buf, n - 1).Some?
  {
  }

  lemma NothingDecoded(buf: seq<uint8>, strs: seq<seq<uint8>>)
    ensures PosAfter(buf, 0) == Some(1 + |Encoded(strs[..0])|) && Decoded(buf, 0) == Some(strs[..0])
    ensures PosAfter(buf, 0) == Some(1 + |Encoded([])|) && Decoded(buf, 0) == Some([]) && (buf != [] ==> Front(buf, []))
  {
    assert strs[..0] == [];
  }

  /** One held string further. */
  lemma HeldOne(buf: seq<uint8>, strs: seq<seq<uint8>>, n: nat)
    requires Holds(buf, strs) && 1 <= n <= |strs|
    requires PosAfter(buf, n - 1) == Some(1 + |Encoded(strs[..n - 1])|) && Decoded(buf, n - 1) == Some(strs[..n - 1])
    ensures PosAfter(buf, n) == Some(1 + |Encoded(strs[..n])|) && Decoded(buf, n) == Some(strs[..n])
  {
    hide *;
    var before, s := strs[..n - 1], strs[n - 1];
    var p := 1 + |Encoded(before)|;
    HeldLength(buf, strs, n - 1);
    assert p < |buf| && p + 1 + buf[p] <= |buf| && buf[p + 1..p + 1 + buf[p]] == s;
    assert |Encoded(strs[..n])| == p + |s|;
    DecodeOne(buf, n, p, before);
    assert strs[..n] == before + [s];
  }

  /** The walk over held strings finds each of them. */
  lemma {:induction false} HeldDecoded(buf: seq<uint8>, strs: seq<seq<uint8>>, n: nat)
    requires Holds(buf, strs) && n <= |strs|
    ensures PosAfter(buf, n) == Some(1 + |Encoded(strs[..n])|) && Decoded(buf, n) == Some(strs[..n])
  {
    hide *;
    if n == 0 {
      NothingDecoded(buf, strs);
    } else {
      HeldDecoded(buf, strs, n - 1);
      HeldOne(buf, strs, n);
    }
  }

  lemma AllDecoded(buf: seq<uint8>, strs: seq<seq<uint8>>)
    requires Holds(buf, strs)
    ensures Decoded(buf, |strs|) == Some(strs) && PosAfter(buf, |strs|) == Some(1 + |Encoded(strs)|)
    ensures 1 + |Encoded(strs)| <= |buf| && buf[1..1 + |Encoded(strs)|] == Encoded(strs)
  {
    hide Encoded, Decoded, PosAfter;
    HeldDecoded(buf, strs, |strs|);
    assert strs[..|strs|] == strs;
  }

  /** A string right behind others. */
  lemma OneMoreInFront(buf: seq<uint8>, strs: seq<seq<uint8>>, p: nat)
    requires Front(buf, strs) && p == 1 + |Encoded(strs)| < |buf| && p + 1 + buf[p] <= |buf|
    ensures var more := strs + [buf[p + 1..p + 1 + buf[p]]];
            Front(buf, more) && |Encoded(more)| == p + buf[p]
  {
    var s := buf[p + 1..p + 1 + buf[p]];
    EncodedOneMore(strs, s);
    hide Encoded;
    assert buf[p..p + 1 + buf[p]] == [buf[p]] + s == Prefixed(s);
    assert buf[1..p + 1 + buf[p]] == buf[1..p] + buf[p..p + 1 + buf[p]];
  }

  lemma OneMoreDecoded(buf: seq<uint8>, n: nat, strs: seq<seq<uint8>>)
    requires n > 0 && Decoded(buf, n) == Some(strs) && Decoded(buf, n - 1).Some?
    requires var before := Decoded(buf, n - 1).value;
             |before| == n - 1 && Front(buf, before) && PosAfter(buf, n - 1) == Some(1 + |Encoded(before)|)
    ensures |strs| == n && Front(buf, strs) && PosAfter(buf, n) == Some(1 + |Encoded(strs)|)
  {
    hide *;
    var before, p := Decoded(buf, n - 1).value, PosAfter(buf, n - 1).value;
    DecodeOne(buf, n, p, before);
    OneMoreInFront(buf, before, p);
  }

  lemma {:induction false} DecodedInFront(buf: seq<uint8>, n: nat, strs: seq<seq<uint8>>)
    requires |buf| > 0 && Decoded(buf, n) == Some(strs)
    ensures |strs| == n && Front(buf, strs) && PosAfter(buf, n) == Some(1 + |Encoded(strs)|)
  {
    hide *;
    if n == 0 {
      NothingDecoded(buf, strs);
    } else {
      DecodedBefore(buf, n);
      DecodedInFront(buf, n - 1, Decoded(buf, n - 1).value);
      OneMoreDecoded(buf, n, strs);
    }
  }

  /** Decoding is the inverse of encoding: a buffer holds exactly the strings that are decoded from it. */
  lemma DecodedIffHeld(buf: seq<uint8>, strs: seq<seq<uint8>>)
    requires buf != []
    ensures Holds(buf, strs) <==> Decoded(buf, buf[0]) == Some(strs)
  {
    hide Decoded, Front;
    if Holds(buf, strs) {
      AllDecoded(buf, strs);
    }
    if Decoded(buf, buf[0]) == Some(strs) {
      DecodedInFront(buf, buf[0], strs);
    }
  }

  /** From a buffer that holds strings, exactly the strings that are there and fit the output are read. */
  lemma FetchHeld(buf: seq<uint8>, strs: seq<seq<uint8>>, aLen: nat, aIndex: uint8)
    requires Holds(buf, strs)
    ensures Fetch(buf, |strs|, aLen, aIndex)
            == if aIndex < |strs| && aLen > |strs[aIndex]| then Success(strs[aIndex]) else Failure
  {
    if aIndex < |strs| {
      HeldDecoded(buf, strs, aIndex);
      HeldLength(buf, strs, aIndex);
    }
  }

  lemma EncodedOneMore(strs: seq<seq<uint8>>, s: seq<uint8>)
    ensures Encoded(strs + [s]) == Encoded(strs) + Prefixed(s)
    ensures TotalLength(strs + [s]) == |Encoded(strs)| + |Prefixed(s)| && |Prefixed(s)| == |s| + 1
  {
    assert (strs + [s])[..|strs|] == strs;
    EncodedLength(strs);
  }

  /** A text and a NUL written into a buffer at a position. */
  lemma Spliced(before: seq<uint8>, after: seq<uint8>, ptr: nat, text: seq<uint8>)
    requires 1 <= ptr && ptr + |text| + 1 <= |before|
    requires after == before[..ptr] + text + [0] + before[ptr + |text| + 1..]
    ensures after[1..ptr + |text|] == before[1..ptr] + text
    ensures after[ptr + |text| + 1..] == before[ptr + |text| + 1..]
  {
  }

  lemma WrittenString(before: seq<uint8>, after: seq<uint8>, ptr: nat, s: seq<uint8>)
    requires |s| <= 255 && ptr + |s| + 2 <= |before| == |after|
    requires forall j :: 0 <= j < ptr ==> after[j] == before[j]
    requires after[ptr] == |s| && forall j :: 0 <= j < |s| ==> after[ptr + 1 + j] == s[j]
    requires after[ptr + 1 + |s|] == 0
    requires forall j :: ptr + 2 + |s| <= j < |before| ==> after[j] == before[j]
    ensures after == before[..ptr] + Prefixed(s) + [0] + before[ptr + |s| + 2..]
  {
    assert after[..ptr] == before[..ptr];
    assert after[ptr + 1..ptr + 1 + |s|] == s;
    assert after[ptr..ptr + 1 + |s|] == [after[ptr]] + after[ptr + 1..ptr + 1 + |s|] == Prefixed(s);
    assert after[ptr + |s| + 2..] == before[ptr + |s| + 2..];
    assert after == after[..ptr] + after[ptr..ptr + 1 + |s|] + [after[ptr + 1 + |s|]] + after[ptr + |s| + 2..];
  }

  /** memcpy */
  method CopyBytes(src: array<uint8>, from: nat, dst: array<uint8>, len: nat)
    requires from + len <= src.Length && len <= dst.Length && src != dst
    modifies dst
    ensures dst[..] == src[from..from + len] + old(dst[len..])
  {
    for k := 0 to len
      invariant forall j :: 0 <= j < dst.Length ==> dst[j] == if j < k then src[from + j] else old(dst[j])
    {
      dst[k] := src[from + k];
    }
  }

  class Packer {
    const mBuf: array<uint8>
    var mStrCount: uint8
    /** The strings in the buffer, if it holds any. */
    ghost var strs: seq<seq<uint8>>

    ghost predicate Valid()
      reads this, mBuf
    {
      Holds(mBuf[..], strs) && mStrCount == |strs|
    }

    /** A packer around any buffer with a first byte. */
    constructor (aBuf: array<uint8>)
      requires aBuf.Length > 0
      ensures mBuf == aBuf && mStrCount == aBuf[0]
      ensures forall held :: Holds(aBuf[..], held) ==> Valid() && strs == held
    {
      mBuf := aBuf;
      mStrCount := aBuf[0];
      ghost var decoded := Decoded(aBuf[..], aBuf[0]);
      strs := if decoded.Some? then decoded.value else [];
      new;
      forall held | Holds(mBuf[..], held)
        ensures Valid() && strs == held
      {
        DecodedIffHeld(mBuf[..], held);
      }
    }

    /** The walk over the first strings. */
    method Skip(n: uint8) returns (pos: Option<nat>)
      ensures pos == PosAfter(mBuf[..], n)
    {
      var ptr := 1;
      for i := 0 to n
        invariant PosAfter(mBuf[..], i) == Some(ptr)
      {
        if ptr >= mBuf.Length {
          OutsideStays(mBuf[..], i + 1, n);
          return None;
        }
        var len := mBuf[ptr];
        ptr := ptr + 1 + len;
      }
      pos := Some(ptr);
    }

    /** The length byte, then strcpy: the bytes and a final NUL. */
    method WriteString(ptr: nat, aStr: seq<uint8>)
      requires |aStr| <= 255 && ptr + |aStr| + 2 <= mBuf.Length
      modifies mBuf
      ensures mBuf[..] == old(mBuf[..ptr]) + Prefixed(aStr) + [0] + old(mBuf[ptr + |aStr| + 2..])
    {
      ghost var before := mBuf[..];
      mBuf[ptr] := |aStr|;
      for k := 0 to |aStr|
        invariant forall j :: 0 <= j < ptr ==> mBuf[j] == before[j]
        invariant mBuf[ptr] == |aStr| && forall j :: 0 <= j < k ==> mBuf[ptr + 1 + j] == aStr[j]
        invariant forall j :: ptr + 1 + k <= j < mBuf.Length ==> mBuf[j] == before[j]
      {
        mBuf[ptr + 1 + k] := aStr[k];
      }
      mBuf[ptr + 1 + |aStr|] := 0;
      WrittenString(before, mBuf[..], ptr, aStr);
    }

    /** The bytes of a string more. */
    method Append(aStr: seq<uint8>)
      requires Valid() && |aStr| <= 255 && 0 !in aStr
      requires 2 + TotalLength(strs + [aStr]) <= mBuf.Length
      modifies mBuf
      ensures mBuf[1..1 + TotalLength(strs + [aStr])] == Encoded(strs + [aStr])
      ensures mBuf[2 + TotalLength(strs + [aStr])..] == old(mBuf[2 + TotalLength(strs + [aStr])..])
    {
      hide Encoded, Prefixed, TotalLength, Holds, PosAfter, Decoded;
      EncodedOneMore(strs, aStr);
      AllDecoded(mBuf[..], strs);
      ghost var before := mBuf[..];
      var pos := Skip(mStrCount);
      var ptr := pos.value;
      WriteString(ptr, aStr);
      Spliced(before, mBuf[..], ptr, Prefixed(aStr));
    }

    /** A C string more, its bytes up to the NUL; the bytes beyond its NUL, and the strings before it, stay as they were. */
    method AddString(aStr: seq<uint8>)
      requires Valid() && |aStr| <= 255 && 0 !in aStr
      requires 2 + TotalLength(strs + [aStr]) <= mBuf.Length
      modifies mBuf, `mStrCount, `strs
      ensures Valid() && strs == Added(old(strs), aStr)
      ensures mBuf[1..1 + TotalLength(old(strs) + [aStr])] == Encoded(old(strs) + [aStr])
      ensures mBuf[2 + TotalLength(old(strs) + [aStr])..] == old(mBuf[2 + TotalLength(strs + [aStr])..])
    {
      EncodedLength(strs + [aStr]);
      Append(aStr);
      mStrCount := (mStrCount + 1) % 256;
      mBuf[0] := mStrCount;
      strs := Added(strs, aStr);
    }

    /** memcpy, and a final NUL. */
    method CopyString(ptr: nat, len: uint8, aOutBuf: array<uint8>)
      requires ptr + len <= mBuf.Length && len < aOutBuf.Length && aOutBuf != mBuf
      modifies aOutBuf
      ensures aOutBuf[..] == mBuf[ptr..ptr + len] + [0] + old(aOutBuf[..])[len + 1..]
    {
      CopyBytes(mBuf, ptr, aOutBuf, len);
      aOutBuf[len] := 0;
    }

    /** The string at an index of any buffer, if there is one and the output is longer than it. */
    method GetString(aOutBuf: array<uint8>, aLen: nat, aIndex: uint8) returns (r: Reading)
      requires 0 < aLen <= aOutBuf.Length && aOutBuf != mBuf
      modifies aOutBuf
      ensures r == Fetch(mBuf[..], mStrCount, aLen, aIndex)
      ensures Valid() ==> r == if aIndex < |strs| && aLen > |strs[aIndex]| then Success(strs[aIndex]) else Failure
      ensures aOutBuf[..] == if r.Success? then r.s + [0] + old(aOutBuf[..])[|r.s| + 1..] else old(aOutBuf[..])
    {
      hide Holds, Encoded, PosAfter;
      if Valid() {
        FetchHeld(mBuf[..], strs, aLen, aIndex);
      }
      r := Failure;
      if aIndex < mStrCount {
        var pos := Skip(aIndex);
        if pos.None? || pos.value >= mBuf.Length {
          return Undefined;
        }
        var ptr := pos.value;
        var len := mBuf[ptr];
        ptr := ptr + 1;
        if aLen > len {
          if ptr + len > mBuf.Length {
            return Undefined;
          }
          CopyString(ptr, len, aOutBuf);
          r := Success(mBuf[ptr..ptr + len]);
        }
      }
    }
  }
}
