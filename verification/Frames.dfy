/** Messages on the wire: length-prefixed frames, each followed by an eight-byte seal. */
module Frames {
  import opened Basics

  const HEADER_LEN := 4
  const SEAL_LEN := 8
  const MAX_LEN := 1024
  /** The two bytes "TQ" read as a length. */
  const SEAL_LENGTH := 20820

  /** The little-endian 16-bit length at a position. */
  function LengthAt(buf: seq<bv8>, i: nat): nat
    requires i + 2 <= |buf|
  {
    buf[i] as nat + 256 * buf[i + 1] as nat
  }

  predicate IsSeal(b: seq<bv8>) {
    |b| == SEAL_LEN && LengthAt(b, 0) == SEAL_LENGTH
  }

  /** A message whose own length field is its size. */
  predicate IsFrame(b: seq<bv8>) {
    HEADER_LEN <= |b| <= MAX_LEN && LengthAt(b, 0) == |b|
  }

  /** What the splitting loop did: the messages dispatched in order and the final index, if it got there. */
  datatype Split = Finished(frames: seq<seq<bv8>>, end: nat) | Undefined(frames: seq<seq<bv8>>, at: nat)

  /**
    * The loop from index `i`. It is undefined where the source reads outside the buffer, fails an assertion
    * on the size, or meets a length of zero and makes no progress.
    */
  function SplitFrom(buf: seq<bv8>, i: nat): Split
    decreases |buf| - i
  {
    if i >= |buf| then Finished([], i)
    else if i + 1 == |buf| then Undefined([], i)
    else
      var size := LengthAt(buf, i);
      if size == SEAL_LENGTH then SplitFrom(buf, i + SEAL_LEN)
      else if size < HEADER_LEN || size > MAX_LEN then Undefined([], i)
      else if size < |buf| then
        if i + size > |buf| then Undefined([], i)
        else Prepend(buf[i..i + size], SplitFrom(buf, i + size))
      else if size > |buf| then Undefined([], i)
      else Finished([buf], i + size)
  }

  function Prepend(frame: seq<bv8>, s: Split): Split {
    match s
    case Finished(frames, end) => Finished([frame] + frames, end)
    case Undefined(frames, at) => Undefined([frame] + frames, at)
  }

  /** One turn of the loop. */
  lemma Turn(buf: seq<bv8>, i: nat)
    requires i < |buf|
    ensures i + 1 == |buf| ==> SplitFrom(buf, i) == Undefined([], i)
    ensures i + 1 < |buf| ==>
              var size := LengthAt(buf, i);
              SplitFrom(buf, i)
              == if size == SEAL_LENGTH then SplitFrom(buf, i + SEAL_LEN)
                 else if size < HEADER_LEN || size > MAX_LEN || size > |buf| then Undefined([], i)
                 else if size == |buf| then Finished([buf], i + size)
                 else if i + size > |buf| then Undefined([], i)
                 else Prepend(buf[i..i + size], SplitFrom(buf, i + size))
  {
    hide LengthAt;
  }

  lemma End(buf: seq<bv8>, i: nat)
    requires i >= |buf|
    ensures SplitFrom(buf, i) == Finished([], i)
  {
  }

  // ---- what a buffer is made of ----

  predicate IsItem(b: seq<bv8>) {
    IsSeal(b) || IsFrame(b)
  }

  /** The frames among the items, in order. */
  function FramesOf(items: seq<seq<bv8>>): seq<seq<bv8>> {
    if items == [] then []
    else (if IsSeal(items[0]) then [] else [items[0]]) + FramesOf(items[1..])
  }

  lemma LengthOfSlice(buf: seq<bv8>, i: nat, n: nat)
    requires 2 <= n && i + n <= |buf|
    ensures LengthAt(buf[i..i + n], 0) == LengthAt(buf, i)
  {
    assert buf[i..i + n][0] == buf[i] && buf[i..i + n][1] == buf[i + 1];
  }

  /** A buffer that is one frame. */
  lemma SplitWhole(buf: seq<bv8>)
    requires IsFrame(buf)
    ensures SplitFrom(buf, 0) == Finished([buf], |buf|)
  {
    hide LengthAt;
  }

  /** A seal is passed over. */
  lemma SplitSeal(buf: seq<bv8>, i: nat)
    requires i + SEAL_LEN <= |buf| && IsSeal(buf[i..i + SEAL_LEN])
    ensures SplitFrom(buf, i) == SplitFrom(buf, i + SEAL_LEN)
  {
    hide LengthAt, SplitFrom;
    LengthOfSlice(buf, i, SEAL_LEN);
    Turn(buf, i);
  }

  /** A frame that is not the whole buffer is dispatched. */
  lemma SplitFrame(buf: seq<bv8>, i: nat, n: nat)
    requires i + n <= |buf| && n < |buf| && IsFrame(buf[i..i + n])
    ensures SplitFrom(buf, i) == Prepend(buf[i..i + n], SplitFrom(buf, i + n))
  {
    hide LengthAt, SplitFrom;
    LengthOfSlice(buf, i, n);
    Turn(buf, i);
  }

  /** One item further. */
  lemma SplitItem(buf: seq<bv8>, i: nat, item: seq<bv8>)
    requires IsItem(item) && i + |item| <= |buf| && buf[i..i + |item|] == item
    ensures SplitFrom(buf, i)
            == if IsSeal(item) then SplitFrom(buf, i + |item|)
               else if |item| < |buf| then Prepend(item, SplitFrom(buf, i + |item|))
               else Finished([item], |buf|)
  {
    hide LengthAt, SplitFrom;
    if IsSeal(item) {
      SplitSeal(buf, i);
    } else if |item| < |buf| {
      SplitFrame(buf, i, |item|);
    } else {
      assert buf[0..|buf|] == buf;
      SplitWhole(buf);
    }
  }

  /** From a position where items follow each other to the end, the loop dispatches their frames. */
  lemma {:induction false} SplitItemsFrom(buf: seq<bv8>, i: nat, items: seq<seq<bv8>>)
    requires i <= |buf| && buf[i..] == Flatten(items)
    requires forall k :: 0 <= k < |items| ==> IsItem(items[k])
    ensures SplitFrom(buf, i) == Finished(FramesOf(items), |buf|)
    decreases |items|
  {
    hide LengthAt;
    if items == [] {
      assert |buf[i..]| == 0;
    } else {
      var item := items[0];
      var n := |item|;
      assert buf[i..i + n] == buf[i..][..n] == item;
      assert buf[i + n..] == buf[i..][n..] == Flatten(items[1..]);
      SplitItemsFrom(buf, i + n, items[1..]);
      SplitItem(buf, i, item);
    }
  }

  /** The item at a position from which the loop finishes exactly at the end. */
  lemma ItemAt(buf: seq<bv8>, i: nat) returns (item: seq<bv8>)
    requires i < |buf| && SplitFrom(buf, i).Finished? && SplitFrom(buf, i).end == |buf|
    ensures IsItem(item) && i + |item| <= |buf| && buf[i..i + |item|] == item
  {
    var size := LengthAt(buf, i);
    var n := if size == SEAL_LENGTH then SEAL_LEN else size;
    EndIsPast(buf, i + n);
    item := buf[i..i + n];
    LengthOfSlice(buf, i, n);
  }

  /** The items of a buffer on which the loop finishes exactly at the end. */
  lemma {:induction false} ItemsOfSplit(buf: seq<bv8>, i: nat) returns (items: seq<seq<bv8>>)
    requires i <= |buf| && SplitFrom(buf, i).Finished? && SplitFrom(buf, i).end == |buf|
    ensures buf[i..] == Flatten(items) && FramesOf(items) == SplitFrom(buf, i).frames
    ensures forall k :: 0 <= k < |items| ==> IsItem(items[k])
    decreases |buf| - i
  {
    hide LengthAt;
    if i == |buf| {
      items := [];
    } else {
      var item := ItemAt(buf, i);
      var n := |item|;
      SplitItem(buf, i, item);
      assert SplitFrom(buf, |buf|) == Finished([], |buf|);
      var rest := ItemsOfSplit(buf, i + n);
      items := [item] + rest;
      assert items[1..] == rest;
      assert buf[i..] == item + buf[i + n..];
    }
  }

  lemma {:induction false} EndIsPast(buf: seq<bv8>, i: nat)
    ensures SplitFrom(buf, i).Finished? ==> SplitFrom(buf, i).end >= i
    decreases |buf| - i
  {
    if i + 1 < |buf| {
      var size := LengthAt(buf, i);
      EndIsPast(buf, i + SEAL_LEN);
      if size > 0 {
        EndIsPast(buf, i + size);
      }
    }
  }

  /** The loop ends exactly at the end of the buffer if and only if the buffer is a row of frames and seals. */
  lemma SplitIffItems(buf: seq<bv8>)
    ensures (SplitFrom(buf, 0).Finished? && SplitFrom(buf, 0).end == |buf|)
            <==> exists items :: buf == Flatten(items) && forall k :: 0 <= k < |items| ==> IsItem(items[k])
  {
    if SplitFrom(buf, 0).Finished? && SplitFrom(buf, 0).end == |buf| {
      var items := ItemsOfSplit(buf, 0);
      assert buf[0..] == buf;
    }
    if items :| buf == Flatten(items) && forall k :: 0 <= k < |items| ==> IsItem(items[k]) {
      assert buf[0..] == buf;
      SplitItemsFrom(buf, 0, items);
    }
  }

  // ---- sealed frames ----

  /** Frames as they travel, each with the seal behind it. */
  function Sealed(frames: seq<seq<bv8>>, seal: seq<bv8>): seq<bv8> {
    if frames == [] then [] else frames[0] + seal + Sealed(frames[1..], seal)
  }

  function SealedItems(frames: seq<seq<bv8>>, seal: seq<bv8>): seq<seq<bv8>> {
    if frames == [] then [] else [frames[0], seal] + SealedItems(frames[1..], seal)
  }

  lemma {:induction false} SealedItemsFlatten(frames: seq<seq<bv8>>, seal: seq<bv8>)
    requires IsSeal(seal) && forall k :: 0 <= k < |frames| ==> IsFrame(frames[k])
    ensures Flatten(SealedItems(frames, seal)) == Sealed(frames, seal)
    ensures FramesOf(SealedItems(frames, seal)) == frames
    ensures forall k :: 0 <= k < |SealedItems(frames, seal)| ==> IsItem(SealedItems(frames, seal)[k])
  {
    if frames == [] {
    } else {
      SealedItemsFlatten(frames[1..], seal);
      var items := SealedItems(frames, seal);
      assert items[0] == frames[0] && items[1..][0] == seal;
      assert items[1..][1..] == SealedItems(frames[1..], seal);
      assert Flatten(items) == frames[0] + (seal + Sealed(frames[1..], seal));
    }
  }

  /** Exactly the sealed frames are dispatched, in order, and the loop stops at the end of the buffer. */
  lemma SplitSealed(frames: seq<seq<bv8>>, seal: seq<bv8>)
    requires IsSeal(seal) && forall k :: 0 <= k < |frames| ==> IsFrame(frames[k])
    ensures SplitFrom(Sealed(frames, seal), 0) == Finished(frames, |Sealed(frames, seal)|)
  {
    var buf := Sealed(frames, seal);
    SealedItemsFlatten(frames, seal);
    assert buf[0..] == buf;
    SplitItemsFrom(buf, 0, SealedItems(frames, seal));
  }

  /** In bytes: frames of 4 to 1024 bytes with their length in front, low byte first, and seals that begin with "TQ". */
  lemma SplitOnTheWire(frames: seq<seq<bv8>>, seal: seq<bv8>)
    requires |seal| == 8 && seal[0] == 0x54 && seal[1] == 0x51
    requires forall k :: 0 <= k < |frames| ==>
               4 <= |frames[k]| <= 1024 && frames[k][0] as nat + 256 * frames[k][1] as nat == |frames[k]|
    ensures SplitFrom(Sealed(frames, seal), 0) == Finished(frames, |Sealed(frames, seal)|)
  {
    assert LengthAt(seal, 0) == 0x54 + 256 * 0x51;
    hide SplitFrom, Sealed;
    SplitSealed(frames, seal);
  }

  /** The loop over the first `aLen` bytes of the received buffer. */
  method SplitBuffer(received: array<bv8>, aLen: nat) returns (s: Split)
    requires aLen <= received.Length
    ensures s == SplitFrom(received[..aLen], 0)
  {
    hide LengthAt, SplitFrom;
    ghost var buf := received[..aLen];
    var frames: seq<seq<bv8>> := [];
    var i := 0;
    while i < aLen
      invariant buf == received[..aLen]
      invariant SplitFrom(buf, 0) == PrependAll(frames, SplitFrom(buf, i))
      decreases aLen - i
    {
      Turn(buf, i);
      if i + 1 == aLen {
        return Undefined(frames, i);
      }
      var size := ReadLength(received, aLen, i);
      if size == SEAL_LENGTH {
        i := i + SEAL_LEN;
      } else if size < HEADER_LEN || size > MAX_LEN {
        return Undefined(frames, i);
      } else if size < aLen {
        if i + size > aLen {
          return Undefined(frames, i);
        }
        var frame := ReadFrame(received, aLen, i, size);
        PrependOne(frames, frame, SplitFrom(buf, i + size));
        frames := frames + [frame];
        i := i + size;
      } else if size > aLen {
        return Undefined(frames, i);
      } else {
        frames := frames + [received[..aLen]];
        return Finished(frames, i + size);
      }
    }
    End(buf, i);
    s := Finished(frames, i);
  }

  method ReadLength(received: array<bv8>, aLen: nat, i: nat) returns (size: nat)
    requires i + 2 <= aLen <= received.Length
    ensures size == LengthAt(received[..aLen], i)
  {
    size := received[i] as nat + 256 * received[i + 1] as nat;
  }

  method ReadFrame(received: array<bv8>, aLen: nat, i: nat, size: nat) returns (frame: seq<bv8>)
    requires i + size <= aLen <= received.Length
    ensures frame == received[..aLen][i..i + size]
  {
    frame := received[i..i + size];
  }

  function PrependAll(frames: seq<seq<bv8>>, s: Split): Split {
    match s
    case Finished(rest, end) => Finished(frames + rest, end)
    case Undefined(rest, at) => Undefined(frames + rest, at)
  }

  lemma PrependOne(frames: seq<seq<bv8>>, frame: seq<bv8>, s: Split)
    ensures PrependAll(frames, Prepend(frame, s)) == PrependAll(frames + [frame], s)
  {
    assert frames + ([frame] + s.frames) == (frames + [frame]) + s.frames;
  }
}
