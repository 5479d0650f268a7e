/**
 * Least-significant-bit steganography over a decoded RGB carrier: the
 * `hide` and `recover` members of `SteganographicImage`.
 *
 * Stream bit t lives in the least-significant bit of carrier byte
 * `start + t*stride` (its "slot").  A message is written most significant
 * bit first and is followed by eight zero bits, the sentinel byte that lets
 * recovery stop without a stored length.  The carrier is the decoded pixel
 * buffer; decoding and encoding the image file are not part of this model.
 */
module Steganography {
  import opened Wrappers

  /** Why `Hide` refuses a message (the source throws a C string instead). */
  datatype StegError = CapacityExceeded

  // ---------------------------------------------------------------------
  // Slots and bits
  // ---------------------------------------------------------------------

  /** Carrier index of stream bit t: `start + t*stride`, counted out one
      stride at a time.  (Naming the stride in the decreases clause keeps
      the verifier from unrolling Slot all the way down at a constant t.) */
  function Slot(start: nat, stride: nat, t: nat): nat
    decreases t, stride
  {
    if t == 0 then start else Slot(start, stride, t - 1) + stride
  }

  /** Slot t is the product form the source computes. */
  lemma {:induction false} SlotProduct(start: nat, stride: nat, t: nat)
    ensures Slot(start, stride, t) == start + t * stride
    decreases t
  {
    if t > 0 {
      SlotProduct(start, stride, t - 1);
      assert t * stride == (t - 1) * stride + stride;
    }
  }

  /** Slots are laid out in the order of the stream. */
  lemma {:induction false} SlotMono(start: nat, stride: nat, a: nat, b: nat)
    requires a <= b
    ensures Slot(start, stride, a) <= Slot(start, stride, b)
    decreases b
  {
    if a < b {
      SlotMono(start, stride, a, b - 1);
    }
  }

  /** Distinct stream bits never share a slot when the stride is positive. */
  lemma SlotStrict(start: nat, stride: nat, a: nat, b: nat)
    requires stride >= 1 && a < b
    ensures Slot(start, stride, a) < Slot(start, stride, b)
  {
    SlotMono(start, stride, a, b - 1);
  }

  /** Slot t+u counted from `start` is slot u counted from slot t. */
  lemma {:induction false} SlotShift(start: nat, stride: nat, t: nat, u: nat)
    ensures Slot(start, stride, t + u) == Slot(Slot(start, stride, t), stride, u)
    decreases u
  {
    if u > 0 {
      SlotShift(start, stride, t, u - 1);
    }
  }

  /** The least-significant bit of a carrier byte. */
  function Lsb(b: bv8): bool
  {
    b & 1 == 1
  }

  /** The seven bits of a carrier byte that embedding must not touch. */
  function Upper(b: bv8): bv8
  {
    b & 0xFE
  }

  /** Carrier byte b with its least-significant bit replaced by `on`
      (`rgb[i] | 1` or `rgb[i] & ~1` in the source). */
  function SetLsb(b: bv8, on: bool): (r: bv8)
    ensures Lsb(r) == on
    ensures Upper(r) == Upper(b)
  {
    if on then b | 1 else b & 0xFE
  }

  /** The byte with only bit u set, counting from the most significant bit. */
  function Mask(u: nat): bv8
    requires u < 8
  {
    if u == 0 then 0x80 else if u == 1 then 0x40 else if u == 2 then 0x20
    else if u == 3 then 0x10 else if u == 4 then 0x08 else if u == 5 then 0x04
    else if u == 6 then 0x02 else 0x01
  }

  /** Bit u of byte b, counting from the most significant bit (u = 0). */
  function ByteBit(b: bv8, u: nat): bool
    requires u < 8
  {
    b & Mask(u) != 0
  }

  /** ByteBit is the source's `c >> (7 - bit) & 1`. */
  lemma ByteBitIsShift(b: bv8, u: nat)
    requires u < 8
    ensures ByteBit(b, u) == ((b >> (7 - u)) & 1 == 1)
  {
  }

  // ---------------------------------------------------------------------
  // Messages
  // ---------------------------------------------------------------------

  /** No byte of s is the NUL terminator. */
  predicate NulFree(s: seq<bv8>)
  {
    forall k :: 0 <= k < |s| ==> s[k] != 0
  }

  /** The C string held by `mem`: the bytes before the first NUL; its length
      is what `strlen` returns. */
  function CString(mem: seq<bv8>): (s: seq<bv8>)
    ensures s <= mem
    ensures NulFree(s)
    ensures |s| < |mem| ==> mem[|s|] == 0
  {
    if mem == [] || mem[0] == 0 then [] else [mem[0]] + CString(mem[1..])
  }

  /** A buffer with no NUL byte, read as a C string, is the whole buffer. */
  lemma {:induction false} CStringNulFree(mem: seq<bv8>)
    requires NulFree(mem)
    ensures CString(mem) == mem
  {
    if mem != [] {
      CStringNulFree(mem[1..]);
      assert mem == [mem[0]] + mem[1..];
    }
  }

  /** The character `*str++` yields at position q of a NUL-terminated string
      stored in `mem`; past the end of `mem` it reads the terminator. */
  function CharAt(mem: seq<bv8>, q: nat): bv8
  {
    if q < |mem| then mem[q] else 0
  }

  /** The bits of message m, each byte most significant bit first. */
  function Bits(m: seq<bv8>): (r: seq<bool>)
    ensures |r| == 8 * |m|
  {
    if m == [] then []
    else
      var b := m[0];
      [ByteBit(b, 0), ByteBit(b, 1), ByteBit(b, 2), ByteBit(b, 3),
       ByteBit(b, 4), ByteBit(b, 5), ByteBit(b, 6), ByteBit(b, 7)] + Bits(m[1..])
  }

  /** The embedded stream: the message bits, then the all-zero sentinel byte. */
  function Frame(m: seq<bv8>): (r: seq<bool>)
    ensures |r| == 8 * |m| + 8
  {
    Bits(m) + seq(8, _ => false)
  }

  /** Capacity: all 8*(len+1) slots of a len-byte message and its sentinel lie
      inside a carrier of n bytes. */
  predicate Fits(n: nat, start: nat, stride: nat, len: nat)
  {
    Slot(start, stride, 8 * len + 7) < n
  }

  /** Capacity is exactly "every frame slot is inside the carrier". */
  lemma FitsIffInBounds(n: nat, start: nat, stride: nat, len: nat)
    ensures Fits(n, start, stride, len) <==>
            forall t :: 0 <= t < 8 * len + 8 ==> Slot(start, stride, t) < n
  {
    if Fits(n, start, stride, len) {
      forall t | 0 <= t < 8 * len + 8 ensures Slot(start, stride, t) < n {
        SlotMono(start, stride, t, 8 * len + 7);
      }
    } else {
      assert Slot(start, stride, 8 * len + 7) >= n;
    }
  }

  // ---------------------------------------------------------------------
  // Embedding, as a function of the carrier
  // ---------------------------------------------------------------------

  /** Carrier byte j is the slot of one of the stream bits lo .. hi-1. */
  predicate IsSlot(j: nat, start: nat, stride: nat, lo: nat, hi: nat)
  {
    exists t :: lo <= t < hi && j == Slot(start, stride, t)
  }

  /** The carrier after bits[from..] have been written, one after the other,
      into the least-significant bits of their slots. */
  function Stamp(rgb: seq<bv8>, start: nat, stride: nat, bits: seq<bool>, from: nat): (r: seq<bv8>)
    requires from <= |bits|
    requires |bits| > 0 ==> Slot(start, stride, |bits| - 1) < |rgb|
    ensures |r| == |rgb|
    decreases |bits| - from
  {
    if from == |bits| then rgb
    else
      SlotMono(start, stride, from, |bits| - 1);
      var i := Slot(start, stride, from);
      Stamp(rgb[i := SetLsb(rgb[i], bits[from])], start, stride, bits, from + 1)
  }

  /** Stamping changes only least-significant bits: the upper seven bits of
      every carrier byte survive. */
  lemma {:induction false} StampKeepsUpper(rgb: seq<bv8>, start: nat, stride: nat, bits: seq<bool>, from: nat)
    requires from <= |bits|
    requires |bits| > 0 ==> Slot(start, stride, |bits| - 1) < |rgb|
    ensures forall j :: 0 <= j < |rgb| ==> Upper(Stamp(rgb, start, stride, bits, from)[j]) == Upper(rgb[j])
    decreases |bits| - from
  {
    if from < |bits| {
      SlotMono(start, stride, from, |bits| - 1);
      var i := Slot(start, stride, from);
      StampKeepsUpper(rgb[i := SetLsb(rgb[i], bits[from])], start, stride, bits, from + 1);
    }
  }

  /** Where every stream bit ends up: slot t holds bits[t] in its
      least-significant bit, and every byte that is not a slot of
      bits[from..] is untouched. */
  lemma {:induction false} StampSpec(rgb: seq<bv8>, start: nat, stride: nat, bits: seq<bool>, from: nat)
    requires stride >= 1
    requires from <= |bits|
    requires |bits| > 0 ==> Slot(start, stride, |bits| - 1) < |rgb|
    ensures forall t :: from <= t < |bits| ==>
              Slot(start, stride, t) < |rgb| &&
              Stamp(rgb, start, stride, bits, from)[Slot(start, stride, t)]
                == SetLsb(rgb[Slot(start, stride, t)], bits[t])
    ensures forall j :: 0 <= j < |rgb| && !IsSlot(j, start, stride, from, |bits|) ==>
              Stamp(rgb, start, stride, bits, from)[j] == rgb[j]
    decreases |bits| - from
  {
    if from < |bits| {
      SlotMono(start, stride, from, |bits| - 1);
      var i := Slot(start, stride, from);
      var rgb' := rgb[i := SetLsb(rgb[i], bits[from])];
      StampSpec(rgb', start, stride, bits, from + 1);
      forall t | from < t < |bits|
        ensures i < Slot(start, stride, t) < |rgb|
      {
        SlotStrict(start, stride, from, t);
        SlotMono(start, stride, t, |bits| - 1);
      }
    }
  }

  /** The carrier after message m and its sentinel have been hidden in it. */
  function Embedded(rgb: seq<bv8>, start: nat, stride: nat, m: seq<bv8>): seq<bv8>
    requires Fits(|rgb|, start, stride, |m|)
  {
    Stamp(rgb, start, stride, Frame(m), 0)
  }

  /** Message bit u of byte q (most significant first) lands in the
      least-significant bit of slot 8*q + u. */
  lemma EmbeddedMessageBits(rgb: seq<bv8>, start: nat, stride: nat, m: seq<bv8>)
    requires stride >= 1
    requires Fits(|rgb|, start, stride, |m|)
    ensures |Embedded(rgb, start, stride, m)| == |rgb|
    ensures forall q, u :: 0 <= q < |m| && 0 <= u < 8 ==>
              Slot(start, stride, 8 * q + u) < |rgb| &&
              Lsb(Embedded(rgb, start, stride, m)[Slot(start, stride, 8 * q + u)]) == ByteBit(m[q], u)
  {
    StampSpec(rgb, start, stride, Frame(m), 0);
    forall q, u | 0 <= q < |m| && 0 <= u < 8
      ensures Frame(m)[8 * q + u] == ByteBit(m[q], u)
    {
      FrameBit(m, q, u);
    }
  }

  /** The eight slots after the message hold the zero sentinel byte. */
  lemma EmbeddedSentinel(rgb: seq<bv8>, start: nat, stride: nat, m: seq<bv8>)
    requires stride >= 1
    requires Fits(|rgb|, start, stride, |m|)
    ensures forall t :: 8 * |m| <= t < 8 * |m| + 8 ==>
              Slot(start, stride, t) < |rgb| &&
              !Lsb(Embedded(rgb, start, stride, m)[Slot(start, stride, t)])
  {
    StampSpec(rgb, start, stride, Frame(m), 0);
  }

  /** Embedding changes least-significant bits only. */
  lemma EmbeddedKeepsUpper(rgb: seq<bv8>, start: nat, stride: nat, m: seq<bv8>)
    requires Fits(|rgb|, start, stride, |m|)
    ensures forall j :: 0 <= j < |rgb| ==> Upper(Embedded(rgb, start, stride, m)[j]) == Upper(rgb[j])
  {
    StampKeepsUpper(rgb, start, stride, Frame(m), 0);
  }

  /** A byte that is none of the 8*(|m|+1) slots is left as it was. */
  lemma EmbeddedElsewhere(rgb: seq<bv8>, start: nat, stride: nat, m: seq<bv8>)
    requires stride >= 1
    requires Fits(|rgb|, start, stride, |m|)
    ensures forall j :: 0 <= j < |rgb| && !IsSlot(j, start, stride, 0, 8 * |m| + 8) ==>
              Embedded(rgb, start, stride, m)[j] == rgb[j]
  {
    StampSpec(rgb, start, stride, Frame(m), 0);
  }

  /** In particular the bytes below `start` are left as they were. */
  lemma EmbeddedBelowStart(rgb: seq<bv8>, start: nat, stride: nat, m: seq<bv8>)
    requires stride >= 1
    requires Fits(|rgb|, start, stride, |m|)
    ensures forall j :: 0 <= j < start && j < |rgb| ==> Embedded(rgb, start, stride, m)[j] == rgb[j]
  {
    EmbeddedElsewhere(rgb, start, stride, m);
    forall t | 0 <= t
      ensures start <= Slot(start, stride, t)
    {
      SlotMono(start, stride, 0, t);
    }
  }

  // ---------------------------------------------------------------------
  // Recovery, as a function of the carrier
  // ---------------------------------------------------------------------

  /** The LSBs of the first n (at most 8) slots from p, packed most
      significant bit first. */
  function Pack(rgb: seq<bv8>, p: nat, stride: nat, n: nat): bv8
    requires n <= 8
    requires n > 0 ==> Slot(p, stride, n - 1) < |rgb|
    decreases n, stride
  {
    if n == 0 then 0
    else
      (Pack(rgb, p, stride, n - 1) << 1) | (if Lsb(rgb[Slot(p, stride, n - 1)]) then 1 else 0)
  }

  /** The bytes recovered from slot p on: whole bytes are read until one is
      zero (not appended) or the carrier ends; a partial byte at the end of
      the carrier is dropped. */
  function Recovered(rgb: seq<bv8>, p: nat, stride: nat): seq<bv8>
    requires stride >= 1
    decreases |rgb| - p
  {
    if Slot(p, stride, 7) >= |rgb| then []
    else
      var b := Pack(rgb, p, stride, 8);
      SlotStrict(p, stride, 0, 8);
      SlotMono(p, stride, 0, 7);
      if b == 0 then [] else [b] + Recovered(rgb, Slot(p, stride, 8), stride)
  }

  /** Recovery never yields the NUL byte: it is where recovery stops. */
  lemma {:induction false} RecoveredNulFree(rgb: seq<bv8>, p: nat, stride: nat)
    requires stride >= 1
    ensures NulFree(Recovered(rgb, p, stride))
    decreases |rgb| - p
  {
    if Slot(p, stride, 7) < |rgb| && Pack(rgb, p, stride, 8) != 0 {
      SlotStrict(p, stride, 0, 8);
      SlotMono(p, stride, 0, 7);
      RecoveredNulFree(rgb, Slot(p, stride, 8), stride);
    }
  }

  /** Recovered, described without recursion: byte q of the result is the
      q-th whole byte packed from the slots, and none of them is zero. */
  lemma {:induction false} RecoveredBytes(rgb: seq<bv8>, p: nat, stride: nat)
    requires stride >= 1
    ensures forall q :: 0 <= q < |Recovered(rgb, p, stride)| ==>
              Slot(Slot(p, stride, 8 * q), stride, 7) < |rgb| &&
              Recovered(rgb, p, stride)[q] == Pack(rgb, Slot(p, stride, 8 * q), stride, 8) != 0
    decreases |rgb| - p
  {
    var msg := Recovered(rgb, p, stride);
    if Slot(p, stride, 7) < |rgb| && Pack(rgb, p, stride, 8) != 0 {
      var p' := Slot(p, stride, 8);
      SlotStrict(p, stride, 0, 8);
      SlotMono(p, stride, 0, 7);
      RecoveredBytes(rgb, p', stride);
      var rest := Recovered(rgb, p', stride);
      assert msg == [Pack(rgb, p, stride, 8)] + rest;
      forall q | 1 <= q < |msg|
        ensures Slot(Slot(p, stride, 8 * q), stride, 7) < |rgb|
        ensures msg[q] == Pack(rgb, Slot(p, stride, 8 * q), stride, 8) != 0
      {
        SlotShift(p, stride, 8, 8 * (q - 1));
        assert msg[q] == rest[q - 1];
      }
    }
  }

  /** Recovery stops for a reason: the byte after the last one recovered is
      zero, or it does not fit in the carrier. */
  lemma {:induction false} RecoveredStops(rgb: seq<bv8>, p: nat, stride: nat)
    requires stride >= 1
    ensures Slot(Slot(p, stride, 8 * |Recovered(rgb, p, stride)|), stride, 7) < |rgb| ==>
              Pack(rgb, Slot(p, stride, 8 * |Recovered(rgb, p, stride)|), stride, 8) == 0
    decreases |rgb| - p
  {
    if Slot(p, stride, 7) < |rgb| && Pack(rgb, p, stride, 8) != 0 {
      var p' := Slot(p, stride, 8);
      SlotStrict(p, stride, 0, 8);
      SlotMono(p, stride, 0, 7);
      RecoveredStops(rgb, p', stride);
      var n := |Recovered(rgb, p', stride)|;
      assert |Recovered(rgb, p, stride)| == n + 1;
      SlotShift(p, stride, 8, 8 * n);
    }
  }

  /** The n most significant bits of b, as a number (`b >> (8 - n)`). */
  function Prefix(b: bv8, n: nat): bv8
    requires n <= 8
  {
    if n == 0 then 0 else if n == 1 then b >> 7 else if n == 2 then b >> 6
    else if n == 3 then b >> 5 else if n == 4 then b >> 4 else if n == 5 then b >> 3
    else if n == 6 then b >> 2 else if n == 7 then b >> 1 else b
  }

  /** Packing slots whose LSBs are the bits of b, MSB first, rebuilds b one
      bit at a time. */
  lemma {:induction false} PackPrefix(rgb: seq<bv8>, p: nat, stride: nat, b: bv8, n: nat)
    requires n <= 8
    requires Slot(p, stride, 7) < |rgb|
    requires forall u :: 0 <= u < 8 ==> Slot(p, stride, u) < |rgb| && Lsb(rgb[Slot(p, stride, u)]) == ByteBit(b, u)
    ensures Pack(rgb, p, stride, n) == Prefix(b, n)
  {
    if n > 0 {
      PackPrefix(rgb, p, stride, b, n - 1);
      ShiftIn(b, n);
      var on := Lsb(rgb[Slot(p, stride, n - 1)]);
      assert on == ByteBit(b, n - 1);
      assert Pack(rgb, p, stride, n) == (Prefix(b, n - 1) << 1) | (if on then 1 else 0);
    }
  }

  /** Packing the eight slots whose LSBs are the bits of b gives back b. */
  lemma PackByte(rgb: seq<bv8>, p: nat, stride: nat, b: bv8)
    requires Slot(p, stride, 7) < |rgb|
    requires forall u :: 0 <= u < 8 ==> Slot(p, stride, u) < |rgb| && Lsb(rgb[Slot(p, stride, u)]) == ByteBit(b, u)
    ensures Pack(rgb, p, stride, 8) == b
  {
    PackPrefix(rgb, p, stride, b, 8);
  }

  /** One step of packing: shifting in bit n-1 of b extends the prefix. */
  lemma ShiftIn(b: bv8, n: nat)
    requires 1 <= n <= 8
    ensures (Prefix(b, n - 1) << 1) | (if ByteBit(b, n - 1) then 1 else 0) == Prefix(b, n)
  {
  }

  /** The stream byte q of the embedded carrier is message byte q, or the
      zero sentinel when q == |m|. */
  lemma EmbeddedByte(rgb: seq<bv8>, start: nat, stride: nat, m: seq<bv8>, q: nat)
    requires stride >= 1
    requires Fits(|rgb|, start, stride, |m|)
    requires q <= |m|
    ensures Slot(Slot(start, stride, 8 * q), stride, 7) < |rgb|
    ensures Pack(Embedded(rgb, start, stride, m), Slot(start, stride, 8 * q), stride, 8) == CharAt(m, q)
  {
    EmbeddedByteBits(rgb, start, stride, m, q);
    PackByte(Embedded(rgb, start, stride, m), Slot(start, stride, 8 * q), stride, CharAt(m, q));
  }

  /** The eight slots of stream byte q hold the bits of message byte q, or
      of the zero sentinel when q == |m|. */
  lemma EmbeddedByteBits(rgb: seq<bv8>, start: nat, stride: nat, m: seq<bv8>, q: nat)
    requires stride >= 1
    requires Fits(|rgb|, start, stride, |m|)
    requires q <= |m|
    ensures Slot(Slot(start, stride, 8 * q), stride, 7) < |rgb|
    ensures forall u :: 0 <= u < 8 ==>
              Slot(Slot(start, stride, 8 * q), stride, u) < |rgb| &&
              Lsb(Embedded(rgb, start, stride, m)[Slot(Slot(start, stride, 8 * q), stride, u)]) == ByteBit(CharAt(m, q), u)
  {
    var e := Embedded(rgb, start, stride, m);
    var p := Slot(start, stride, 8 * q);
    StampSpec(rgb, start, stride, Frame(m), 0);
    forall u | 0 <= u < 8
      ensures Slot(p, stride, u) < |e| && Lsb(e[Slot(p, stride, u)]) == ByteBit(CharAt(m, q), u)
    {
      SlotShift(start, stride, 8 * q, u);
      var t := 8 * q + u;
      assert Slot(p, stride, u) == Slot(start, stride, t);
      if q < |m| {
        FrameBit(m, q, u);
      } else {
        assert Frame(m)[t] == false;
      }
    }
  }

  /** Carrier e spells out message m from `start`: stream byte q packs to
      message byte q for every q < |m|, and stream byte |m| packs to zero. */
  predicate Carries(e: seq<bv8>, start: nat, stride: nat, m: seq<bv8>)
  {
    forall q :: 0 <= q <= |m| ==>
      Slot(Slot(start, stride, 8 * q), stride, 7) < |e| &&
      Pack(e, Slot(start, stride, 8 * q), stride, 8) == CharAt(m, q)
  }

  /** The embedded carrier spells out the message. */
  lemma EmbeddedCarries(rgb: seq<bv8>, start: nat, stride: nat, m: seq<bv8>)
    requires stride >= 1
    requires Fits(|rgb|, start, stride, |m|)
    ensures Carries(Embedded(rgb, start, stride, m), start, stride, m)
  {
    forall q | 0 <= q <= |m|
      ensures Slot(Slot(start, stride, 8 * q), stride, 7) < |rgb|
      ensures Pack(Embedded(rgb, start, stride, m), Slot(start, stride, 8 * q), stride, 8) == CharAt(m, q)
    {
      EmbeddedByte(rgb, start, stride, m, q);
    }
  }

  /** Recovering a carrier that spells out a NUL-free message, from stream
      byte q on, yields the rest of the message. */
  lemma {:induction false} RecoverSuffix(e: seq<bv8>, start: nat, stride: nat, m: seq<bv8>, q: nat)
    requires stride >= 1
    requires NulFree(m)
    requires Carries(e, start, stride, m)
    requires q <= |m|
    ensures Recovered(e, Slot(start, stride, 8 * q), stride) == m[q..]
    decreases |m| - q
  {
    var p := Slot(start, stride, 8 * q);
    assert Slot(p, stride, 7) < |e| && Pack(e, p, stride, 8) == CharAt(m, q);
    if q < |m| {
      RecoverSuffix(e, start, stride, m, q + 1);
      SlotShift(start, stride, 8 * q, 8);
      assert 8 * q + 8 == 8 * (q + 1);
      assert Pack(e, p, stride, 8) == m[q] != 0;
      assert Recovered(e, p, stride) == [m[q]] + Recovered(e, Slot(p, stride, 8), stride);
      assert m[q..] == [m[q]] + m[q + 1..];
    } else {
      assert Recovered(e, p, stride) == [];
    }
  }

  /** Round trip: recovering with the same start and stride returns exactly
      a NUL-free message that fits. */
  lemma RoundTrip(rgb: seq<bv8>, start: nat, stride: nat, m: seq<bv8>)
    requires stride >= 1
    requires NulFree(m)
    requires Fits(|rgb|, start, stride, |m|)
    ensures Recovered(Embedded(rgb, start, stride, m), start, stride) == m
  {
    EmbeddedCarries(rgb, start, stride, m);
    RecoverSuffix(Embedded(rgb, start, stride, m), start, stride, m, 0);
  }

  // ---------------------------------------------------------------------
  // The codec's two operations
  // ---------------------------------------------------------------------

  /** Up to and including its terminator, a C string reads the same from
      the memory that holds it. */
  lemma CharAtCString(mem: seq<bv8>, q: nat)
    requires q <= |CString(mem)|
    ensures CharAt(mem, q) == CharAt(CString(mem), q)
    ensures CharAt(mem, q) == 0 <==> q == |CString(mem)|
  {
  }

  /** Stream bit 8*q+u of the frame is bit u of message byte q. */
  lemma FrameBit(m: seq<bv8>, q: nat, u: nat)
    requires q < |m| && u < 8
    ensures Frame(m)[8 * q + u] == ByteBit(m[q], u)
  {
    BitsAt(m, q, u);
  }

  /** Bit u of byte q sits at position 8*q + u of the stream. */
  lemma {:induction false} BitsAt(m: seq<bv8>, q: nat, u: nat)
    requires q < |m| && u < 8
    ensures Bits(m)[8 * q + u] == ByteBit(m[q], u)
  {
    if q > 0 {
      BitsAt(m[1..], q - 1, u);
      assert Bits(m)[8 * q + u] == Bits(m[1..])[8 * (q - 1) + u];
    }
  }

  /** Writing stream bit k is the first step of stamping bits[k..]. */
  lemma StampStep(rgb: seq<bv8>, start: nat, stride: nat, bits: seq<bool>, k: nat)
    requires k < |bits|
    requires Slot(start, stride, |bits| - 1) < |rgb|
    ensures Slot(start, stride, k) < |rgb|
    ensures Stamp(rgb, start, stride, bits, k) ==
            Stamp(rgb[Slot(start, stride, k) := SetLsb(rgb[Slot(start, stride, k)], bits[k])], start, stride, bits, k + 1)
  {
    SlotMono(start, stride, k, |bits| - 1);
  }

  /** Writes stream bit k into its slot i: `rgb[i] |= 1` when the bit is
      set, `rgb[i] &= ~1` when it is clear.  This is one step of Stamp. */
  method WriteSlot(rgb: array<bv8>, ghost start: nat, ghost stride: nat, ghost bits: seq<bool>, ghost k: nat, i: nat, on: bool)
    requires k < |bits| && on == bits[k]
    requires Slot(start, stride, |bits| - 1) < rgb.Length
    requires i == Slot(start, stride, k)
    modifies rgb
    ensures i < rgb.Length && rgb[..] == old(rgb[..])[i := SetLsb(old(rgb[i]), on)]
    ensures Stamp(rgb[..], start, stride, bits, k + 1) == Stamp(old(rgb[..]), start, stride, bits, k)
  {
    StampStep(rgb[..], start, stride, bits, k);
    if on {
      rgb[i] := rgb[i] | 1;
    } else {
      rgb[i] := rgb[i] & 0xFE;
    }
    assert rgb[..] == old(rgb[..])[i := SetLsb(old(rgb[i]), on)];
  }

  /** Hides the C string held by `msg` in the carrier.  The capacity is
      checked before any byte is written, so a refused message leaves the
      carrier as it was.  The capacity test here is the one the sentinel
      scheme needs (see SourceCapacityCheck for the one the source makes),
      and the sentinel loop writes exactly eight slots (see
      SentinelWritesAsWritten).  Every bound is the carrier's own length;
      the source bounds its loops and its test by `s`, which holds the size
      of the compressed image file rather than that of the decoded pixels. */
  method Hide(rgb: array<bv8>, start: nat, stride: nat, msg: seq<bv8>) returns (r: Outcome<StegError>)
    requires stride >= 1
    modifies rgb
    ensures r.Pass? <==> Fits(rgb.Length, start, stride, |CString(msg)|)
    ensures r.Pass? ==> rgb[..] == Embedded(old(rgb[..]), start, stride, CString(msg))
    ensures r.Fail? ==> r.error == CapacityExceeded && rgb[..] == old(rgb[..])
  {
    var len := |CString(msg)|;
    if Slot(start, stride, 8 * len + 7) >= rgb.Length {
      return Fail(CapacityExceeded);
    }
    var i := HideMessage(rgb, start, stride, msg);
    HideSentinel(rgb, start, stride, CString(msg), i);
    return Pass;
  }

  /** The first loop of `hide`: every bit of every character before the
      terminator, most significant bit first, one slot after the other.
      Returns the slot that follows the message. */
  method HideMessage(rgb: array<bv8>, start: nat, stride: nat, msg: seq<bv8>) returns (i: nat)
    requires stride >= 1
    requires Fits(rgb.Length, start, stride, |CString(msg)|)
    modifies rgb
    ensures i == Slot(start, stride, 8 * |CString(msg)|)
    ensures Stamp(rgb[..], start, stride, Frame(CString(msg)), 8 * |CString(msg)|)
         == Embedded(old(rgb[..]), start, stride, CString(msg))
    ensures forall j :: 0 <= j < rgb.Length && !IsSlot(j, start, stride, 0, 8 * |CString(msg)|) ==>
              rgb[j] == old(rgb[j])
  {
    ghost var m := CString(msg);
    ghost var frame := Frame(m);
    CharAtCString(msg, 0);
    var bit: nat, q: nat := 0, 0;
    var c := CharAt(msg, 0);
    i := start;
    ghost var k: nat := 0;
    while i < rgb.Length && c != 0
      invariant q <= |m| && bit < 8 && k == 8 * q + bit
      invariant q == |m| ==> bit == 0
      invariant c == CharAt(m, q)
      invariant i == Slot(start, stride, k)
      invariant Stamp(rgb[..], start, stride, frame, k) == Stamp(old(rgb[..]), start, stride, frame, 0)
      invariant forall j :: 0 <= j < rgb.Length && !IsSlot(j, start, stride, 0, k) ==> rgb[j] == old(rgb[j])
      decreases 8 * |m| - k
    {
      assert q < |m| && c == m[q];
      CharAtCString(msg, q + 1);
      FrameBit(m, q, bit);
      var on := ByteBit(c, bit);  // c >> (7 - bit) & 1, see ByteBitIsShift
      WriteSlot(rgb, start, stride, frame, k, i, on);
      bit := bit + 1;
      if bit == 8 {
        bit, q := 0, q + 1;
        c := CharAt(msg, q);
      }
      i, k := i + stride, k + 1;
    }
    if c != 0 {
      SlotMono(start, stride, k, 8 * |m| + 7);
    }
  }

  /** The second loop of `hide`: the eight slots after the message get a
      clear least-significant bit, the zero sentinel byte. */
  method HideSentinel(rgb: array<bv8>, ghost start: nat, stride: nat, ghost m: seq<bv8>, i0: nat)
    requires stride >= 1
    requires Fits(rgb.Length, start, stride, |m|)
    requires i0 == Slot(start, stride, 8 * |m|)
    modifies rgb
    ensures rgb[..] == Stamp(old(rgb[..]), start, stride, Frame(m), 8 * |m|)
  {
    ghost var frame := Frame(m);
    var i, j := i0, 0;
    ghost var k: nat := 8 * |m|;
    while j < 8
      invariant j <= 8 && k == 8 * |m| + j
      invariant i == Slot(start, stride, k)
      invariant Stamp(rgb[..], start, stride, frame, k) == Stamp(old(rgb[..]), start, stride, frame, 8 * |m|)
    {
      WriteSlot(rgb, start, stride, frame, k, i, false);  // rgb[i] &= ~1
      i, j, k := i + stride, j + 1, k + 1;
    }
  }

  /** Once a whole nonzero byte has been packed from slot `pos`, appending
      it to what was recovered before leaves recovery to go on from the
      next byte's slot. */
  lemma RecoveredNext(rgb: seq<bv8>, start: nat, stride: nat, pos: nat, str: seq<bv8>)
    requires stride >= 1
    requires Slot(pos, stride, 7) < |rgb| && Pack(rgb, pos, stride, 8) != 0
    requires str + Recovered(rgb, pos, stride) == Recovered(rgb, start, stride)
    ensures (str + [Pack(rgb, pos, stride, 8)]) + Recovered(rgb, Slot(pos, stride, 8), stride)
         == Recovered(rgb, start, stride)
  {
    var b := Pack(rgb, pos, stride, 8);
    var rest := Recovered(rgb, Slot(pos, stride, 8), stride);
    assert Recovered(rgb, pos, stride) == [b] + rest;
    assert (str + [b]) + rest == str + ([b] + rest);
  }

  /** One bit of `recover`: `if (rgb[i] & 1) c |= 1`, where c holds the
      bits packed so far from slot `pos`, already shifted left. */
  method ReadBit(rgb: array<bv8>, ghost pos: nat, ghost stride: nat, ghost bit: nat, i: nat, c: bv8) returns (c': bv8)
    requires bit < 8 && i == Slot(pos, stride, bit) && i < rgb.Length
    requires c == Pack(rgb[..], pos, stride, bit) << 1
    ensures c' == Pack(rgb[..], pos, stride, bit + 1)
  {
    c' := c;
    if rgb[i] & 1 == 1 {
      c' := c | 1;
    }
  }

  /** Reads the LSBs of the slots from `start` on, eight at a time, and
      returns the bytes before the first zero byte. */
  method Recover(rgb: array<bv8>, start: nat, stride: nat) returns (str: seq<bv8>)
    requires stride >= 1
    ensures str == Recovered(rgb[..], start, stride)
  {
    var bit: nat, c: bv8 := 0, 0;
    str := [];
    var i: nat := start;
    ghost var pos: nat := start;
    while i < rgb.Length
      invariant bit < 8
      invariant i == Slot(pos, stride, bit)
      invariant bit > 0 ==> Slot(pos, stride, bit - 1) < rgb.Length
      invariant c == Pack(rgb[..], pos, stride, bit) << 1
      invariant str + Recovered(rgb[..], pos, stride) == Recovered(rgb[..], start, stride)
      decreases rgb.Length - i
    {
      c := ReadBit(rgb, pos, stride, bit, i, c);
      bit := bit + 1;
      if bit == 8 {
        if c == 0 {
          return;
        }
        RecoveredNext(rgb[..], start, stride, pos, str);
        bit, str, c := 0, str + [c], 0;
        pos := Slot(pos, stride, 8);
      } else {
        c := c << 1;
      }
      i := i + stride;
    }
    SlotMono(pos, stride, bit, 7);
  }

  // ---------------------------------------------------------------------
  // The source as written
  // ---------------------------------------------------------------------

  /** The capacity test as the source writes it: string length times stride
      against the byte count, with no factor of eight bits per byte and no
      room for the sentinel.  It is weaker than Fits: it never refuses a
      message that fits. */
  function SourceCapacityCheck(n: nat, start: nat, stride: nat, len: nat): (pass: bool)
    ensures Fits(n, start, stride, len) ==> pass
  {
    SlotProduct(start, stride, 8 * len + 7);
    assert (8 * len + 7) * stride == len * stride + (7 * len + 7) * stride;
    !(start + len * stride > n)
  }

  /** The source's test lets through every message whose span
      `start + len*stride` just reaches the end of the carrier, although
      such a message and its sentinel never fit. */
  lemma SourceCheckAdmitsOverflow(start: nat, stride: nat, len: nat)
    requires stride >= 1
    ensures SourceCapacityCheck(start + len * stride, start, stride, len)
    ensures !Fits(start + len * stride, start, stride, len)
  {
    SlotProduct(start, stride, 8 * len + 7);
    assert (8 * len + 7) * stride >= len * stride;
  }

  /** The carrier indices the source's sentinel loop writes, starting at
      index i with counter j: it goes on while `i < n || j == 8`. */
  function SentinelWritesAsWritten(i: nat, stride: nat, n: nat, j: nat): (r: seq<nat>)
    requires stride >= 1
    ensures forall k :: 0 <= k < |r| ==> r[k] == Slot(i, stride, k)
    ensures forall k :: 0 <= k < |r| ==> r[k] < n || j + k == 8
    decreases (if i < n then n - i else 0) + (if j < 9 then 9 - j else 0)
  {
    if i < n || j == 8 then
      SlotNext(i, stride, i + stride);
      [i] + SentinelWritesAsWritten(i + stride, stride, n, j + 1)
    else []
  }

  /** Slot u counted from the next slot is slot u+1 counted from i. */
  lemma SlotNext(i: nat, stride: nat, next: nat)
    requires next == i + stride
    ensures forall u: nat :: Slot(next, stride, u) == Slot(i, stride, u + 1)
  {
    forall u: nat ensures Slot(next, stride, u) == Slot(i, stride, u + 1) {
      SlotShift(i, stride, 1, u);
    }
  }

  /** As written, the sentinel loop clears every remaining slot up to the end
      of the carrier, not only the eight sentinel slots. */
  lemma {:induction false} SentinelAsWrittenClearsAll(i: nat, stride: nat, n: nat, j: nat, u: nat)
    requires stride >= 1
    requires Slot(i, stride, u) < n
    ensures Slot(i, stride, u) in SentinelWritesAsWritten(i, stride, n, j)
    decreases u
  {
    if u > 0 {
      SlotShift(i, stride, 1, u - 1);
      assert Slot(i, stride, 1) == i + stride;
      SentinelAsWrittenClearsAll(i + stride, stride, n, j + 1, u - 1);
    }
  }

  /** As written, when exactly eight slots remain after the message the
      sentinel loop makes a ninth write, one slot past the end of the
      carrier. */
  lemma SentinelAsWrittenOverruns(i: nat, stride: nat, n: nat)
    requires stride >= 1
    requires Slot(i, stride, 7) < n <= Slot(i, stride, 8)
    ensures |SentinelWritesAsWritten(i, stride, n, 0)| == 9
    ensures SentinelWritesAsWritten(i, stride, n, 0)[8] == Slot(i, stride, 8) >= n
  {
    SentinelTail(i, stride, n, 0);
  }

  /** As written, when fewer than eight slots remain after the message the
      sentinel loop stops at the end of the carrier after fewer than eight
      writes, so the sentinel byte is incomplete. */
  lemma SentinelAsWrittenShort(i: nat, stride: nat, n: nat)
    requires stride >= 1
    requires n <= Slot(i, stride, 7)
    ensures |SentinelWritesAsWritten(i, stride, n, 0)| < 8
  {
  }

  /** From counter j on, the as-written loop makes 9 - j more writes when
      exactly eight slots remain, the last at slot 8. */
  lemma {:induction false} SentinelTail(i: nat, stride: nat, n: nat, j: nat)
    requires stride >= 1 && j <= 8
    requires Slot(i, stride, 7) < n <= Slot(i, stride, 8)
    ensures |SentinelWritesAsWritten(Slot(i, stride, j), stride, n, j)| == 9 - j
    ensures SentinelWritesAsWritten(Slot(i, stride, j), stride, n, j)[8 - j] == Slot(i, stride, 8)
    decreases 8 - j
  {
    SlotShift(i, stride, j, 1);
    if j < 8 {
      SlotMono(i, stride, j, 7);
      SentinelTail(i, stride, n, j + 1);
    } else {
      assert Slot(i, stride, 8) + stride >= n;
    }
  }
}
