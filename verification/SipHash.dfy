/** SipHash-1-3 as section 2 of the SipHash paper defines it, and the state that computes it in place. */
module SipHash {
  import opened Powers

  type Byte = b: nat | b < 256

  const BYTE_BITS: nat := 8

  /** A UInt64 read as a number. */
  type UInt64 = x: nat | x < 0x1_0000_0000_0000_0000

  // ---------------------------------------------------------------- little-endian bytes

  function LittleEndian(bytes: seq<Byte>): nat
  {
    if bytes == [] then 0 else bytes[0] + 256 * LittleEndian(bytes[1..])
  }

  function BytesOf(x: nat, count: nat): (bytes: seq<Byte>)
    ensures |bytes| == count
  {
    if count == 0 then [] else [x % 256] + BytesOf(x / 256, count - 1)
  }

  lemma Pow2Byte(n: nat)
    ensures Pow2(BYTE_BITS * (n + 1)) == 256 * Pow2(BYTE_BITS * n)
  {
    Pow2Add(8, BYTE_BITS * n);
  }

  lemma {:induction false} LittleEndianBound(bytes: seq<Byte>)
    ensures LittleEndian(bytes) < Pow2(BYTE_BITS * |bytes|)
  {
    if bytes != [] {
      LittleEndianBound(bytes[1..]);
      Pow2Byte(|bytes| - 1);
    }
  }

  lemma {:induction false} LittleEndianOfBytes(x: nat, count: nat)
    requires x < Pow2(BYTE_BITS * count)
    ensures LittleEndian(BytesOf(x, count)) == x
  {
    if count > 0 {
      Pow2Byte(count - 1);
      LittleEndianOfBytes(x / 256, count - 1);
      assert BytesOf(x, count)[1..] == BytesOf(x / 256, count - 1);
    }
  }

  /** The bytes of b stand above those of a. */
  lemma {:induction false} LittleEndianConcat(a: seq<Byte>, b: seq<Byte>)
    ensures LittleEndian(a + b) == LittleEndian(a) + LittleEndian(b) * Pow2(BYTE_BITS * |a|)
  {
    if a == [] {
      assert a + b == b;
    } else {
      var rest := a[1..];
      LittleEndianConcat(rest, b);
      assert (a + b)[1..] == rest + b;
      Pow2Byte(|rest|);
      Distribute(LittleEndian(rest), LittleEndian(b), Pow2(BYTE_BITS * |rest|));
    }
  }

  lemma Distribute(x: int, y: int, p: int)
    ensures 256 * (x + y * p) == 256 * x + y * (256 * p)
  {
  }

  /** Cutting a number between two bytes cuts the byte string there. */
  lemma LittleEndianSplit(bytes: seq<Byte>, n: nat)
    requires n <= |bytes|
    ensures LittleEndian(bytes) % Pow2(BYTE_BITS * n) == LittleEndian(bytes[..n])
    ensures LittleEndian(bytes) / Pow2(BYTE_BITS * n) == LittleEndian(bytes[n..])
  {
    hide Pow2, LittleEndian;
    LittleEndianConcat(bytes[..n], bytes[n..]);
    assert bytes == bytes[..n] + bytes[n..];
    LittleEndianBound(bytes[..n]);
    DivModUnique(LittleEndian(bytes), Pow2(BYTE_BITS * n), LittleEndian(bytes[n..]), LittleEndian(bytes[..n]));
  }

  lemma WordFits(bytes: seq<Byte>)
    requires |bytes| <= 8
    ensures LittleEndian(bytes) < 0x1_0000_0000_0000_0000
  {
    LittleEndianBound(bytes);
    Pow2Increasing(BYTE_BITS * |bytes|, 64);
    MachineWords();
  }

  // ---------------------------------------------------------------- the function

  datatype Vars = Vars(v0: bv64, v1: bv64, v2: bv64, v3: bv64)

  function Plus(x: bv64, y: bv64): bv64 { x + y }

  function Xor(x: bv64, y: bv64): bv64 { x ^ y }

  function Rotated(x: bv64, amount: nat): bv64
    requires amount <= 64
  {
    x.RotateLeft(amount)
  }

  /** The low `count` bytes of a number as a bit pattern. */
  function BitsOf(m: nat, count: nat): bv64
  {
    if count == 0 then 0 else Joined(BitsOf(m / 256, count - 1), m % 256)
  }

  function Joined(high: bv64, low: Byte): bv64 { (high << 8) | (low as bv64) }

  function Bits(m: UInt64): bv64 { BitsOf(m, 8) }

  lemma {:induction false} NoHighBytes(count: nat)
    ensures BitsOf(0, count) == 0
  {
    if count > 0 {
      NoHighBytes(count - 1);
      assert Joined(0, 0) == 0;
    }
  }

  /** One byte more below the bits of the higher ones. */
  lemma BitsStep(high: nat, low: Byte, count: nat, bits: bv64)
    requires BitsOf(high, count) == bits
    ensures BitsOf(256 * high + low, count + 1) == Joined(bits, low)
  {
    hide Joined;
    assert (256 * high + low) / 256 == high && (256 * high + low) % 256 == low;
  }

  function Initialized(k0: bv64, k1: bv64): Vars
  {
    Vars(Xor(k0, 0x736f6d6570736575), Xor(k1, 0x646f72616e646f6d),
         Xor(k0, 0x6c7967656e657261), Xor(k1, 0x7465646279746573))
  }

  /** SipRound: four additions, four exclusive ors and six rotations, in the order of the paper. */
  function SipRound(s: Vars): Vars
  {
    var a0 := Plus(s.v0, s.v1);
    var a2 := Plus(s.v2, s.v3);
    var b1 := Xor(Rotated(s.v1, 13), a0);
    var b3 := Xor(Rotated(s.v3, 16), a2);
    var c0 := Rotated(a0, 32);
    var d2 := Plus(a2, b1);
    var d0 := Plus(c0, b3);
    var e1 := Xor(Rotated(b1, 17), d2);
    var e3 := Xor(Rotated(b3, 21), d0);
    Vars(d0, e1, Rotated(d2, 32), e3)
  }

  /** One round per message word. */
  function Compressed(s: Vars, m: UInt64): Vars
  {
    var r := SipRound(s.(v3 := Xor(s.v3, Bits(m))));
    r.(v0 := Xor(r.v0, Bits(m)))
  }

  /** Three rounds to finish. */
  function Finished(s: Vars): bv64
  {
    var r := SipRound(SipRound(SipRound(s.(v2 := Xor(s.v2, 0xff)))));
    Xor(Xor(Xor(r.v0, r.v1), r.v2), r.v3)
  }

  /** The state after the whole words of a message. */
  function Absorbed(s: Vars, message: seq<Byte>): Vars
    decreases |message|
  {
    if |message| < 8 then s
    else
      WordFits(message[..8]);
      Absorbed(Compressed(s, LittleEndian(message[..8])), message[8..])
  }

  /** What is left after the whole words: at most seven bytes. */
  function Tail(message: seq<Byte>): (tail: seq<Byte>)
    ensures |tail| == |message| % 8 < 8
  {
    message[|message| - |message| % 8..]
  }

  /** The last word: the tail, and the length modulo 256 in the top byte. */
  function LastWord(message: seq<Byte>): UInt64
  {
    TailFits(Tail(message));
    LittleEndian(Tail(message)) + |message| % 256 * 0x100_0000_0000_0000
  }

  lemma TailFits(tail: seq<Byte>)
    requires |tail| < 8
    ensures LittleEndian(tail) < 0x100_0000_0000_0000
  {
    LittleEndianBound(tail);
    Pow2Increasing(BYTE_BITS * |tail|, 56);
    MachineWords();
  }

  function SipHash13(k0: bv64, k1: bv64, message: seq<Byte>): bv64
  {
    Finished(Compressed(Absorbed(Initialized(k0, k1), message), LastWord(message)))
  }

  /** Words already complete are absorbed once and for all. */
  lemma {:induction false} AbsorbedAppend(s: Vars, a: seq<Byte>, b: seq<Byte>)
    requires |a| % 8 == 0
    ensures Absorbed(s, a + b) == Absorbed(Absorbed(s, a), b)
    decreases |a|
  {
    hide Compressed;
    if a == [] {
      assert a + b == b;
    } else {
      WordFits(a[..8]);
      assert (a + b)[..8] == a[..8] && (a + b)[8..] == a[8..] + b;
      AbsorbedAppend(Compressed(s, LittleEndian(a[..8])), a[8..], b);
    }
  }

  // ---------------------------------------------------------------- the mutable state

  /** _rotateLeft(_:by:): two shifts. */
  function RotateLeft(x: bv64, amount: bv64): bv64
    requires 0 < amount < 64
  {
    (x << amount) | (x >> (64 - amount))
  }

  lemma RotationsAgree(x: bv64)
    ensures RotateLeft(x, 13) == Rotated(x, 13)
    ensures RotateLeft(x, 16) == Rotated(x, 16)
    ensures RotateLeft(x, 17) == Rotated(x, 17)
    ensures RotateLeft(x, 21) == Rotated(x, 21)
    ensures RotateLeft(x, 32) == Rotated(x, 32)
  {
  }

  /** Hasher._State, without the four fields reserved for the future. */
  class State {
    var v0: bv64
    var v1: bv64
    var v2: bv64
    var v3: bv64

    function Value(): Vars
      reads this
    {
      Vars(v0, v1, v2, v3)
    }

    constructor (rawSeed: (bv64, bv64))
      ensures Value() == Initialized(rawSeed.0, rawSeed.1)
    {
      v0 := Xor(rawSeed.0, 0x736f6d6570736575);
      v1 := Xor(rawSeed.1, 0x646f72616e646f6d);
      v2 := Xor(rawSeed.0, 0x6c7967656e657261);
      v3 := Xor(rawSeed.1, 0x7465646279746573);
    }

    method Round()
      modifies this
      ensures Value() == SipRound(old(Value()))
    {
      hide Plus, Xor, Rotated, RotateLeft;
      v0 := Plus(v0, v1);
      RotationsAgree(v1);
      v1 := RotateLeft(v1, 13);
      v1 := Xor(v1, v0);
      RotationsAgree(v0);
      v0 := RotateLeft(v0, 32);
      v2 := Plus(v2, v3);
      RotationsAgree(v3);
      v3 := RotateLeft(v3, 16);
      v3 := Xor(v3, v2);
      v0 := Plus(v0, v3);
      RotationsAgree(v3);
      v3 := RotateLeft(v3, 21);
      v3 := Xor(v3, v0);
      v2 := Plus(v2, v1);
      RotationsAgree(v1);
      v1 := RotateLeft(v1, 17);
      v1 := Xor(v1, v2);
      RotationsAgree(v2);
      v2 := RotateLeft(v2, 32);
    }

    function Extract(): bv64
      reads this
    {
      Xor(Xor(Xor(v0, v1), v2), v3)
    }

    method Compress(m: UInt64)
      modifies this
      ensures Value() == Compressed(old(Value()), m)
    {
      hide Xor, Bits, SipRound;
      v3 := Xor(v3, Bits(m));
      Round();
      v0 := Xor(v0, Bits(m));
    }

    method Finalize(tailAndByteCount: UInt64) returns (hash: bv64)
      modifies this
      ensures hash == Finished(Compressed(old(Value()), tailAndByteCount))
    {
      hide Xor, SipRound, Compressed;
      Compress(tailAndByteCount);
      v2 := Xor(v2, 0xff);
      ghost var start := Value();
      for i := 0 to 3
        invariant Value() == Rounds(start, i)
      {
        Round();
      }
      assert Rounds(start, 1) == SipRound(start) && Rounds(start, 2) == SipRound(SipRound(start));
      hash := Extract();
    }
  }

  function Rounds(s: Vars, n: nat): Vars
  {
    if n == 0 then s else SipRound(Rounds(s, n - 1))
  }
}
