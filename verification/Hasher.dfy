/** Hasher's streaming front end: a 64-bit buffer that packs byte writes of any length into words. */
module Hasher {
  import opened Optionals
  import opened Powers
  import opened BitPatterns
  import opened SipHash
  import FixedWidth
  import opened Alignment

  const TWO_56: nat := 0x100_0000_0000_0000
  const TWO_64: nat := 0x1_0000_0000_0000_0000

  /** &<< on UInt64, for shifts below 64. */
  function ShiftLeft64(x: nat, shift: nat): nat
  {
    MulIncreasing(0, x, Pow2(shift));
    x * Pow2(shift) % TWO_64
  }

  /** &>> on UInt64, for shifts below 64. */
  function ShiftRight64(x: nat, shift: nat): nat
  {
    DivNonNegative(x, Pow2(shift));
    x / Pow2(shift)
  }

  // ---------------------------------------------------------------- what the packing relies on

  /** The fields of the buffer's word: the count above, the tail below. */
  lemma FieldsOfLastWord(message: seq<Byte>)
    ensures LastWord(message) == LittleEndian(Tail(message)) + |message| % 256 * TWO_56
    ensures LastWord(message) / TWO_56 == |message| % 256
    ensures LastWord(message) % TWO_56 == LittleEndian(Tail(message)) < Pow2(BYTE_BITS * |Tail(message)|)
    ensures LastWord(message) / TWO_56 % 8 == |Tail(message)|
  {
    hide LittleEndian, Tail, Pow2;
    LittleEndianBound(Tail(message));
    TailFits(Tail(message));
    DivModUnique(LastWord(message), TWO_56, |message| % 256, LittleEndian(Tail(message)));
  }

  /** A left shift drops the bits that leave the word. */
  lemma ShiftDrops(x: nat, s: nat)
    requires s <= 64
    ensures ShiftLeft64(x, s) == x % Pow2(64 - s) * Pow2(s)
  {
    MachineWords();
    Pow2Add(64 - s, s);
    var d, u := Pow2(64 - s), Pow2(s);
    DivModIdentity(x, d);
    MulAdd(x / d * d, x % d, u);
    MulAssociative(x / d, d, u);
    MulIncreasing(0, x % d, u);
    MulStrictlyIncreasing(x % d, d, u);
    DivModUnique(x * u, TWO_64, x / d, x % d * u);
  }

  /** Adding to the count field wraps at 256 and leaves the tail alone. */
  lemma CountWraps(count: nat, more: nat, tail: nat)
    requires tail < TWO_56
    ensures ((count % 256 + more) * TWO_56 + tail) % TWO_64 == (count + more) % 256 * TWO_56 + tail
  {
    var n := count % 256 + more;
    DivModUnique(n * TWO_56 + tail, TWO_64, n / 256, n % 256 * TWO_56 + tail);
    assert n % 256 == (count + more) % 256;
  }

  /** Writing moves whole words out of the tail. */
  lemma TailAfter(message: seq<Byte>, added: seq<Byte>)
    requires |added| <= 8
    ensures var both := Tail(message) + added;
            Tail(message + added) == if |both| < 8 then both else both[8..]
  {
    var both := Tail(message) + added;
    var cut := |message| - |message| % 8;
    assert message + added == message[..cut] + both;
    var rest := if |both| < 8 then both else both[8..];
    assert |rest| == |message + added| % 8;
  }

  /** The word handed on: the tail below, as many new bytes as fit above it. */
  lemma ChunkOf(tail: seq<Byte>, added: seq<Byte>)
    requires |tail| < 8 && |added| <= 8 <= |tail| + |added|
    ensures Or(LittleEndian(tail), ShiftLeft64(LittleEndian(added), BYTE_BITS * |tail|))
         == LittleEndian((tail + added)[..8])
  {
    hide LittleEndian, Or, Pow2, ShiftLeft64;
    var c := |tail|;
    ShiftDrops(LittleEndian(added), BYTE_BITS * c);
    LittleEndianSplit(added, 8 - c);
    LittleEndianBound(tail);
    OrDisjoint(LittleEndian(added[..8 - c]), BYTE_BITS * c, LittleEndian(tail));
    assert (tail + added)[..8] == tail + added[..8 - c];
    LittleEndianConcat(tail, added[..8 - c]);
  }

  /** The new bytes that do not fit become the tail. */
  lemma RestOf(tail: seq<Byte>, added: seq<Byte>)
    requires |tail| < 8 && |added| <= 8 <= |tail| + |added|
    ensures ShiftRight64(LittleEndian(added), 64 - BYTE_BITS * |tail|) == LittleEndian((tail + added)[8..]) < TWO_56
  {
    hide LittleEndian, Pow2;
    LittleEndianSplit(added, 8 - |tail|);
    assert (tail + added)[8..] == added[8 - |tail|..];
    TailFits(added[8 - |tail|..]);
  }

  /** New bytes that fit are laid above the tail and below the count. */
  lemma LaidInto(count: nat, tail: seq<Byte>, added: seq<Byte>)
    requires |tail| + |added| < 8
    ensures Or(count * TWO_56 + LittleEndian(tail), ShiftLeft64(LittleEndian(added), BYTE_BITS * |tail|))
         == count * TWO_56 + LittleEndian(tail + added)
    ensures LittleEndian(tail + added) < TWO_56
  {
    hide LittleEndian, Or, ShiftLeft64, Pow2;
    var s, room := BYTE_BITS * |tail|, 56 - BYTE_BITS * |tail|;
    var low, n := LittleEndian(tail), LittleEndian(added);
    ShiftDrops(n, s);
    LittleEndianBound(added);
    Pow2Increasing(BYTE_BITS * |added|, room);
    Pow2Increasing(room, 64 - s);
    ModSmall(n, Pow2(64 - s));
    MachineWords();
    Pow2Add(room, s);
    MulAssociative(count, Pow2(room), Pow2(s));
    LittleEndianBound(tail);
    MulIncreasing(0, count, Pow2(room));
    OrShifted(count * Pow2(room), n, s, low);
    OrDisjoint(count, room, n);
    MulAdd(count * Pow2(room), n, Pow2(s));
    LittleEndianConcat(tail, added);
    TailFits(tail + added);
  }

  // ---------------------------------------------------------------- the buffer

  /** Hasher._TailBuffer. Its word is always the last word of the message written so far. */
  class TailBuffer {
    var value: nat

    constructor ()
      ensures value == LastWord([])
    {
      value := 0;
    }

    constructor Of(tail: nat, byteCount: nat)
      requires byteCount < 256 && tail < TWO_56
      ensures value == tail + byteCount * TWO_56
    {
      MachineWords();
      OrDisjoint(byteCount, 56, tail);
      ModSmall(byteCount * TWO_56, TWO_64);
      value := Or(byteCount * TWO_56 % TWO_64, tail);
    }

    /** append(_:), eight bytes: always one whole word to hand on. */
    method Append(bytes: UInt64, ghost message: seq<Byte>, ghost added: seq<Byte>) returns (chunk: nat)
      requires value == LastWord(message) && |added| == 8 && bytes == LittleEndian(added)
      modifies this
      ensures value == LastWord(message + added)
      ensures chunk == LittleEndian((Tail(message) + added)[..8])
    {
      hide LittleEndian, Or, Tail, LastWord, ShiftLeft64, ShiftRight64, Pow2;
      FieldsOfLastWord(message);
      FieldsOfLastWord(message + added);
      TailAfter(message, added);
      ghost var tail := Tail(message);
      ghost var count := |message| % 256;
      var c := value / TWO_56 % 8;
      if c == 0 {
        CountWraps(|message|, 8, value % TWO_56);
        assert (tail + added)[..8] == added && (tail + added)[8..] == tail;
        value := (value + 8 * TWO_56) % TWO_64;
        return bytes;
      }
      var shift := 8 * c;
      ChunkOf(tail, added);
      RestOf(tail, added);
      CountWraps(|message|, 8, 0);
      MachineWords();
      OrDisjoint((|message| + 8) % 256, 56, LittleEndian((tail + added)[8..]));
      chunk := Or(value % TWO_56, ShiftLeft64(bytes, shift));
      value := Or((value / TWO_56 + 8) * TWO_56 % TWO_64, ShiftRight64(bytes, 64 - shift));
    }

    /** append(_:count:), up to seven bytes: a word to hand on when the buffer overflows. */
    method AppendPartial(bytes: UInt64, count: nat, ghost message: seq<Byte>, ghost added: seq<Byte>)
      returns (chunk: Option<nat>)
      requires value == LastWord(message) && |added| == count < 8 && bytes == LittleEndian(added)
      modifies this
      ensures value == LastWord(message + added)
      ensures chunk == if |Tail(message)| + count < 8 then None else Some(LittleEndian((Tail(message) + added)[..8]))
    {
      hide LittleEndian, Or, Tail, LastWord, ShiftLeft64, ShiftRight64, Pow2;
      FieldsOfLastWord(message);
      FieldsOfLastWord(message + added);
      TailAfter(message, added);
      ghost var tail := Tail(message);
      var c := value / TWO_56 % 8;
      var shift := 8 * c;
      if c + count < 8 {
        LaidInto(|message| % 256, tail, added);
        CountWraps(|message|, count, LittleEndian(tail + added));
        value := (Or(value, ShiftLeft64(bytes, shift)) + count * TWO_56) % TWO_64;
        return None;
      }
      ChunkOf(tail, added);
      RestOf(tail, added);
      CountWraps(|message|, count, 0);
      MachineWords();
      OrDisjoint((|message| + count) % 256, 56, LittleEndian((tail + added)[8..]));
      chunk := Some(Or(value % TWO_56, ShiftLeft64(bytes, shift)));
      value := (value / TWO_56 + count) * TWO_56 % TWO_64;
      if c + count > 8 {
        value := Or(value, ShiftRight64(bytes, 64 - shift));
      } else {
        LittleEndianOfNothing((tail + added)[8..]);
      }
    }
  }

  lemma LittleEndianOfNothing(bytes: seq<Byte>)
    requires bytes == []
    ensures LittleEndian(bytes) == 0
  {
  }

  // ---------------------------------------------------------------- loading bytes

  /** What the switch has put together when it reaches byte k from above. */
  function Above(bytes: seq<Byte>, k: nat): nat
  {
    if |bytes| <= k then 0
    else
      MulIncreasing(0, LittleEndian(bytes[k..]), Pow2(BYTE_BITS * k));
      LittleEndian(bytes[k..]) * Pow2(BYTE_BITS * k)
  }

  /** UInt64(byte) &<< 8k, for k below 8. */
  function Placed(byte: Byte, k: nat): nat
  {
    MulIncreasing(0, byte, Pow2(BYTE_BITS * k));
    byte * Pow2(BYTE_BITS * k)
  }

  /** One more byte below those already there. */
  lemma Loaded(bytes: seq<Byte>, k: nat)
    ensures Above(bytes, k) == if k < |bytes| then Or(Above(bytes, k + 1), Placed(bytes[k], k)) else 0
  {
    if k < |bytes| {
      var high, s := LittleEndian(bytes[k + 1..]), Pow2(BYTE_BITS * k);
      Pow2Byte(k);
      assert bytes[k..][1..] == bytes[k + 1..];
      assert LittleEndian(bytes[k..]) == bytes[k] + 256 * high;
      hide Pow2, Or, LittleEndian;
      MulAssociative(high, 256, s);
      MachineWords();
      OrDisjoint(high, 8, bytes[k]);
      OrShifted(high * 256, bytes[k], BYTE_BITS * k, 0);
    }
  }

  /** _loadPartialUnalignedUInt64LE(_:byteCount:), a switch that falls through from the highest byte. */
  method LoadPartial(data: seq<Byte>, byteCount: nat) returns (result: nat)
    requires byteCount <= |data| && byteCount <= 7
    ensures result == LittleEndian(data[..byteCount])
  {
    hide Or, Above, Placed, LittleEndian;
    ghost var used := data[..byteCount];
    result := 0;
    NothingAbove(used, 7);
    if byteCount >= 7 {
      result := Or(result, Placed(data[6], 6));
    }
    Loaded(used, 6);
    assert result == Above(used, 6);
    if byteCount >= 6 {
      result := Or(result, Placed(data[5], 5));
    }
    Loaded(used, 5);
    assert result == Above(used, 5);
    if byteCount >= 5 {
      result := Or(result, Placed(data[4], 4));
    }
    Loaded(used, 4);
    assert result == Above(used, 4);
    if byteCount >= 4 {
      result := Or(result, Placed(data[3], 3));
    }
    Loaded(used, 3);
    assert result == Above(used, 3);
    if byteCount >= 3 {
      result := Or(result, Placed(data[2], 2));
    }
    Loaded(used, 2);
    assert result == Above(used, 2);
    if byteCount >= 2 {
      result := Or(result, Placed(data[1], 1));
    }
    Loaded(used, 1);
    assert result == Above(used, 1);
    if byteCount >= 1 {
      result := Or(result, Placed(data[0], 0));
    }
    Loaded(used, 0);
    assert result == Above(used, 0);
    AllAbove(used);
  }

  lemma NothingAbove(bytes: seq<Byte>, k: nat)
    requires |bytes| <= k
    ensures Above(bytes, k) == 0
  {
  }

  lemma AllAbove(bytes: seq<Byte>)
    ensures Above(bytes, 0) == LittleEndian(bytes)
  {
    assert bytes[0..] == bytes;
  }

  // ---------------------------------------------------------------- the core

  /** Either the new bytes still fit in the tail, or one more word is compressed. */
  lemma AbsorbAdded(s: Vars, message: seq<Byte>, added: seq<Byte>)
    requires |added| <= 8
    ensures var both := Tail(message) + added;
            Absorbed(s, message + added) ==
            if |both| < 8 then Absorbed(s, message)
            else (WordFits(both[..8]); Compressed(Absorbed(s, message), LittleEndian(both[..8])))
  {
    hide Compressed, LittleEndian;
    var whole := message[..|message| - |message| % 8];
    var both := Tail(message) + added;
    assert message == whole + Tail(message) && message + added == whole + both;
    AbsorbedAppend(s, whole, Tail(message));
    AbsorbedAppend(s, whole, both);
    if |both| >= 8 {
      WordFits(both[..8]);
    }
  }

  lemma GapToAligned(start: nat, alignment: nat)
    requires start < 0x1_0000 && alignment in {1, 2, 4, 8}
    ensures var gap := Gap(start, RoundUp(start, alignment), 0x1_0000);
            gap < alignment && (start + gap) % alignment == 0
  {
    assert Pow2(0) == 1 && Pow2(1) == 2 && Pow2(2) == 4 && Pow2(3) == 8;
    hide Pow2, RoundUp, Gap;
    if alignment == 1 {
      RoundUpIsNextAligned(start, 0);
    } else if alignment == 2 {
      RoundUpIsNextAligned(start, 1);
    } else if alignment == 4 {
      RoundUpIsNextAligned(start, 2);
    } else {
      RoundUpIsNextAligned(start, 3);
    }
  }

  /** How many of the remaining bytes lie before the first aligned address. */
  function UnalignedCount(start: nat, alignment: nat, remaining: nat): (c: nat)
    requires start < 0x1_0000 && alignment in {1, 2, 4, 8}
    ensures c <= remaining && c < 8
    ensures c < remaining ==> (start + c) % alignment == 0
  {
    hide RoundUp, Gap;
    GapToAligned(start, alignment);
    var gap := Gap(start, RoundUp(start, alignment), 0x1_0000);
    if remaining < gap then remaining else gap
  }

  /** `data` is still to be read from `bytes`, and everything before it has been written. */
  ghost predicate Read(before: seq<Byte>, bytes: seq<Byte>, data: seq<Byte>, message: seq<Byte>)
  {
    && |data| <= |bytes|
    && data == bytes[|bytes| - |data|..]
    && message == before + bytes[..|bytes| - |data|]
  }

  lemma Advance(before: seq<Byte>, bytes: seq<Byte>, data: seq<Byte>, n: nat)
    requires n <= |data| <= |bytes| && data == bytes[|bytes| - |data|..]
    ensures Read(before, bytes, data[n..], before + bytes[..|bytes| - |data|] + data[..n])
    ensures Read(before, bytes, [], before + bytes)
  {
    assert bytes[..|bytes| - |data|] + data[..n] == bytes[..|bytes| - |data[n..]|];
    assert bytes[|bytes|..] == [] && bytes[..|bytes|] == bytes;
  }

  /** Hasher._Core, with the bytes combined so far as ghost state. */
  class Core {
    const buffer: TailBuffer
    const state: State
    ghost const key: (bv64, bv64)
    ghost var message: seq<Byte>

    ghost predicate Valid()
      reads this, buffer, state
    {
      buffer.value == LastWord(message) && state.Value() == Absorbed(Initialized(key.0, key.1), message)
    }

    constructor (rawSeed: (bv64, bv64))
      ensures Valid() && message == [] && key == rawSeed
      ensures fresh(buffer) && fresh(state)
    {
      hide Initialized, Compressed, LastWord, LittleEndian;
      buffer := new TailBuffer();
      state := new State(rawSeed);
      key := rawSeed;
      message := [];
    }

    /** combine(_: UInt64) */
    method Combine64(value: UInt64)
      requires Valid()
      modifies this`message, buffer, state
      ensures Valid() && message == old(message) + BytesOf(value, 8)
    {
      hide LittleEndian, LastWord, Compressed, Absorbed;
      ghost var added := BytesOf(value, 8);
      MachineWords();
      LittleEndianOfBytes(value, 8);
      AbsorbAdded(Initialized(key.0, key.1), message, added);
      WordFits((Tail(message) + added)[..8]);
      var chunk := buffer.Append(value, message, added);
      state.Compress(chunk);
      message := message + added;
    }

    /** combine(bytes:count:), which the fixed-size forms below go through. */
    method CombinePartial(bytes: UInt64, count: nat)
      requires Valid() && count < 8 && bytes < Pow2(BYTE_BITS * count)
      modifies this`message, buffer, state
      ensures Valid() && message == old(message) + BytesOf(bytes, count)
    {
      hide LittleEndian, LastWord, Compressed, Absorbed;
      ghost var added := BytesOf(bytes, count);
      LittleEndianOfBytes(bytes, count);
      AbsorbAdded(Initialized(key.0, key.1), message, added);
      var chunk := buffer.AppendPartial(bytes, count, message, added);
      if chunk.Some? {
        WordFits((Tail(message) + added)[..8]);
        state.Compress(chunk.value);
      }
      message := message + added;
    }

    /** combine(_: UInt32) */
    method Combine32(value: nat)
      requires Valid() && value < 0x1_0000_0000
      modifies this`message, buffer, state
      ensures Valid() && message == old(message) + BytesOf(value, 4)
    {
      hide LittleEndian, LastWord, Compressed, Absorbed, BytesOf;
      MachineWords();
      CombinePartial(value, 4);
    }

    /** combine(_: UInt16) */
    method Combine16(value: nat)
      requires Valid() && value < 0x1_0000
      modifies this`message, buffer, state
      ensures Valid() && message == old(message) + BytesOf(value, 2)
    {
      hide LittleEndian, LastWord, Compressed, Absorbed, BytesOf;
      MachineWords();
      CombinePartial(value, 2);
    }

    /** combine(_: UInt8) */
    method Combine8(value: nat)
      requires Valid() && value < 0x100
      modifies this`message, buffer, state
      ensures Valid() && message == old(message) + BytesOf(value, 1)
    {
      hide LittleEndian, LastWord, Compressed, Absorbed, BytesOf;
      MachineWords();
      CombinePartial(value, 1);
    }

    /** combine(_: UInt), which widens to eight bytes on this target. */
    method CombineWord(value: nat)
      requires Valid() && value < 0x1_0000
      modifies this`message, buffer, state
      ensures Valid() && message == old(message) + BytesOf(value, 8)
    {
      Combine64(value);
    }

    /** combine(bytes:) for a buffer at address `start`: up to the first aligned address, then whole words,
        then what is left. */
    method CombineBuffer(bytes: seq<Byte>, start: nat, alignment: nat)
      requires Valid() && start < 0x1_0000 && alignment in {1, 2, 4, 8}
      modifies this`message, buffer, state
      ensures Valid() && message == old(message) + bytes
    {
      hide Valid, LittleEndian, Pow2, UnalignedCount, BytesOf;
      var remaining := |bytes|;
      if !(remaining > 0) {
        return;
      }
      ghost var before := message;
      var data := bytes;
      var c := UnalignedCount(start, alignment, remaining);
      if c > 0 {
        var chunk := LoadPartial(data, c);
        BytesOfLoaded(data[..c]);
        CombinePartial(chunk, c);
        Advance(before, bytes, data, c);
        data := data[c..];
        remaining := remaining - c;
      }
      while remaining >= 8
        invariant Valid() && remaining == |data|
        invariant Read(before, bytes, data, message)
      {
        BytesOfLoaded(data[..8]);
        Combine64(LittleEndian(data[..8]));
        Advance(before, bytes, data, 8);
        data := data[8..];
        remaining := remaining - 8;
      }
      if remaining > 0 {
        var chunk := LoadPartial(data, remaining);
        BytesOfLoaded(data[..remaining]);
        CombinePartial(chunk, remaining);
        Advance(before, bytes, data, remaining);
      }
    }

    /** finalize() */
    method Finalize() returns (hash: bv64)
      requires Valid()
      modifies state
      ensures hash == SipHash13(key.0, key.1, message)
    {
      hash := state.Finalize(buffer.value);
    }
  }

  /** Loading bytes and writing them out again changes nothing. */
  lemma {:induction false} BytesOfLoaded(bytes: seq<Byte>)
    requires |bytes| <= 8
    ensures BytesOf(LittleEndian(bytes), |bytes|) == bytes
    ensures LittleEndian(bytes) < Pow2(BYTE_BITS * |bytes|) && LittleEndian(bytes) < TWO_64
  {
    LittleEndianBound(bytes);
    WordFits(bytes);
    hide Pow2;
    if bytes != [] {
      BytesOfLoaded(bytes[1..]);
      var x, rest := LittleEndian(bytes), LittleEndian(bytes[1..]);
      assert x == bytes[0] + 256 * rest;
      assert x % 256 == bytes[0] && x / 256 == rest;
    }
  }

  // ---------------------------------------------------------------- one-shot hashing

  /** _State(seed:): the Int seed, read as unsigned, goes into the first half of the process-wide seed. */
  function SeededKey(executionSeed: (bv64, bv64), seed: int): (bv64, bv64)
  {
    (SipHash.Xor(executionSeed.0, Bits(seed % 0x1_0000)), executionSeed.1)
  }

  /** The seed only enters the first half, by exclusive or, and is not sign-extended. */
  lemma SeedEntersFirstHalf(executionSeed: (bv64, bv64), seed: int)
    ensures SeededKey(executionSeed, seed).1 == executionSeed.1
    ensures SipHash.Xor(SeededKey(executionSeed, seed).0, executionSeed.0) == Bits(seed % 0x1_0000)
    ensures SeededKey((0, 0), -1) == (0xFFFF, 0)
  {
    hide Bits;
    var x, y := executionSeed.0, Bits(seed % 0x1_0000);
    XorCancels(x, y);
    assert Bits(0xFFFF) == 0xFFFF by {
      LowWord();
    }
    assert -1 % 0x1_0000 == 0xFFFF;
    XorCancels(0, 0xFFFF);
  }

  lemma XorCancels(x: bv64, y: bv64)
    ensures SipHash.Xor(SipHash.Xor(x, y), x) == y
    ensures SipHash.Xor(0, y) == y
  {
  }

  lemma LowWord()
    ensures Bits(0xFFFF) == 0xFFFF
  {
    hide BitsOf;
    NoHighBytes(6);
    BitsStep(0, 255, 6, 0);
    assert SipHash.Joined(0, 255) == 255 && SipHash.Joined(255, 255) == 0xFFFF;
    BitsStep(255, 255, 7, 255);
  }

  /** The low bits of a hash, as an Int. */
  function Truncated(hash: bv64): int { FixedWidth.INT.Wrap(hash as int) }

  lemma TruncatedKeepsLowBits(hash: bv64)
    ensures -0x8000 <= Truncated(hash) < 0x8000 && Truncated(hash) % 0x1_0000 == (hash as int) % 0x1_0000
  {
    MachineWords();
  }

  /** What every way of hashing these bytes with this seed is to return. */
  function HashOf(executionSeed: (bv64, bv64), seed: int, bytes: seq<Byte>): int
  {
    var key := SeededKey(executionSeed, seed);
    Truncated(SipHash13(key.0, key.1, bytes))
  }

  /** finalize() of a Hasher made with a seed, after any combining calls. */
  method FinalizeSeeded(core: Core, ghost executionSeed: (bv64, bv64), ghost seed: int) returns (hash: int)
    requires core.Valid() && core.key == SeededKey(executionSeed, seed)
    modifies core.state
    ensures hash == HashOf(executionSeed, seed, core.message)
  {
    hide SeededKey, Truncated, SipHash13;
    var h := core.Finalize();
    hash := Truncated(h);
  }

  /** _hash(seed:_:) for a UInt64, and for a UInt after widening: no buffer, the same hash as streaming. */
  method HashWord(executionSeed: (bv64, bv64), seed: int, value: UInt64) returns (hash: int)
    ensures hash == HashOf(executionSeed, seed, BytesOf(value, 8))
  {
    hide LittleEndian, LastWord, Compressed, Finished, Initialized, BytesOf, SipHash13, SeededKey, Truncated;
    var key := SeededKey(executionSeed, seed);
    MachineWords();
    LittleEndianOfBytes(value, 8);
    ShortMessage(key.0, key.1, BytesOf(value, 8));
    var state := new State(key);
    state.Compress(value);
    var tbc := new TailBuffer.Of(0, 8);
    var h := state.Finalize(tbc.value);
    hash := Truncated(h);
  }

  /** _hash(seed:bytes:count:), up to seven bytes. */
  method HashPartial(executionSeed: (bv64, bv64), seed: int, value: UInt64, count: nat) returns (hash: int)
    requires count < 8 && value < Pow2(BYTE_BITS * count)
    ensures hash == HashOf(executionSeed, seed, BytesOf(value, count))
  {
    hide LittleEndian, LastWord, Compressed, Finished, Initialized, BytesOf, SipHash13, SeededKey, Truncated;
    var key := SeededKey(executionSeed, seed);
    ShortMessage(key.0, key.1, BytesOf(value, count));
    var state := new State(key);
    LittleEndianOfBytes(value, count);
    TailFits(BytesOf(value, count));
    var tbc := new TailBuffer.Of(value, count);
    var h := state.Finalize(tbc.value);
    hash := Truncated(h);
  }

  /** _hash(seed:bytes:) for a buffer. */
  method HashBuffer(executionSeed: (bv64, bv64), seed: int, bytes: seq<Byte>, start: nat, alignment: nat)
    returns (hash: int)
    requires start < 0x1_0000 && alignment in {1, 2, 4, 8}
    ensures hash == HashOf(executionSeed, seed, bytes)
  {
    hide SeededKey, Truncated, SipHash13;
    var core := new Core(SeededKey(executionSeed, seed));
    core.CombineBuffer(bytes, start, alignment);
    assert core.message == bytes;
    hash := FinalizeSeeded(core, executionSeed, seed);
  }

  /** A message of at most one word needs no buffer. */
  lemma ShortMessage(k0: bv64, k1: bv64, bytes: seq<Byte>)
    requires |bytes| <= 8
    ensures LastWord(bytes) == (if |bytes| == 8 then 0 else LittleEndian(bytes)) + |bytes| * TWO_56
    ensures LittleEndian(bytes) < TWO_64
    ensures SipHash13(k0, k1, bytes) ==
            var start := Initialized(k0, k1);
            var words := if |bytes| == 8 then Compressed(start, LittleEndian(bytes)) else start;
            Finished(Compressed(words, LastWord(bytes)))
  {
    hide LittleEndian, Compressed, Finished, Initialized, LastWord;
    LastWordOf(bytes);
    WordFits(bytes);
    if |bytes| == 8 {
      assert bytes[..8] == bytes && bytes[8..] == [];
      var word := Compressed(Initialized(k0, k1), LittleEndian(bytes));
      assert Absorbed(word, []) == word;
    }
  }

  lemma ShortTail(bytes: seq<Byte>)
    requires |bytes| <= 8
    ensures Tail(bytes) == if |bytes| == 8 then [] else bytes
  {
    ModSmall(if |bytes| == 8 then 0 else |bytes|, 8);
  }

  lemma LastWordOf(bytes: seq<Byte>)
    requires |bytes| <= 8
    ensures LastWord(bytes) == (if |bytes| == 8 then 0 else LittleEndian(bytes)) + |bytes| * TWO_56
  {
    hide LittleEndian, LastWord, Tail;
    FieldsOfLastWord(bytes);
    ShortTail(bytes);
    LittleEndianOfNothing([]);
  }
}
