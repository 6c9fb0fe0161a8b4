/** A bitmap of machine words that stores a set of small non-negative Ints. */
module Bitset {
  import opened Optionals
  import opened Powers
  import opened BitPatterns
  import opened BitCounts
  import opened FixedWidth

  /** The value of a Word: a UInt. */
  type UInt = n: nat | n < 0x1_0000

  const UINT := IntType(WORD_BITS, false)

  /** nonzeroBitCount */
  function NonzeroBitCount(n: nat): nat
  {
    if n == 0 then 0 else n % 2 + NonzeroBitCount(n / 2)
  }

  // ---------------------------------------------------------------- one word

  /** The elements of a word. */
  function Elements(value: nat): set<nat>
  {
    set bit: nat | bit < WORD_BITS && Bit(value, bit)
  }

  lemma WordBound(n: nat)
    ensures n < Pow2(WORD_BITS) <==> n < 0x1_0000
  {
    MachineWords();
  }

  lemma MaskBound(bit: nat)
    requires bit < WORD_BITS
    ensures Pow2(bit) < 0x1_0000
  {
    Pow2StrictlyIncreasing(bit, WORD_BITS);
    MachineWords();
  }

  predicate WordContains(value: UInt, bit: nat)
    requires bit < WORD_BITS
    ensures WordContains(value, bit) <==> bit in Elements(value)
  {
    AndPow2(value, bit);
    And(value, Pow2(bit)) != 0
  }

  method WordInsert(value: UInt, bit: nat) returns (inserted: bool, r: UInt)
    requires bit < WORD_BITS
    ensures inserted <==> bit !in Elements(value)
    ensures Elements(r) == Elements(value) + {bit}
  {
    hide Bit, And, Or, Pow2;
    MaskBound(bit);
    var mask: UInt := Pow2(bit);
    AndPow2(value, bit);
    WordBound(value);
    WordBound(mask);
    OrBelow(WORD_BITS, value, mask);
    WordBound(Or(value, mask));
    inserted := And(value, mask) == 0;
    r := Or(value, mask);
    forall k: nat ensures Bit(r, k) <==> Bit(value, k) || k == bit {
      BitOfOr(value, mask, k);
      BitOfPow2(bit, k);
    }
  }

  method WordRemove(value: UInt, bit: nat) returns (removed: bool, r: UInt)
    requires bit < WORD_BITS
    ensures removed <==> bit in Elements(value)
    ensures Elements(r) == Elements(value) - {bit}
  {
    hide Bit, And, Or, Pow2;
    MaskBound(bit);
    var mask: UInt := Pow2(bit);
    AndPow2(value, bit);
    removed := And(value, mask) != 0;
    var complement: UInt := 0xFFFF - mask;
    AndBelow(value, complement);
    r := And(value, complement);
    MachineWords();
    forall k: nat | k < WORD_BITS ensures Bit(r, k) <==> Bit(value, k) && k != bit {
      BitOfAnd(value, complement, k);
      BitOfComplement(WORD_BITS, mask, k);
      BitOfPow2(bit, k);
    }
  }

  /** complement */
  function Complement(value: UInt): (r: UInt)
    ensures forall bit: nat | bit < WORD_BITS :: bit in Elements(r) <==> bit !in Elements(value)
  {
    MachineWords();
    assert forall k: nat | k < WORD_BITS :: Bit(0xFFFF - value, k) <==> !Bit(value, k) by {
      forall k: nat | k < WORD_BITS ensures Bit(0xFFFF - value, k) <==> !Bit(value, k) {
        BitOfComplement(WORD_BITS, value, k);
      }
    }
    0xFFFF - value
  }

  /** UInt.max &<< bit */
  function HighMask(bit: nat): UInt { 0xFFFF * Pow2(bit) % 0x1_0000 }

  lemma BitOfHighMask(bit: nat, k: nat)
    requires bit < WORD_BITS && k < WORD_BITS
    ensures Bit(HighMask(bit), k) <==> bit <= k
  {
    MachineWords();
    MaskBound(bit);
    MulSub(0x1_0000, 1, Pow2(bit));
    ModEqual(0xFFFF * Pow2(bit), 0x1_0000 - Pow2(bit), 0x1_0000, Pow2(bit) - 1);
    ModSmall(0x1_0000 - Pow2(bit), 0x1_0000);
    BitOfComplement(WORD_BITS, Pow2(bit) - 1, k);
    BitOfLowMask(bit, k);
  }

  /** subtracting(elementsBelow:) */
  method SubtractingBelow(value: UInt, bit: nat) returns (r: UInt)
    requires bit < WORD_BITS
    ensures Elements(r) == set k | k in Elements(value) && bit <= k
  {
    AndBelow(value, HighMask(bit));
    r := And(value, HighMask(bit));
    forall k: nat | k < WORD_BITS ensures Bit(r, k) <==> Bit(value, k) && bit <= k {
      BitOfAnd(value, HighMask(bit), k);
      BitOfHighMask(bit, k);
    }
  }

  /** intersecting(elementsBelow:) */
  method IntersectingBelow(value: UInt, bit: nat) returns (r: UInt)
    requires bit < WORD_BITS
    ensures Elements(r) == set k | k in Elements(value) && k < bit
  {
    AndBelow(value, Pow2(bit) - 1);
    r := And(value, Pow2(bit) - 1);
    forall k: nat ensures Bit(r, k) <==> Bit(value, k) && k < bit {
      BitOfAnd(value, Pow2(bit) - 1, k);
      BitOfLowMask(bit, k);
    }
  }

  /** intersecting(elementsAbove:) shifts the mask twice, so that bit itself may be the last one. */
  method IntersectingAbove(value: UInt, bit: nat) returns (r: UInt)
    requires bit < WORD_BITS
    ensures Elements(r) == set k | k in Elements(value) && bit < k
  {
    var mask: UInt := HighMask(bit) * 2 % 0x1_0000;
    AndBelow(value, mask);
    r := And(value, mask);
    forall k: nat | k < WORD_BITS ensures Bit(r, k) <==> Bit(value, k) && bit < k {
      BitOfAnd(value, mask, k);
      BitOfDouble(HighMask(bit), k);
      BitOfHighMask(bit, if k == 0 then 0 else k - 1);
    }
  }

  lemma BitOfDouble(n: UInt, k: nat)
    requires k < WORD_BITS
    ensures Bit(n * 2 % 0x1_0000, k) <==> k > 0 && Bit(n, k - 1)
  {
    if k > 0 {
      assert n * 2 % 0x1_0000 / 2 == n % 0x8000;
      MachineWords();
      hide Pow2;
      BitOfRemainder(WORD_BITS - 1, n, k - 1);
    }
  }

  lemma {:induction false} BitOfRemainder(width: nat, n: nat, k: nat)
    requires k < width
    ensures Bit(n % Pow2(width), k) <==> Bit(n, k)
  {
    var half := Pow2(width - 1);
    DivModProduct(n, 2, half);
    var low := n / 2 % half;
    assert n % Pow2(width) == 2 * low + n % 2 by {
      assert half * 2 == Pow2(width);
    }
    if k > 0 {
      BitOfRemainder(width - 1, n / 2, k - 1);
    }
  }

  lemma {:induction false} TrailingZerosIsLowest(value: nat, k: nat)
    requires value > 0
    ensures Bit(value, TrailingZeros(value))
    ensures k < TrailingZeros(value) ==> !Bit(value, k)
  {
    if value % 2 == 0 {
      TrailingZerosIsLowest(value / 2, if k == 0 then 0 else k - 1);
    }
  }

  /** value & (value - 1) clears exactly the lowest set bit. */
  lemma {:induction false} ClearLowest(value: nat, k: nat)
    requires value > 0
    ensures Bit(And(value, value - 1), k) <==> Bit(value, k) && k != TrailingZeros(value)
  {
    BitOfAnd(value, value - 1, k);
    if value % 2 == 1 {
      if k > 0 {
        assert (value - 1) / 2 == value / 2;
      }
    } else {
      assert (value - 1) / 2 == value / 2 - 1;
      if k > 0 {
        ClearLowest(value / 2, k - 1);
        BitOfAnd(value / 2, value / 2 - 1, k - 1);
      }
    }
  }

  lemma {:induction false} ZeroIsEmpty(width: nat, value: nat)
    requires value < Pow2(width)
    requires forall k: nat | k < width :: !Bit(value, k)
    ensures value == 0
  {
    if width > 0 {
      assert !Bit(value, 0);
      forall k: nat | k < width - 1 ensures !Bit(value / 2, k) {
        assert !Bit(value, k + 1);
      }
      ZeroIsEmpty(width - 1, value / 2);
    }
  }

  lemma EmptyWord(value: UInt)
    ensures Elements(value) == {} <==> value == 0
  {
    if value == 0 {
      forall k: nat ensures !Bit(0, k) {
        BitOfZero(k);
      }
    } else if Elements(value) == {} {
      forall k: nat | k < WORD_BITS ensures !Bit(value, k) {
        assert k !in Elements(value);
      }
      MachineWords();
      ZeroIsEmpty(WORD_BITS, value);
      assert false;
    }
  }

  lemma TrailingZerosInWord(value: UInt)
    requires value > 0
    ensures TrailingZeros(value) < WORD_BITS
  {
    MachineWords();
    TrailingZerosIsLowest(value, 0);
    if TrailingZeros(value) >= WORD_BITS {
      BitBeyond(WORD_BITS, value, TrailingZeros(value));
    }
  }

  /** Word.next(): the lowest element, which leaves the word. */
  method WordNext(value: UInt) returns (bit: Option<nat>, r: UInt)
    ensures bit == None <==> Elements(value) == {}
    ensures bit == None ==> r == value == 0
    ensures bit.Some? ==> bit.value in Elements(value) && forall k <- Elements(value) :: bit.value <= k
    ensures bit.Some? ==> Elements(r) == Elements(value) - {bit.value}
  {
    hide Bit, And, TrailingZeros;
    EmptyWord(value);
    if value == 0 {
      return None, value;
    }
    var lowest: nat := TrailingZeros(value);
    TrailingZerosInWord(value);
    AndBelow(value, value - 1);
    forall k: nat
      ensures Bit(value, lowest)
      ensures k < lowest ==> !Bit(value, k)
      ensures Bit(And(value, value - 1), k) <==> Bit(value, k) && k != lowest
    {
      TrailingZerosIsLowest(value, k);
      ClearLowest(value, k);
    }
    assert lowest in Elements(value);
    return Some(lowest), And(value, value - 1);
  }

  // ---------------------------------------------------------------- places

  /** word(for:): the division is on the bit pattern, so a wrapped argument is read as unsigned. */
  function WordFor(element: int): nat { UINT.Wrap(element) / WORD_BITS }

  function BitFor(element: int): nat { UINT.Wrap(element) % WORD_BITS }

  function Join(word: nat, bit: nat): int { INT.Wrap(INT.Wrap(word * WORD_BITS) + bit) }

  /** wordCount(forCapacity:) */
  function WordCount(capacity: int): nat { WordFor(INT.Wrap(INT.Wrap(capacity + WORD_BITS) - 1)) }

  /** capacity */
  function Capacity(wordCount: nat): int { INT.Wrap(wordCount * WORD_BITS) }

  predicate IsValid(element: int, wordCount: nat) { 0 <= element <= Capacity(wordCount) }

  /** Wrapping, piece by piece, where one turn is enough. */
  lemma Wraps(x: int)
    ensures 0 <= x < 0x8000 ==> INT.Wrap(x) == x
    ensures 0x8000 <= x < 0x1_0000 ==> INT.Wrap(x) == x - 0x1_0000
    ensures 0 <= x < 0x1_0000 ==> UINT.Wrap(x) == x
    ensures -0x8000 <= x < 0 ==> INT.Wrap(x) == x && UINT.Wrap(x) == x + 0x1_0000
  {
    MachineWords();
    if 0 <= x < 0x1_0000 {
      ModSmall(x, 0x1_0000);
    } else if -0x8000 <= x < 0 {
      DivModUnique(x, 0x1_0000, -1, x + 0x1_0000);
    }
  }

  /** split and join are inverse to each other between the Ints and the places of 2^11 words. */
  lemma SplitJoin(element: int, word: nat, bit: nat)
    requires 0 <= element < 0x8000 && word < 0x800 && bit < WORD_BITS
    ensures Join(WordFor(element), BitFor(element)) == element
    ensures WordFor(Join(word, bit)) == word && BitFor(Join(word, bit)) == bit
    ensures Join(word, bit) == word * WORD_BITS + bit
    ensures WordFor(element) < 0x800
  {
    Wraps(element);
    JoinIsExact(WordFor(element), BitFor(element));
    JoinIsExact(word, bit);
    Wraps(word * WORD_BITS + bit);
  }

  lemma JoinIsExact(word: nat, bit: nat)
    requires word < 0x800 && bit < WORD_BITS
    ensures Join(word, bit) == word * WORD_BITS + bit
  {
    Wraps(word * WORD_BITS);
    Wraps(word * WORD_BITS + bit);
  }

  lemma JoinWraps(word: nat, bit: nat)
    ensures Join(word, bit) == INT.Wrap(word * WORD_BITS + bit)
  {
    WrapAdd(word * WORD_BITS, bit);
  }

  lemma WordCountRoundsUp(capacity: int)
    requires 0 <= capacity < 0x8000
    ensures WordCount(capacity) == (capacity + 15) / 16
  {
    var x := INT.Wrap(capacity + WORD_BITS);
    var y := INT.Wrap(x - 1);
    hide Pow2, IntType.Wrap;
    Wraps(capacity + WORD_BITS);
    Wraps(x - 1);
    Wraps(y);
    assert y == capacity + 15 || y == capacity + 15 - 0x1_0000;
  }

  /** wordCount(forCapacity:) is the least number of words that has a place for every element below the
      capacity, even when adding to the capacity wraps around. */
  lemma WordCountIsLeast(capacity: int, n: nat)
    requires 0 <= capacity < 0x8000
    ensures WordCount(capacity) <= n <==> forall e: int | 0 <= e < capacity :: WordFor(e) < n
    ensures WordCount(capacity) <= 0x800
  {
    hide Pow2, IntType.Wrap, WordCount;
    WordCountRoundsUp(capacity);
    forall e: int | 0 <= e < capacity ensures WordFor(e) == e / 16 {
      Wraps(e);
    }
    if capacity > 0 {
      assert WordFor(capacity - 1) == (capacity - 1) / 16;
    }
  }

  /** The capacity repeats every 2^12 words, and is negative in the second half of each period. */
  lemma CapacityOf(wordCount: nat)
    ensures var c := wordCount % 0x1000;
            Capacity(wordCount) == if c < 0x800 then c * WORD_BITS else c * WORD_BITS - 0x1_0000
  {
    var c := wordCount % 0x1000;
    assert wordCount * WORD_BITS == c * WORD_BITS + wordCount / 0x1000 * 0x1_0000;
    MachineWords();
    hide Pow2, IntType.Wrap;
    ModEqual(wordCount * WORD_BITS, c * WORD_BITS, 0x1_0000, wordCount / 0x1000);
    Wraps(c * WORD_BITS);
    WrapUnique(INT, INT.Wrap(c * WORD_BITS), wordCount * WORD_BITS);
  }

  /** No negative element is valid, and every other exactly up to the capacity. */
  lemma NegativeIsInvalid(element: int, wordCount: nat)
    ensures element < 0 ==> !IsValid(element, wordCount)
    ensures element >= 0 ==> (IsValid(element, wordCount) <==> element <= Capacity(wordCount))
  {
  }

  /** When isValid is the right test of a place. Below 2^11 words it is, except for the capacity itself; from
      there on every Int has a place, and the test only admits those up to what is left of the capacity. */
  lemma IsValidExactly(element: int, wordCount: nat)
    requires 0 <= element < 0x8000
    ensures (IsValid(element, wordCount) <==> WordFor(element) < wordCount) <==>
            if wordCount < 0x800 then element != wordCount * WORD_BITS
            else wordCount % 0x1000 < 0x800 && element <= wordCount % 0x1000 * WORD_BITS
  {
    hide Pow2, IntType.Wrap, Capacity;
    Wraps(element);
    CapacityOf(wordCount);
  }

  // ---------------------------------------------------------------- the whole set

  predicate Has(words: seq<UInt>, element: nat)
    requires element < |words| * WORD_BITS
  {
    Bit(words[element / WORD_BITS], element % WORD_BITS)
  }

  function MembersBelow(words: seq<UInt>, limit: nat): set<nat>
    requires limit <= |words| * WORD_BITS
  {
    set element: nat | element < limit && Has(words, element)
  }

  /** The set a bitset stands for. */
  function Members(words: seq<UInt>): set<nat> { MembersBelow(words, |words| * WORD_BITS) }

  /** Exactly one word changes, by exactly one bit. */
  lemma OneWordChanges(before: seq<UInt>, after: seq<UInt>, element: nat, present: bool)
    requires |before| == |after| && element < |before| * WORD_BITS
    requires after == before[element / WORD_BITS := after[element / WORD_BITS]]
    requires var bit := element % WORD_BITS; var old_ := Elements(before[element / WORD_BITS]);
             Elements(after[element / WORD_BITS]) == if present then old_ + {bit} else old_ - {bit}
    ensures Members(after) == if present then Members(before) + {element} else Members(before) - {element}
  {
    var word, bit := element / WORD_BITS, element % WORD_BITS;
    forall e: nat | e < |before| * WORD_BITS
      ensures e in Members(after) <==> if e == element then present else e in Members(before)
    {
      if e / WORD_BITS == word {
        assert e % WORD_BITS in Elements(after[word]) <==> Bit(after[word], e % WORD_BITS);
        assert e % WORD_BITS in Elements(before[word]) <==> Bit(before[word], e % WORD_BITS);
        assert e == element <==> e % WORD_BITS == bit;
      }
    }
  }

  function CountBelow(value: nat, k: nat): nat
  {
    if k == 0 then 0 else CountBelow(value, k - 1) + if Bit(value, k - 1) then 1 else 0
  }

  lemma {:induction false} CountFromLow(value: nat, k: nat)
    ensures CountBelow(value, k + 1) == value % 2 + CountBelow(value / 2, k)
  {
    if k > 0 {
      CountFromLow(value, k - 1);
    }
  }

  lemma {:induction false} NonzeroBitCountIsCount(width: nat, value: nat)
    requires value < Pow2(width)
    ensures NonzeroBitCount(value) == CountBelow(value, width)
  {
    if width > 0 {
      NonzeroBitCountIsCount(width - 1, value / 2);
      CountFromLow(value, width - 1);
    }
  }

  lemma OneMoreMember(words: seq<UInt>, last: nat)
    requires last < |words| * WORD_BITS
    ensures |MembersBelow(words, last + 1)| == |MembersBelow(words, last)| + if Has(words, last) then 1 else 0
  {
    hide Bit;
    var before := MembersBelow(words, last);
    assert MembersBelow(words, last + 1) == if Has(words, last) then before + {last} else before;
  }

  lemma {:induction false} MembersOfOneWord(words: seq<UInt>, word: nat, k: nat)
    requires word < |words| && k <= WORD_BITS
    ensures |MembersBelow(words, word * WORD_BITS + k)|
         == |MembersBelow(words, word * WORD_BITS)| + CountBelow(words[word], k)
  {
    if k > 0 {
      hide Bit;
      MembersOfOneWord(words, word, k - 1);
      var last := word * WORD_BITS + k - 1;
      assert last / WORD_BITS == word && last % WORD_BITS == k - 1;
      OneMoreMember(words, last);
    }
  }

  lemma NextWordCounts(words: seq<UInt>, word: nat)
    requires word < |words|
    ensures |MembersBelow(words, (word + 1) * WORD_BITS)|
         == |MembersBelow(words, word * WORD_BITS)| + NonzeroBitCount(words[word])
  {
    MembersOfOneWord(words, word, WORD_BITS);
    MachineWords();
    NonzeroBitCountIsCount(WORD_BITS, words[word]);
  }

  lemma PlaceOf(element: int, wordCount: nat)
    requires 0 <= element < 0x8000 && WordFor(element) < wordCount
    ensures WordFor(element) == element / WORD_BITS && BitFor(element) == element % WORD_BITS
    ensures element < wordCount * WORD_BITS
  {
    Wraps(element);
  }

  class UnsafeBitset {
    const words: array<UInt>

    constructor (words: array<UInt>)
      ensures this.words == words
    {
      this.words := words;
    }

    function Set(): set<nat>
      reads words
    {
      Members(words[..])
    }

    /** uncheckedContains(_:) */
    method Contains(element: int) returns (r: bool)
      requires 0 <= element < 0x8000 && WordFor(element) < words.Length
      ensures r <==> element in Set()
    {
      PlaceOf(element, words.Length);
      r := WordContains(words[WordFor(element)], BitFor(element));
    }

    /** uncheckedInsert(_:) */
    method Insert(element: int) returns (inserted: bool)
      requires 0 <= element < 0x8000 && WordFor(element) < words.Length
      modifies words
      ensures inserted <==> element !in old(Set())
      ensures Set() == old(Set()) + {element}
    {
      PlaceOf(element, words.Length);
      var word: nat, bit: nat := WordFor(element), BitFor(element);
      ghost var before := words[..];
      var value: UInt;
      inserted, value := WordInsert(words[word], bit);
      words[word] := value;
      assert words[..] == before[word := value];
      OneWordChanges(before, words[..], element, true);
    }

    /** uncheckedRemove(_:) */
    method Remove(element: int) returns (removed: bool)
      requires 0 <= element < 0x8000 && WordFor(element) < words.Length
      modifies words
      ensures removed <==> element in old(Set())
      ensures Set() == old(Set()) - {element}
    {
      PlaceOf(element, words.Length);
      var word: nat, bit: nat := WordFor(element), BitFor(element);
      ghost var before := words[..];
      var value: UInt;
      removed, value := WordRemove(words[word], bit);
      words[word] := value;
      assert words[..] == before[word := value];
      OneWordChanges(before, words[..], element, false);
    }

    /** clear() */
    method Clear()
      modifies words
      ensures Set() == {}
    {
      for w := 0 to words.Length
        invariant forall k | 0 <= k < w :: words[k] == 0
      {
        words[w] := 0;
      }
      forall e: nat | e < words.Length * WORD_BITS ensures !Has(words[..], e) {
        BitOfZero(e % WORD_BITS);
      }
    }

    /** count: the cardinality, as far as an Int can tell it. */
    method Count() returns (count: int)
      ensures count == INT.Wrap(|Set()|)
    {
      hide Pow2, IntType.Wrap, NonzeroBitCount;
      count := 0;
      Wraps(0);
      for w := 0 to words.Length
        invariant count == INT.Wrap(|MembersBelow(words[..], w * WORD_BITS)|)
      {
        NextWordCounts(words[..], w);
        WrapAdd(|MembersBelow(words[..], w * WORD_BITS)|, NonzeroBitCount(words[w]));
        count := INT.Wrap(count + NonzeroBitCount(words[w]));
      }
    }
  }

  lemma WrapAdd(x: int, y: int)
    ensures INT.Wrap(INT.Wrap(x) + y) == INT.Wrap(x + y)
  {
    hide Pow2, IntType.Wrap;
    ModAdd(INT.Wrap(x), y, Pow2(INT.width));
    ModAdd(x, y, Pow2(INT.width));
    WrapUnique(INT, INT.Wrap(INT.Wrap(x) + y), x + y);
  }

  // ---------------------------------------------------------------- iteration

  /** What an iterator at this word, with these of its elements left, will still deliver. */
  function Remaining(words: seq<UInt>, index: nat, word: UInt): set<nat>
  {
    set e: nat | e < |words| * WORD_BITS &&
      if e / WORD_BITS == index then Bit(word, e % WORD_BITS) else index < e / WORD_BITS && Has(words, e)
  }

  lemma NothingLeftInWord(words: seq<UInt>, index: nat, word: UInt)
    requires Elements(word) == {}
    ensures Remaining(words, index, word) ==
            if index + 1 < |words| then Remaining(words, index + 1, words[index + 1]) else {}
  {
    forall bit: nat | bit < WORD_BITS ensures !Bit(word, bit) {
      assert bit !in Elements(word);
    }
  }

  lemma LowestLeavesWord(words: seq<UInt>, index: nat, word: UInt, bit: nat, rest: UInt)
    requires index < |words| && bit in Elements(word) && Elements(rest) == Elements(word) - {bit}
    requires forall k <- Elements(word) :: bit <= k
    ensures index * WORD_BITS + bit in Remaining(words, index, word)
    ensures forall e <- Remaining(words, index, word) :: index * WORD_BITS + bit <= e
    ensures Remaining(words, index, rest) == Remaining(words, index, word) - {index * WORD_BITS + bit}
  {
    var element := index * WORD_BITS + bit;
    assert element / WORD_BITS == index && element % WORD_BITS == bit;
    forall e: nat | e < |words| * WORD_BITS
      ensures e in Remaining(words, index, rest) <==> e in Remaining(words, index, word) && e != element
      ensures e in Remaining(words, index, word) ==> element <= e
    {
      if e / WORD_BITS == index {
        assert e % WORD_BITS in Elements(word) <==> Bit(word, e % WORD_BITS);
        assert e % WORD_BITS in Elements(rest) <==> Bit(rest, e % WORD_BITS);
        assert e == element <==> e % WORD_BITS == bit;
      }
    }
  }

  class Iterator {
    const bitset: UnsafeBitset
    var index: nat
    var word: UInt

    predicate Valid()
      reads this, bitset.words
    {
      if bitset.words.Length == 0 then index == 0 && word == 0 else index < bitset.words.Length
    }

    /** Everything still to come. */
    function Rest(): set<nat>
      reads this, bitset.words
    {
      Remaining(bitset.words[..], index, word)
    }

    constructor (bitset: UnsafeBitset)
      ensures Valid() && this.bitset == bitset && Rest() == bitset.Set()
    {
      this.bitset := bitset;
      index := 0;
      word := if bitset.words.Length > 0 then bitset.words[0] else 0;
    }

    /** next(): the least element left, as an Int. */
    method Next() returns (element: Option<int>, ghost place: Option<nat>)
      requires Valid()
      modifies this
      ensures Valid()
      ensures Delivers(old(Rest()), place, Rest())
      ensures element == AsInt(place)
    {
      hide Remaining, Elements, Join;
      var bit: Option<nat>, rest: UInt := TakeLowest(bitset.words[..], index, word);
      if bit.Some? {
        word := rest;
        return Some(Join(index, bit.value)), Some(index * WORD_BITS + bit.value);
      }
      while index + 1 < bitset.words.Length
        invariant Valid() && Rest() == old(Rest())
        invariant Elements(word) == {}
        decreases bitset.words.Length - index
      {
        NothingLeftInWord(bitset.words[..], index, word);
        index := index + 1;
        word := bitset.words[index];
        bit, rest := TakeLowest(bitset.words[..], index, word);
        if bit.Some? {
          word := rest;
          return Some(Join(index, bit.value)), Some(index * WORD_BITS + bit.value);
        }
      }
      NothingLeftInWord(bitset.words[..], index, word);
      return None, None;
    }
  }

  /** An element as `join` returns it: only those from 2^15 on, which no caller can have inserted, change. */
  function AsInt(place: Option<nat>): Option<int>
  {
    if place.Some? then Some(INT.Wrap(place.value)) else None
  }

  /** Word.next() on the iterator's word, and what it means for the elements still to come. */
  method TakeLowest(words: seq<UInt>, index: nat, word: UInt) returns (bit: Option<nat>, rest: UInt)
    requires if |words| == 0 then word == 0 else index < |words|
    ensures bit == None ==> Elements(word) == {}
    ensures bit.Some? ==> index < |words| && Join(index, bit.value) == INT.Wrap(index * WORD_BITS + bit.value)
    ensures bit.Some? ==>
            Delivers(Remaining(words, index, word), Some(index * WORD_BITS + bit.value), Remaining(words, index, rest))
  {
    bit, rest := WordNext(word);
    EmptyWord(word);
    if bit.Some? {
      LowestLeavesWord(words, index, word, bit.value, rest);
      JoinWraps(index, bit.value);
    }
  }

  /** An iterator's step: the least element of before, or nil when there is none. */
  ghost predicate Delivers(before: set<nat>, place: Option<nat>, after: set<nat>)
  {
    if before == {} then place == None && after == {}
    else place.Some? && place.value in before && (forall e <- before :: place.value <= e)
         && after == before - {place.value}
  }

  /** Strictly ascending, and exactly the elements of the set. */
  ghost predicate Enumerates(all: seq<int>, whole: set<nat>)
  {
    && (forall i, j | 0 <= i < j < |all| :: all[i] < all[j])
    && (forall e: int :: e in all <==> e in whole)
    && |all| == |whole|
  }

  /** The elements delivered so far are those no longer left, each once and in ascending order. */
  ghost predicate Ascending(whole: set<nat>, places: seq<nat>, left: set<nat>)
  {
    && (forall i, j | 0 <= i < j < |places| :: places[i] < places[j])
    && (forall i, e | 0 <= i < |places| && e in left :: places[i] < e)
    && (forall e: nat :: e in places <==> e in whole && e !in left)
    && left <= whole
    && |places| + |left| == |whole|
  }

  lemma AscendingStep(whole: set<nat>, places: seq<nat>, left: set<nat>, place: nat, after: set<nat>)
    requires Ascending(whole, places, left) && left != {} && Delivers(left, Some(place), after)
    ensures Ascending(whole, places + [place], after) && |after| < |left|
  {
    assert |after| == |left| - 1;
    forall e: nat ensures e in places + [place] <==> e in whole && e !in after {
      assert e in places + [place] <==> e in places || e == place;
    }
    forall i, j | 0 <= i < j < |places + [place]| ensures (places + [place])[i] < (places + [place])[j] {
    }
  }

  function Wrapped(places: seq<nat>): (r: seq<int>)
    ensures |r| == |places|
    ensures forall i | 0 <= i < |places| :: r[i] == INT.Wrap(places[i])
  {
    seq(|places|, i requires 0 <= i < |places| => INT.Wrap(places[i]))
  }

  /** Iterating to nil delivers every member once, in strictly ascending order; members are Ints unless the
      memory held others before. */
  method Iterated(bitset: UnsafeBitset) returns (all: seq<int>, ghost places: seq<nat>)
    ensures Enumerates(places, bitset.Set()) && all == Wrapped(places)
    ensures (forall e <- bitset.Set() :: e < 0x8000) ==> Enumerates(all, bitset.Set())
  {
    hide Delivers, Ascending, Remaining, Members, Enumerates, IntType.Wrap;
    var elements := new Iterator(bitset);
    all, places := [], [];
    ghost var left := elements.Rest();
    AscendingStart(left);
    ghost var place: Option<nat>;
    var element: Option<int>;
    element, place := elements.Next();
    while element != None
      invariant elements.Valid() && elements.bitset == bitset
      invariant Ascending(bitset.Set(), places, left) && all == Wrapped(places)
      invariant Delivers(left, place, elements.Rest()) && element == AsInt(place)
      decreases |left|
    {
      DeliversSome(left, place, elements.Rest());
      AscendingStep(bitset.Set(), places, left, place.value, elements.Rest());
      all, places := all + [element.value], places + [place.value];
      left := elements.Rest();
      element, place := elements.Next();
    }
    AscendingEnd(bitset.Set(), places, left, elements.Rest());
    if forall e <- bitset.Set() :: e < 0x8000 {
      NothingWraps(places, bitset.Set());
    }
  }

  lemma NothingWraps(places: seq<nat>, whole: set<nat>)
    requires Enumerates(places, whole) && forall e <- whole :: e < 0x8000
    ensures Wrapped(places) == places
  {
    hide IntType.Wrap;
    forall i | 0 <= i < |places| ensures Wrapped(places)[i] == places[i] {
      assert places[i] in places;
      Wraps(places[i]);
    }
  }

  lemma AscendingStart(whole: set<nat>)
    ensures Ascending(whole, [], whole)
  {
  }

  lemma DeliversSome(before: set<nat>, place: Option<nat>, after: set<nat>)
    requires Delivers(before, place, after)
    ensures place.Some? <==> before != {}
  {
  }

  lemma AscendingEnd(whole: set<nat>, places: seq<nat>, left: set<nat>, after: set<nat>)
    requires Ascending(whole, places, left) && Delivers(left, None, after)
    ensures Enumerates(places, whole)
  {
  }
}
