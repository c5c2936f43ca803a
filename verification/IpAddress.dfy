/**
 * Address prefixes: truncation to a number of leading bits, and the length of a network mask.
 * Words are held in host order, most significant first; a shift by n places is n shifts by one.
 */
module IpAddress {
  import opened Util

  datatype Word = Word(bits: bv32)

  type Words = w: seq<Word> | |w| == 4 witness [Word(0), Word(0), Word(0), Word(0)]

  datatype IPAddress = Unspecified | IPv4(word: Word) | IPv6(words: Words)

  const ALL_ONES := Word(0xFFFF_FFFF)
  const TOP := Word(0x8000_0000)

  // ---- Words -------------------------------------------------------------

  predicate TopBit(w: Word) { w.bits >= TOP.bits }

  function And(a: Word, b: Word): Word { Word(a.bits & b.bits) }

  /** A shift left by k places, for the shifts the machine does at once. */
  function Shl(w: Word, k: bv32): Word
    requires k <= 32
  {
    Word(w.bits << k)
  }

  function ShiftLeft(w: Word, n: nat): Word
    decreases n
  {
    if n == 0 then w else ShiftLeft(Shl(w, 1), n - 1)
  }

  /** Bit i of a word, counted from the most significant. */
  predicate WordBit(w: Word, i: nat) { TopBit(ShiftLeft(w, i)) }

  function MaskWord(w: Word, n: nat): Word
    requires n <= 32
  {
    And(w, ShiftLeft(ALL_ONES, 32 - n))
  }

  lemma MaskWordIs(w: Word, n: nat)
    requires n <= 32
    ensures MaskWord(w, n) == And(w, ShiftLeft(ALL_ONES, 32 - n))
  {
  }

  lemma {:induction false} ShiftLeftAdds(w: Word, m: nat, n: nat)
    ensures ShiftLeft(ShiftLeft(w, m), n) == ShiftLeft(w, m + n)
    decreases m
  {
    hide Shl;
    if m > 0 { ShiftLeftAdds(Shl(w, 1), m - 1, n); }
  }

  lemma AndOnce(a: Word, b: Word)
    ensures Shl(And(a, b), 1) == And(Shl(a, 1), Shl(b, 1))
    ensures TopBit(And(a, b)) <==> TopBit(a) && TopBit(b)
  {
  }

  lemma {:induction false} ShiftLeftAnd(a: Word, b: Word, n: nat)
    ensures ShiftLeft(And(a, b), n) == And(ShiftLeft(a, n), ShiftLeft(b, n))
    decreases n
  {
    hide And, Shl;
    if n > 0 {
      AndOnce(a, b);
      ShiftLeftAnd(Shl(a, 1), Shl(b, 1), n - 1);
    }
  }

  lemma {:induction false} ShiftLeftZero(n: nat)
    ensures ShiftLeft(Word(0), n) == Word(0)
  {
    if n > 0 { ShiftLeftZero(n - 1); }
  }

  /** Shifts by the powers of two, in one go. */
  lemma ShiftBy1(w: Word)
    ensures ShiftLeft(w, 1) == Shl(w, 1)
  {
    assert ShiftLeft(Shl(w, 1), 0) == Shl(w, 1);
  }

  lemma Shl1Twice(w: Word)
    ensures Shl(Shl(w, 1), 1) == Shl(w, 2)
  {
    var b := w.bits;
    assert (b << 1) << 1 == b << 2;
  }

  lemma Shl2Twice(w: Word)
    ensures Shl(Shl(w, 2), 2) == Shl(w, 4)
  {
    var b := w.bits;
    assert (b << 2) << 2 == b << 4;
  }

  lemma Shl4Twice(w: Word)
    ensures Shl(Shl(w, 4), 4) == Shl(w, 8)
  {
    var b := w.bits;
    assert (b << 4) << 4 == b << 8;
  }

  lemma Shl8Twice(w: Word)
    ensures Shl(Shl(w, 8), 8) == Shl(w, 16)
  {
    var b := w.bits;
    assert (b << 8) << 8 == b << 16;
  }

  lemma Shl16Twice(w: Word)
    ensures Shl(Shl(w, 16), 16) == Word(0)
  {
    var b := w.bits;
    assert (b << 16) << 16 == 0;
  }

  lemma ShiftBy2(w: Word)
    ensures ShiftLeft(w, 2) == Shl(w, 2)
  {
    hide Shl;
    Shl1Twice(w);
    ShiftBy1(w);
    ShiftBy1(Shl(w, 1));
    ShiftLeftAdds(w, 1, 1);
  }

  lemma ShiftBy4(w: Word)
    ensures ShiftLeft(w, 4) == Shl(w, 4)
  {
    hide Shl, ShiftLeft;
    Shl2Twice(w);
    ShiftBy2(w);
    ShiftBy2(Shl(w, 2));
    ShiftLeftAdds(w, 2, 2);
  }

  lemma ShiftBy8(w: Word)
    ensures ShiftLeft(w, 8) == Shl(w, 8)
  {
    hide Shl, ShiftLeft;
    Shl4Twice(w);
    ShiftBy4(w);
    ShiftBy4(Shl(w, 4));
    ShiftLeftAdds(w, 4, 4);
  }

  lemma ShiftBy16(w: Word)
    ensures ShiftLeft(w, 16) == Shl(w, 16)
  {
    hide Shl, ShiftLeft;
    Shl8Twice(w);
    ShiftBy8(w);
    ShiftBy8(Shl(w, 8));
    ShiftLeftAdds(w, 8, 8);
  }

  /** Nothing is left after 32 places. */
  lemma ShiftOut(w: Word, n: nat)
    requires n >= 32
    ensures ShiftLeft(w, n) == Word(0)
  {
    hide Shl, ShiftLeft;
    Shl16Twice(w);
    ShiftBy16(w);
    ShiftBy16(Shl(w, 16));
    ShiftLeftAdds(w, 16, 16);
    ShiftLeftAdds(w, 32, n - 32);
    ShiftLeftZero(n - 32);
  }

  // ---- Masks -------------------------------------------------------------

  /** The set bits stay at the left end. */
  predicate Contiguous(w: Word) { !w.bits & (!w.bits + 1) == 0 }

  lemma ContiguousOnce(w: Word)
    requires Contiguous(w)
    ensures Contiguous(Shl(w, 1)) && (TopBit(w) <==> w != Word(0))
  {
  }

  lemma {:induction false} ShiftLeftContiguous(w: Word, n: nat)
    requires Contiguous(w)
    ensures Contiguous(ShiftLeft(w, n))
    decreases n
  {
    hide Contiguous, Shl;
    if n > 0 {
      ContiguousOnce(w);
      ShiftLeftContiguous(Shl(w, 1), n - 1);
    }
  }

  lemma OnesLeft()
    ensures ShiftLeft(ALL_ONES, 31) == TOP && TOP != Word(0)
  {
    var w := ALL_ONES;
    ShiftBy16(w);
    ShiftBy8(Shl(w, 16));
    ShiftBy4(Shl(w, 24));
    ShiftBy2(Shl(w, 28));
    ShiftBy1(Shl(w, 30));
    ShiftLeftAdds(w, 16, 8);
    ShiftLeftAdds(w, 24, 4);
    ShiftLeftAdds(w, 28, 2);
    ShiftLeftAdds(w, 30, 1);
  }

  lemma OnesBit(m: nat)
    ensures WordBit(ALL_ONES, m) <==> m < 32
  {
    var w := ShiftLeft(ALL_ONES, m);
    ShiftLeftContiguous(ALL_ONES, m);
    ContiguousOnce(w);
    if m < 32 {
      ShiftLeftAdds(ALL_ONES, m, 31 - m);
      ShiftLeftZero(31 - m);
      OnesLeft();
    } else {
      ShiftOut(ALL_ONES, m);
    }
  }

  /** A mask keeps exactly the first n bits. */
  lemma MaskWordBit(w: Word, n: nat, i: nat)
    requires n <= 32
    ensures WordBit(MaskWord(w, n), i) <==> i < n && WordBit(w, i)
  {
    hide ShiftLeft, And, TopBit;
    var mask := ShiftLeft(ALL_ONES, 32 - n);
    ShiftLeftAnd(w, mask, i);
    ShiftLeftAdds(ALL_ONES, 32 - n, i);
    OnesBit(32 - n + i);
    AndOnce(ShiftLeft(w, i), ShiftLeft(mask, i));
  }

  /** A word is put together again from its top bit and the rest. */
  lemma TopAndRest(a: Word, b: Word)
    requires (TopBit(a) <==> TopBit(b)) && Shl(a, 1) == Shl(b, 1)
    ensures a == b
  {
  }

  lemma {:induction false} SameTail(a: Word, b: Word, n: nat)
    requires n <= 32 && forall i :: 32 - n <= i < 32 ==> (WordBit(a, i) <==> WordBit(b, i))
    ensures ShiftLeft(a, 32 - n) == ShiftLeft(b, 32 - n)
  {
    hide ShiftLeft, Shl, TopBit;
    if n == 0 {
      ShiftOut(a, 32);
      ShiftOut(b, 32);
    } else {
      var k := 32 - n;
      SameTail(a, b, n - 1);
      ShiftLeftAdds(a, k, 1);
      ShiftLeftAdds(b, k, 1);
      ShiftBy1(ShiftLeft(a, k));
      ShiftBy1(ShiftLeft(b, k));
      assert WordBit(a, k) <==> WordBit(b, k);
      TopAndRest(ShiftLeft(a, k), ShiftLeft(b, k));
    }
  }

  /** Its bits determine a word. */
  lemma SameWord(a: Word, b: Word)
    requires forall i :: 0 <= i < 32 ==> (WordBit(a, i) <==> WordBit(b, i))
    ensures a == b
  {
    SameTail(a, b, 32);
  }

  // ---- Addresses ---------------------------------------------------------

  function Size(ip: IPAddress): nat {
    match ip
    case Unspecified => 0
    case IPv4(_) => 32
    case IPv6(_) => 128
  }

  /** Bit i of an address, in the order it is written. */
  predicate Bit(ip: IPAddress, i: nat)
    requires i < Size(ip)
  {
    match ip
    case IPv4(word) => WordBit(word, i)
    case IPv6(words) => WordBit(words[i / 32], i % 32)
  }

  predicate SameFamily(a: IPAddress, b: IPAddress) { Size(a) == Size(b) }

  /** The first n bits of one address followed by zeroes are the other. */
  ghost predicate Keeps(ip: IPAddress, n: nat, r: IPAddress) {
    && SameFamily(ip, r)
    && forall i :: 0 <= i < Size(ip) ==> (Bit(r, i) <==> i < n && Bit(ip, i))
  }

  /** How many bits of word k are among the first n. */
  function Part(n: int, k: nat): nat { if n <= 32 * k then 0 else if n >= 32 * k + 32 then 32 else n - 32 * k }

  function Truncated(ip: IPAddress, n: nat): IPAddress {
    match ip
    case Unspecified => Unspecified
    case IPv4(word) => IPv4(MaskWord(word, Part(n, 0)))
    case IPv6(w) => IPv6([MaskWord(w[0], Part(n, 0)), MaskWord(w[1], Part(n, 1)),
                          MaskWord(w[2], Part(n, 2)), MaskWord(w[3], Part(n, 3))])
  }

  lemma TruncatedKeeps(ip: IPAddress, n: nat)
    ensures Keeps(ip, n, Truncated(ip, n))
  {
    hide MaskWord, WordBit;
    forall i | 0 <= i < Size(ip) ensures Bit(Truncated(ip, n), i) <==> i < n && Bit(ip, i) {
      var k := i / 32;
      MaskWordBit(if ip.IPv4? then ip.word else ip.words[k], Part(n, k), i % 32);
      assert i % 32 < Part(n, k) <==> i < n;
    }
  }

  /** Its bits determine an address of a family. */
  lemma SameAddress(a: IPAddress, b: IPAddress)
    requires SameFamily(a, b) && forall i :: 0 <= i < Size(a) ==> (Bit(a, i) <==> Bit(b, i))
    ensures a == b
  {
    hide WordBit;
    match a {
      case Unspecified =>
      case IPv4(word) =>
        forall i | 0 <= i < 32 ensures WordBit(word, i) <==> WordBit(b.word, i) {
          assert Bit(a, i) <==> Bit(b, i);
        }
        SameWord(word, b.word);
      case IPv6(words) =>
        forall k | 0 <= k < 4 ensures words[k] == b.words[k] {
          forall i | 0 <= i < 32 ensures WordBit(words[k], i) <==> WordBit(b.words[k], i) {
            assert (32 * k + i) / 32 == k && (32 * k + i) % 32 == i;
            assert Bit(a, 32 * k + i) <==> Bit(b, 32 * k + i);
          }
          SameWord(words[k], b.words[k]);
        }
    }
  }

  /** There is one address with exactly those bits. */
  lemma KeepsDetermines(ip: IPAddress, n: nat, r: IPAddress)
    ensures Keeps(ip, n, r) <==> r == Truncated(ip, n)
  {
    TruncatedKeeps(ip, n);
    if Keeps(ip, n, r) {
      forall i | 0 <= i < Size(r) ensures Bit(r, i) <==> Bit(Truncated(ip, n), i) {
        assert Bit(r, i) <==> i < n && Bit(ip, i);
      }
      SameAddress(r, Truncated(ip, n));
    }
  }

  lemma TruncatedTwice(ip: IPAddress, a: nat, b: nat)
    ensures Truncated(Truncated(ip, a), b) == Truncated(ip, Min(a, b))
  {
    hide Truncated, Bit;
    var once, twice := Truncated(ip, a), Truncated(Truncated(ip, a), b);
    TruncatedKeeps(ip, a);
    TruncatedKeeps(once, b);
    forall i | 0 <= i < Size(ip) ensures Bit(twice, i) <==> i < Min(a, b) && Bit(ip, i) {
      assert Bit(once, i) <==> i < a && Bit(ip, i);
      assert Bit(twice, i) <==> i < b && Bit(once, i);
    }
    KeepsDetermines(ip, Min(a, b), twice);
  }

  lemma AndEnds(w: Word)
    ensures And(w, ALL_ONES) == w && And(w, Word(0)) == Word(0)
  {
  }

  lemma WholeWord(w: Word)
    ensures MaskWord(w, 32) == w && MaskWord(w, 0) == Word(0)
  {
    assert ShiftLeft(ALL_ONES, 0) == ALL_ONES;
    ShiftOut(ALL_ONES, 32);
    AndEnds(w);
  }

  /** The IPv6 case: whole words kept, one masked, the rest cleared. */
  method TruncateWords(original: Words, length: nat) returns (words: Words)
    requires 0 < length < 128
    ensures IPv6(words) == Truncated(IPv6(original), length)
  {
    hide MaskWord, ShiftLeft, And;
    forall k | 0 <= k < 4 ensures MaskWord(original[k], 32) == original[k] && MaskWord(original[k], 0) == Word(0) {
      WholeWord(original[k]);
    }
    words := original;
    var position := length / 32;
    var innerLength := 32 - (length - position * 32);
    var innerMask := ShiftLeft(ALL_ONES, innerLength);
    MaskWordIs(original[position], 32 - innerLength);
    for i := 0 to 4
      invariant forall k :: 0 <= k < i ==> words[k] == MaskWord(original[k], Part(length, k))
      invariant forall k :: i <= k < 4 ==> words[k] == original[k]
    {
      if i == position {
        words := words[i := And(words[i], innerMask)];
      } else if i > position {
        words := words[i := Word(0)];
      }
    }
  }

  /** Cuts an address down to its first bits; a negative length leaves nothing to speak of. */
  method TruncateIP(ip: IPAddress, length: int) returns (r: IPAddress)
    ensures if length < 0 then r == Unspecified else r == Truncated(ip, length) && Keeps(ip, length, r)
  {
    hide MaskWord, ShiftLeft, And, Keeps;
    if length < 0 { return Unspecified; }
    TruncatedKeeps(ip, length);
    match ip {
      case Unspecified => return Unspecified;
      case IPv4(word) =>
        WholeWord(word);
        if length > 31 { return ip; }
        if length == 0 { return IPv4(Word(0)); }
        var mask := ShiftLeft(ALL_ONES, 32 - length);
        MaskWordIs(word, length);
        return IPv4(And(word, mask));
      case IPv6(words) =>
        forall k | 0 <= k < 4 ensures MaskWord(words[k], 32) == words[k] && MaskWord(words[k], 0) == Word(0) {
          WholeWord(words[k]);
        }
        if length > 127 { return ip; }
        if length == 0 { return IPv6([Word(0), Word(0), Word(0), Word(0)]); }
        var masked := TruncateWords(words, length);
        return IPv6(masked);
    }
  }

  lemma KnownShifts()
    ensures ShiftLeft(ALL_ONES, 8) == Word(0xFFFF_FF00) && ShiftLeft(ALL_ONES, 16) == Word(0xFFFF_0000)
    ensures ShiftLeft(ALL_ONES, 26) == Word(0xFC00_0000)
  {
    hide ShiftLeft;
    ShiftBy8(ALL_ONES);
    ShiftBy16(ALL_ONES);
    ShiftBy8(Word(0xFFFF_0000));
    ShiftBy2(Word(0xFF00_0000));
    ShiftLeftAdds(ALL_ONES, 16, 8);
    ShiftLeftAdds(ALL_ONES, 24, 2);
  }

  /** Known prefixes: 192.168.1.2 down to 16 and to 24 bits, and the mask of 70 bits. */
  lemma KnownPrefixes()
    ensures Truncated(IPv4(Word(0xC0A8_0102)), 16) == IPv4(Word(0xC0A8_0000))
    ensures Truncated(IPv4(Word(0xC0A8_0102)), 24) == IPv4(Word(0xC0A8_0100))
    ensures Truncated(IPv6([ALL_ONES, ALL_ONES, ALL_ONES, ALL_ONES]), 70)
      == IPv6([ALL_ONES, ALL_ONES, Word(0xFC00_0000), Word(0)])
  {
    hide ShiftLeft;
    KnownShifts();
    WholeWord(ALL_ONES);
  }

  // ---- The length of a mask ----------------------------------------------

  /** In two's complement, the lowest set bit alone. */
  function Lowest(b: bv32): bv32 { b & (0 - b) }

  predicate Meets(low: bv32, half: bv32) { low & half != 0 }

  function Step(b: bv32, low: bv32, half: bv32, k: bv32): bv32
    requires k <= 16
  {
    if Meets(low, half) then b << k else b
  }

  /** The five halvings bring the lowest set bit to the top. */
  function Normalized(b: bv32): bv32 {
    var low := Lowest(b);
    var b1 := Step(b, low, 0x0000_FFFF, 16);
    var b2 := Step(b1, low, 0x00FF_00FF, 8);
    var b3 := Step(b2, low, 0x0F0F_0F0F, 4);
    var b4 := Step(b3, low, 0x3333_3333, 2);
    Step(b4, low, 0x5555_5555, 1)
  }

  lemma NormalizedIsTop(b: bv32)
    requires b != 0
    ensures Normalized(b) == 0x8000_0000
  {
    var low := b & (0 - b);
    var b1 := if low & 0x0000_FFFF != 0 then b << 16 else b;
    var b2 := if low & 0x00FF_00FF != 0 then b1 << 8 else b1;
    var b3 := if low & 0x0F0F_0F0F != 0 then b2 << 4 else b2;
    var b4 := if low & 0x3333_3333 != 0 then b3 << 2 else b3;
    var b5 := if low & 0x5555_5555 != 0 then b4 << 1 else b4;
    assert b5 == 0x8000_0000;
  }

  lemma NormalizedIs(b: bv32)
    ensures Normalized(b) ==
      var low := Lowest(b);
      Step(Step(Step(Step(Step(b, low, 0x0000_FFFF, 16), low, 0x00FF_00FF, 8), low, 0x0F0F_0F0F, 4),
                low, 0x3333_3333, 2), low, 0x5555_5555, 1)
  {
  }

  lemma HalvedBy1(word: Word, s: nat, b: bv32, low: bv32, half: bv32)
    requires ShiftLeft(word, s) == Word(b)
    ensures ShiftLeft(word, if Meets(low, half) then s + 1 else s) == Word(Step(b, low, half, 1))
  {
    hide ShiftLeft, Meets;
    ShiftLeftAdds(word, s, 1);
    ShiftBy1(Word(b));
  }

  lemma HalvedBy2(word: Word, s: nat, b: bv32, low: bv32, half: bv32)
    requires ShiftLeft(word, s) == Word(b)
    ensures ShiftLeft(word, if Meets(low, half) then s + 2 else s) == Word(Step(b, low, half, 2))
  {
    hide ShiftLeft, Meets;
    ShiftLeftAdds(word, s, 2);
    ShiftBy2(Word(b));
  }

  lemma HalvedBy4(word: Word, s: nat, b: bv32, low: bv32, half: bv32)
    requires ShiftLeft(word, s) == Word(b)
    ensures ShiftLeft(word, if Meets(low, half) then s + 4 else s) == Word(Step(b, low, half, 4))
  {
    hide ShiftLeft, Meets;
    ShiftLeftAdds(word, s, 4);
    ShiftBy4(Word(b));
  }

  lemma HalvedBy8(word: Word, s: nat, b: bv32, low: bv32, half: bv32)
    requires ShiftLeft(word, s) == Word(b)
    ensures ShiftLeft(word, if Meets(low, half) then s + 8 else s) == Word(Step(b, low, half, 8))
  {
    hide ShiftLeft, Meets;
    ShiftLeftAdds(word, s, 8);
    ShiftBy8(Word(b));
  }

  lemma HalvedBy16(word: Word, s: nat, b: bv32, low: bv32, half: bv32)
    requires ShiftLeft(word, s) == Word(b)
    ensures ShiftLeft(word, if Meets(low, half) then s + 16 else s) == Word(Step(b, low, half, 16))
  {
    hide ShiftLeft, Meets;
    ShiftLeftAdds(word, s, 16);
    ShiftBy16(Word(b));
  }

  lemma LowestIsSet(b: bv32)
    requires b != 0
    ensures Lowest(b) != 0
  {
  }

  lemma ShiftBy0(w: Word)
    ensures ShiftLeft(w, 0) == w
  {
  }

  /** How long a word is up to its last set bit, by isolating that bit and halving. */
  method CountWord(word: Word) returns (n: nat)
    requires word != Word(0)
    ensures 1 <= n <= 32 && ShiftLeft(word, n - 1) == TOP && ShiftLeft(word, n) == Word(0)
  {
    hide ShiftLeft, Step, Lowest, Meets, Normalized;
    var zeroes := 32;
    var low := Lowest(word.bits);
    ghost var b := word.bits;
    LowestIsSet(word.bits);
    NormalizedIsTop(word.bits);
    ShiftBy0(word);
    if low != 0 { zeroes := zeroes - 1; }
    HalvedBy16(word, 31 - zeroes, b, low, 0x0000_FFFF);
    b := Step(b, low, 0x0000_FFFF, 16);
    if Meets(low, 0x0000_FFFF) { zeroes := zeroes - 16; }
    HalvedBy8(word, 31 - zeroes, b, low, 0x00FF_00FF);
    b := Step(b, low, 0x00FF_00FF, 8);
    if Meets(low, 0x00FF_00FF) { zeroes := zeroes - 8; }
    HalvedBy4(word, 31 - zeroes, b, low, 0x0F0F_0F0F);
    b := Step(b, low, 0x0F0F_0F0F, 4);
    if Meets(low, 0x0F0F_0F0F) { zeroes := zeroes - 4; }
    HalvedBy2(word, 31 - zeroes, b, low, 0x3333_3333);
    b := Step(b, low, 0x3333_3333, 2);
    if Meets(low, 0x3333_3333) { zeroes := zeroes - 2; }
    HalvedBy1(word, 31 - zeroes, b, low, 0x5555_5555);
    b := Step(b, low, 0x5555_5555, 1);
    if Meets(low, 0x5555_5555) { zeroes := zeroes - 1; }
    NormalizedIs(word.bits);
    n := 32 - zeroes;
    ShiftBy1(TOP);
    ShiftLeftAdds(word, n - 1, 1);
  }

  lemma CountedBits(word: Word, n: nat, i: nat)
    requires 1 <= n <= 32 && ShiftLeft(word, n - 1) == TOP && ShiftLeft(word, n) == Word(0)
    ensures WordBit(word, n - 1) && (i >= n ==> !WordBit(word, i))
  {
    if i >= n {
      ShiftLeftAdds(word, n, i - n);
      ShiftLeftZero(i - n);
    }
  }

  /** The word CountIPMaskBits looks at: the first that is not all ones. */
  function FirstPartial(words: Words): (k: nat)
    ensures k <= 4 && (k < 4 ==> words[k] != ALL_ONES)
    ensures forall j :: 0 <= j < k ==> words[j] == ALL_ONES
  {
    if words[0] != ALL_ONES then 0 else if words[1] != ALL_ONES then 1
    else if words[2] != ALL_ONES then 2 else if words[3] != ALL_ONES then 3 else 4
  }

  /** The address with every bit set. */
  function Full(ip: IPAddress): IPAddress {
    match ip
    case Unspecified => Unspecified
    case IPv4(_) => IPv4(ALL_ONES)
    case IPv6(_) => IPv6([ALL_ONES, ALL_ONES, ALL_ONES, ALL_ONES])
  }

  /** Where the count looks: for IPv6 nothing after the first incomplete word. */
  function Looked(mask: IPAddress): (m: nat)
    ensures m <= Size(mask)
  {
    if mask.IPv6? then Min(32 * FirstPartial(mask.words) + 32, 128) else Size(mask)
  }

  /** The length up to the last set bit among those looked at. */
  ghost predicate EndsAt(mask: IPAddress, n: nat) {
    && n <= Looked(mask)
    && (forall i :: n <= i < Looked(mask) ==> !Bit(mask, i))
    && (n > 0 ==> Bit(mask, n - 1))
  }

  lemma ZeroBits()
    ensures forall i: nat :: !WordBit(Word(0), i)
  {
    forall i: nat ensures !WordBit(Word(0), i) { ShiftLeftZero(i); }
  }

  method CountIPMaskBits(mask: IPAddress) returns (n: nat)
    ensures EndsAt(mask, n)
  {
    hide ShiftLeft, TopBit;
    var word := Word(0);
    var bits := 0;
    match mask {
      case Unspecified => return 0;
      case IPv4(w) => word := w;
      case IPv6(words) =>
        var i := 0;
        while i < 4
          invariant i <= 4 && forall j :: 0 <= j < i ==> words[j] == ALL_ONES
        {
          if words[i] != ALL_ONES { break; }
          i := i + 1;
        }
        assert i == FirstPartial(words);
        if i < 4 { word := words[i]; }
        bits := i * 32;
        if i > 0 { OnesBit(31); }
    }
    if word == Word(0) {
      ZeroBits();
      return bits;
    }
    n := CountWord(word);
    forall i: nat ensures WordBit(word, n - 1) && (i >= n ==> !WordBit(word, i)) { CountedBits(word, n, i); }
    n := bits + n;
  }

  lemma FullBit(ip: IPAddress, i: nat)
    requires i < Size(ip)
    ensures Bit(Full(ip), i)
  {
    OnesBit(i % 32);
  }

  /** Counting the bits of the mask that a prefix length stands for gives the length back. */
  lemma LengthOfMask(ip: IPAddress, n: nat, counted: nat)
    requires n <= Size(ip) && EndsAt(Truncated(Full(ip), n), counted)
    ensures counted == n
  {
    hide WordBit, MaskWord;
    var mask := Truncated(Full(ip), n);
    TruncatedKeeps(Full(ip), n);
    forall i | 0 <= i < Size(ip) ensures Bit(mask, i) <==> i < n { FullBit(ip, i); }
    WholeWord(ALL_ONES);
    assert n <= Looked(mask);
    assert n > 0 ==> Bit(mask, n - 1);
  }

  /** Its own count cuts nothing off a mask exactly when no bit is set in the words the count never looks at. */
  lemma CountCoversIff(mask: IPAddress, n: nat)
    requires EndsAt(mask, n)
    ensures Truncated(mask, n) == mask <==> forall i :: Looked(mask) <= i < Size(mask) ==> !Bit(mask, i)
  {
    hide Truncated, Bit;
    KeepsDetermines(mask, n, mask);
  }

  lemma ForIPv4Always(mask: IPAddress, n: nat)
    requires EndsAt(mask, n) && !mask.IPv6?
    ensures Truncated(mask, n) == mask
  {
    CountCoversIff(mask, n);
  }

  /** Of an IPv6 mask that starts with an empty word nothing is counted, whatever follows. */
  lemma GapHidesTheRest(words: Words, n: nat)
    requires words[0] == Word(0) && EndsAt(IPv6(words), n)
    ensures n == 0
  {
    hide WordBit;
    ZeroBits();
    var mask := IPv6(words);
    assert FirstPartial(words) == 0 && Looked(mask) == 32;
    assert n > 0 ==> !Bit(mask, n - 1);
  }
}
