/** CRC-32 with a lazily built table (section 8 of RFC 1952), against division bit by bit. */
module Crc32 {
  const kCrc32Polynomial: bv32 := 0xEDB88320
  const ONES: bv32 := 0xFFFF_FFFF

  // Word operations, named so that proofs can treat them as opaque.
  function Xor(a: bv32, b: bv32): bv32 { a ^ b }
  function Low(w: bv32): bv32 { w & 1 }
  function Half(w: bv32): bv32 { w >> 1 }

  // ---- Bit by bit --------------------------------------------------------

  /** One step of the division: the low bit leaves, and the polynomial is subtracted if it was set. */
  function Divide(c: bv32): bv32 {
    if c & 1 == 1 then kCrc32Polynomial ^ (c >> 1) else c >> 1
  }

  function DivideTimes(c: bv32, n: nat): bv32
    decreases n
  {
    if n == 0 then c else DivideTimes(Divide(c), n - 1)
  }

  /** Feeds the n low bits of w to the division, least significant first. */
  function FeedBits(c: bv32, w: bv32, n: nat): bv32
    decreases n
  {
    if n == 0 then c else FeedBits(Divide(Xor(c, Low(w))), Half(w), n - 1)
  }

  function FeedByte(c: bv32, b: bv8): bv32 { FeedBits(c, b as bv32, 8) }

  function FeedBytes(c: bv32, bytes: seq<bv8>): bv32
    decreases |bytes|
  {
    if bytes == [] then c else FeedBytes(FeedByte(c, bytes[0]), bytes[1..])
  }

  /** The checksum as RFC 1952 defines it, continued from a previous one. */
  function Checksum(start: bv32, bytes: seq<bv8>): bv32 { Xor(FeedBytes(Xor(start, ONES), bytes), ONES) }

  // ---- The division is linear --------------------------------------------

  lemma LowBit(x: bv32)
    ensures x & 1 == 0 || x & 1 == 1
  {
  }

  lemma XorPolynomial(a: bv32, b: bv32)
    ensures (kCrc32Polynomial ^ a) ^ (kCrc32Polynomial ^ b) == a ^ b
    ensures (kCrc32Polynomial ^ a) ^ b == kCrc32Polynomial ^ (a ^ b)
    ensures a ^ (kCrc32Polynomial ^ b) == kCrc32Polynomial ^ (a ^ b)
  {
  }

  lemma DivideLinearRaw(x: bv32, y: bv32)
    ensures Divide(x ^ y) == Divide(x) ^ Divide(y)
  {
    assert (x ^ y) >> 1 == (x >> 1) ^ (y >> 1);
    assert (x ^ y) & 1 == (x & 1) ^ (y & 1);
    LowBit(x);
    LowBit(y);
    XorPolynomial(x >> 1, y >> 1);
  }

  lemma DivideLinear(x: bv32, y: bv32)
    ensures Divide(Xor(x, y)) == Xor(Divide(x), Divide(y))
  {
    DivideLinearRaw(x, y);
    assert Xor(x, y) == x ^ y;
  }

  lemma {:induction false} DivideTimesLinear(x: bv32, y: bv32, n: nat)
    ensures DivideTimes(Xor(x, y), n) == Xor(DivideTimes(x, n), DivideTimes(y, n))
    decreases n
  {
    hide Divide, Xor;
    if n > 0 {
      DivideLinear(x, y);
      DivideTimesLinear(Divide(x), Divide(y), n - 1);
    }
  }

  lemma {:induction false} DivideTimesSnoc(c: bv32, n: nat)
    ensures DivideTimes(c, n + 1) == Divide(DivideTimes(c, n))
    decreases n
  {
    hide Divide;
    if n > 0 { DivideTimesSnoc(Divide(c), n - 1); }
  }

  /** w has no bits beyond the n lowest. */
  predicate Narrow(w: bv32, n: nat)
    decreases n
  {
    if n == 0 then w == 0 else Narrow(Half(w), n - 1)
  }

  function High(w: bv32): bv32 { w ^ (w & 1) }

  lemma HighPart(w: bv32)
    ensures Divide(High(w)) == Half(w)
  {
    assert (w ^ (w & 1)) & 1 == 0;
    assert (w ^ (w & 1)) >> 1 == w >> 1;
  }

  lemma LowAndHigh(w: bv32)
    ensures Xor(Low(w), High(w)) == w
  {
    assert (w & 1) ^ (w ^ (w & 1)) == w;
  }

  lemma XorAssociative(a: bv32, b: bv32, c: bv32)
    ensures Xor(Xor(a, b), c) == Xor(a, Xor(b, c))
  {
    assert (a ^ b) ^ c == a ^ (b ^ c);
  }

  /** The bits of w behind its low bit pass through a division unharmed. */
  lemma SplitLowBit(c: bv32, w: bv32)
    ensures Divide(Xor(c, w)) == Xor(Divide(Xor(c, Low(w))), Half(w))
  {
    hide Divide, Xor, Low, High, Half;
    LowAndHigh(w);
    XorAssociative(c, Low(w), High(w));
    DivideLinear(Xor(c, Low(w)), High(w));
    HighPart(w);
  }

  lemma XorZero(c: bv32)
    ensures Xor(c, 0) == c
  {
  }

  /** Feeding bits one at a time is adding them all at once and dividing. */
  lemma {:induction false} FeedBitsAtOnce(c: bv32, w: bv32, n: nat)
    requires Narrow(w, n)
    ensures FeedBits(c, w, n) == DivideTimes(Xor(c, w), n)
    decreases n
  {
    hide Divide, Xor, Low, Half;
    if n == 0 {
      XorZero(c);
    } else {
      SplitLowBit(c, w);
      FeedBitsAtOnce(Divide(Xor(c, Low(w))), Half(w), n - 1);
    }
  }

  // ---- The table form ----------------------------------------------------

  function LowByte(c: bv32): bv8 { (c & 0xFF) as bv8 }

  function Widen(b: bv8): bv32 { b as bv32 }

  function HighBytes(c: bv32): bv32 { c >> 8 }

  /** The table: eight divisions of each byte value. */
  function TableEntry(b: bv8): bv32 { DivideTimes(Widen(b), 8) }

  lemma ByteIsNarrow(b: bv8)
    ensures Narrow(Widen(b), 8)
  {
    var w := b as bv32;
    assert w >> 1 >> 1 >> 1 >> 1 >> 1 >> 1 >> 1 >> 1 == 0;
    hide Widen;
    var w1 := w >> 1; var w2 := w1 >> 1; var w3 := w2 >> 1; var w4 := w3 >> 1;
    var w5 := w4 >> 1; var w6 := w5 >> 1; var w7 := w6 >> 1; var w8 := w7 >> 1;
    assert Narrow(w8, 0) && Narrow(w7, 1) && Narrow(w6, 2) && Narrow(w5, 3);
    assert Narrow(w4, 4) && Narrow(w3, 5) && Narrow(w2, 6) && Narrow(w1, 7);
  }

  lemma DivideEven(w: bv32)
    requires w & 1 == 0
    ensures Divide(w) == w >> 1
  {
  }

  /** Bits above the low byte are only shifted by eight divisions. */
  lemma HighBytesShift(w: bv32)
    requires w & 0xFF == 0
    ensures DivideTimes(w, 8) == w >> 8
  {
    hide Divide;
    var w1 := w >> 1; var w2 := w1 >> 1; var w3 := w2 >> 1; var w4 := w3 >> 1;
    var w5 := w4 >> 1; var w6 := w5 >> 1; var w7 := w6 >> 1; var w8 := w7 >> 1;
    DivideEven(w); DivideEven(w1); DivideEven(w2); DivideEven(w3);
    DivideEven(w4); DivideEven(w5); DivideEven(w6); DivideEven(w7);
    assert DivideTimes(w, 8) == DivideTimes(w4, 4) by {
      assert DivideTimes(w, 8) == DivideTimes(w1, 7) == DivideTimes(w2, 6) == DivideTimes(w3, 5);
    }
    assert DivideTimes(w4, 4) == DivideTimes(w5, 3) == DivideTimes(w6, 2) == DivideTimes(w7, 1) == w8;
    assert w8 == w >> 8;
  }

  function AboveLowByte(c: bv32): bv32 { c & 0xFFFF_FF00 }

  lemma LowByteAndAbove(v: bv32)
    ensures v == Xor(Widen(LowByte(v)), AboveLowByte(v))
  {
    assert ((v & 0xFF) as bv8) as bv32 == v & 0xFF;
    assert (v & 0xFF) ^ (v & 0xFFFF_FF00) == v;
  }

  lemma AboveUnchanged(c: bv32, b: bv8)
    ensures AboveLowByte(Xor(c, Widen(b))) == AboveLowByte(c)
  {
    assert (c ^ (b as bv32)) & 0xFFFF_FF00 == c & 0xFFFF_FF00;
  }

  lemma AboveShifted(c: bv32)
    ensures HighBytes(AboveLowByte(c)) == HighBytes(c) && AboveLowByte(c) & 0xFF == 0
  {
    assert (c & 0xFFFF_FF00) >> 8 == c >> 8;
    assert (c & 0xFFFF_FF00) & 0xFF == 0;
  }

  lemma SplitLowByte(c: bv32, b: bv8)
    ensures Xor(c, Widen(b)) == Xor(Widen(LowByte(Xor(c, Widen(b)))), AboveLowByte(c))
  {
    hide Xor, Widen, LowByte, AboveLowByte;
    LowByteAndAbove(Xor(c, Widen(b)));
    AboveUnchanged(c, b);
  }

  lemma WidenIs(b: bv8)
    ensures Widen(b) == b as bv32
  {
  }

  lemma HighBytesDivide(c: bv32)
    ensures DivideTimes(AboveLowByte(c), 8) == HighBytes(c)
  {
    AboveShifted(c);
    HighBytesShift(AboveLowByte(c));
  }

  /** One table lookup does the work of eight divisions. */
  lemma TableStep(c: bv32, b: bv8)
    ensures FeedByte(c, b) == Xor(TableEntry(LowByte(Xor(c, Widen(b)))), HighBytes(c))
  {
    hide Divide, Xor, Low, Half, Widen, LowByte, HighBytes, AboveLowByte, DivideTimes, FeedBits;
    ByteIsNarrow(b);
    FeedBitsAtOnce(c, Widen(b), 8);
    SplitLowByte(c, b);
    DivideTimesLinear(Widen(LowByte(Xor(c, Widen(b)))), AboveLowByte(c), 8);
    assert DivideTimes(AboveLowByte(c), 8) == HighBytes(c) by { HighBytesDivide(c); }
    assert FeedByte(c, b) == FeedBits(c, Widen(b), 8) by { WidenIs(b); }
  }

  // ---- The code ----------------------------------------------------------

  method EightDivisions(i: bv32) returns (c: bv32)
    ensures c == DivideTimes(i, 8)
  {
    c := i;
    for j := 0 to 8
      invariant c == DivideTimes(i, j)
    {
      DivideTimesSnoc(i, j);
      c := if c & 1 == 1 then kCrc32Polynomial ^ (c >> 1) else c >> 1;
    }
  }

  /** Eight divisions, one after the other. */
  lemma EightSteps(c: seq<bv32>)
    requires |c| == 9 && forall i :: 0 <= i < 8 ==> Divide(c[i]) == c[i + 1]
    ensures DivideTimes(c[0], 8) == c[8]
  {
    hide Divide;
    assert DivideTimes(c[0], 8) == DivideTimes(c[1], 7) == DivideTimes(c[2], 6) == DivideTimes(c[3], 5)
      == DivideTimes(c[4], 4) by {
      assert DivideTimes(c[2], 6) == DivideTimes(Divide(c[2]), 5);
    }
    assert DivideTimes(c[4], 4) == DivideTimes(c[5], 3) == DivideTimes(c[6], 2) == DivideTimes(c[7], 1) == c[8];
  }

  lemma LastByte()
    ensures 255 as bv8 == 0xFF
  {
  }

  /** A filled table is told from an untouched one by its last entry. */
  lemma LastEntryNotZero()
    ensures TableEntry(0xFF) == 0x2d02ef8d
  {
    assert Divide(0xff) == 0xedb8835f;
    assert Divide(0xedb8835f) == 0x9b64c28f;
    assert Divide(0x9b64c28f) == 0xa00ae267;
    assert Divide(0xa00ae267) == 0xbdbdf213;
    assert Divide(0xbdbdf213) == 0xb3667a29;
    assert Divide(0xb3667a29) == 0xb40bbe34;
    assert Divide(0xb40bbe34) == 0x5a05df1a;
    assert Divide(0x5a05df1a) == 0x2d02ef8d;
    EightSteps([0xff, 0xedb8835f, 0x9b64c28f, 0xa00ae267, 0xbdbdf213, 0xb3667a29, 0xb40bbe34, 0x5a05df1a, 0x2d02ef8d]);
  }

  class Crc32Table {
    var entries: array<bv32>     // static, all zero until first used
    var fills: nat               // how often it has been filled

    ghost predicate Filled()
      reads this, entries
    {
      entries.Length == 256 && forall i :: 0 <= i < 256 ==> entries[i] == TableEntry(i as bv8)
    }

    ghost predicate Untouched()
      reads this, entries
    {
      entries.Length == 256 && (forall i :: 0 <= i < 256 ==> entries[i] == 0) && fills == 0
    }

    ghost predicate Valid()
      reads this, entries
    {
      Untouched() || (Filled() && fills == 1)
    }

    constructor ()
      ensures Valid() && Untouched() && fresh(entries)
    {
      entries := new bv32[256](_ => 0);
      fills := 0;
    }

    /** Fills the table on the first call, and only then. */
    method EnsureInited()
      requires Valid()
      modifies `fills, entries
      ensures Valid() && Filled() && fills == 1
      ensures old(Filled()) ==> entries[..] == old(entries[..])
    {
      hide DivideTimes, Divide, Widen;
      LastEntryNotZero();
      LastByte();
      if entries[255] != 0 {
        return;
      }
      for i := 0 to 256
        invariant entries.Length == 256 && fills == old(fills)
        invariant forall k :: 0 <= k < i ==> entries[k] == TableEntry(k as bv8)
      {
        entries[i] := EightDivisions(Widen(i as bv8));
      }
      fills := fills + 1;
    }

    /** The table-driven checksum, continued from start. */
    method UpdateCrc32(start: bv32, bytes: seq<bv8>) returns (crc: bv32)
      requires Valid()
      modifies `fills, entries
      ensures Valid() && Filled()
      ensures crc == Checksum(start, bytes)
    {
      EnsureInited();
      hide Xor, Widen, LowByte, HighBytes, TableEntry, FeedByte;
      var c := Xor(start, ONES);
      assert bytes[..0] == [];
      for i := 0 to |bytes|
        invariant Valid() && Filled()
        invariant FeedBytes(Xor(start, ONES), bytes) == FeedBytes(c, bytes[i..])
      {
        TableStep(c, bytes[i]);
        var index := LowByte(Xor(c, Widen(bytes[i])));
        assert entries[index as int] == TableEntry((index as int) as bv8);
        c := Xor(entries[index as int], HighBytes(c));
        assert bytes[i..][1..] == bytes[i + 1..];
      }
      return Xor(c, ONES);
    }
  }

  // ---- Known checksums ---------------------------------------------------

  lemma EntryOf9E()
    ensures TableEntry(0x9e) == 0x17b7be43
  {
    assert Divide(0x9e) == 0x4f;
    assert Divide(0x4f) == 0xedb88307;
    assert Divide(0xedb88307) == 0x9b64c2a3;
    assert Divide(0x9b64c2a3) == 0xa00ae271;
    assert Divide(0xa00ae271) == 0xbdbdf218;
    assert Divide(0xbdbdf218) == 0x5edef90c;
    assert Divide(0x5edef90c) == 0x2f6f7c86;
    assert Divide(0x2f6f7c86) == 0x17b7be43;
    EightSteps([0x9e, 0x4f, 0xedb88307, 0x9b64c2a3, 0xa00ae271, 0xbdbdf218, 0x5edef90c, 0x2f6f7c86, 0x17b7be43]);
  }

  lemma EntryOfDE()
    ensures TableEntry(0xde) == 0x616bffd3
  {
    assert Divide(0xde) == 0x6f;
    assert Divide(0x6f) == 0xedb88317;
    assert Divide(0xedb88317) == 0x9b64c2ab;
    assert Divide(0x9b64c2ab) == 0xa00ae275;
    assert Divide(0xa00ae275) == 0xbdbdf21a;
    assert Divide(0xbdbdf21a) == 0x5edef90d;
    assert Divide(0x5edef90d) == 0xc2d7ffa6;
    assert Divide(0xc2d7ffa6) == 0x616bffd3;
    EightSteps([0xde, 0x6f, 0xedb88317, 0x9b64c2ab, 0xa00ae275, 0xbdbdf21a, 0x5edef90d, 0xc2d7ffa6, 0x616bffd3]);
  }

  lemma EntryOfF1()
    ensures TableEntry(0xf1) == 0xcabac28a
  {
    assert Divide(0xf1) == 0xedb88358;
    assert Divide(0xedb88358) == 0x76dc41ac;
    assert Divide(0x76dc41ac) == 0x3b6e20d6;
    assert Divide(0x3b6e20d6) == 0x1db7106b;
    assert Divide(0x1db7106b) == 0xe3630b15;
    assert Divide(0xe3630b15) == 0x9c0906aa;
    assert Divide(0x9c0906aa) == 0x4e048355;
    assert Divide(0x4e048355) == 0xcabac28a;
    EightSteps([0xf1, 0xedb88358, 0x76dc41ac, 0x3b6e20d6, 0x1db7106b, 0xe3630b15, 0x9c0906aa, 0x4e048355, 0xcabac28a]);
  }

  lemma FirstByte()
    ensures FeedByte(0xffffffff, 0x61) == 0x174841bc
  {
    hide FeedByte, TableEntry;
    EntryOf9E();
    TableStep(0xffffffff, 0x61);
    assert LowByte(Xor(0xffffffff, Widen(0x61))) == 0x9e;
    assert Xor(0x17b7be43, HighBytes(0xffffffff)) == 0x174841bc;
  }

  lemma SecondByte()
    ensures FeedByte(0x174841bc, 0x62) == 0x617cb792
  {
    hide FeedByte, TableEntry;
    EntryOfDE();
    TableStep(0x174841bc, 0x62);
    assert LowByte(Xor(0x174841bc, Widen(0x62))) == 0xde;
    assert Xor(0x616bffd3, HighBytes(0x174841bc)) == 0x617cb792;
  }

  lemma ThirdByte()
    ensures FeedByte(0x617cb792, 0x63) == 0xcadbbe3d
  {
    hide FeedByte, TableEntry;
    EntryOfF1();
    TableStep(0x617cb792, 0x63);
    assert LowByte(Xor(0x617cb792, Widen(0x63))) == 0xf1;
    assert Xor(0xcabac28a, HighBytes(0x617cb792)) == 0xcadbbe3d;
  }

  lemma Inverted()
    ensures Xor(0, ONES) == 0xffffffff && Xor(ONES, ONES) == 0 && Xor(0xcadbbe3d, ONES) == 0x352441c2
  {
  }

  /** The checksums of the empty text and of "abc", as everybody else computes them. */
  lemma KnownChecksums()
    ensures Checksum(0, []) == 0
    ensures Checksum(0, [0x61, 0x62, 0x63]) == 0x3524_41C2
  {
    hide FeedByte;
    FirstByte();
    SecondByte();
    ThirdByte();
    assert [0x61 as bv8, 0x62, 0x63][1..] == [0x62, 0x63];
    assert [0x62 as bv8, 0x63][1..] == [0x63] && [0x63 as bv8][1..] == [];
    Inverted();
  }

  // ---- What the checksum is good for -------------------------------------

  lemma {:induction false} FeedBytesConcat(c: bv32, a: seq<bv8>, b: seq<bv8>)
    ensures FeedBytes(c, a + b) == FeedBytes(FeedBytes(c, a), b)
    decreases |a|
  {
    hide FeedByte;
    if a == [] {
      assert a + b == b;
    } else {
      assert (a + b)[1..] == a[1..] + b;
      FeedBytesConcat(FeedByte(c, a[0]), a[1..], b);
    }
  }

  lemma XorTwice(c: bv32)
    ensures Xor(Xor(c, ONES), ONES) == c
  {
    assert (c ^ ONES) ^ ONES == c;
  }

  /** A checksum can be continued piece by piece. */
  lemma ChecksumContinues(start: bv32, a: seq<bv8>, b: seq<bv8>)
    ensures Checksum(Checksum(start, a), b) == Checksum(start, a + b)
  {
    hide FeedBytes;
    var c := FeedBytes(Xor(start, ONES), a);
    FeedBytesConcat(Xor(start, ONES), a, b);
    XorTwice(c);
  }

  /** A division can be undone: the top bit tells whether the polynomial was subtracted. */
  lemma DivideInjective(x: bv32, y: bv32)
    requires Divide(x) == Divide(y)
    ensures x == y
  {
  }

  lemma {:induction false} DivideTimesInjective(x: bv32, y: bv32, n: nat)
    requires DivideTimes(x, n) == DivideTimes(y, n)
    ensures x == y
    decreases n
  {
    hide Divide;
    if n > 0 {
      DivideTimesInjective(Divide(x), Divide(y), n - 1);
      DivideInjective(x, y);
    }
  }

  lemma FeedByteInjective(c: bv32, d: bv32, a: bv8, b: bv8)
    requires FeedByte(c, a) == FeedByte(d, b)
    ensures Xor(c, Widen(a)) == Xor(d, Widen(b))
  {
    hide Divide, Xor, Widen, DivideTimes, FeedBits;
    WidenIs(a);
    WidenIs(b);
    ByteIsNarrow(a);
    ByteIsNarrow(b);
    FeedBitsAtOnce(c, Widen(a), 8);
    FeedBitsAtOnce(d, Widen(b), 8);
    DivideTimesInjective(Xor(c, Widen(a)), Xor(d, Widen(b)), 8);
  }

  lemma XorRight(c: bv32, d: bv32, a: bv8)
    requires Xor(c, Widen(a)) == Xor(d, Widen(a))
    ensures c == d
  {
  }

  lemma XorLeft(c: bv32, a: bv8, b: bv8)
    requires Xor(c, Widen(a)) == Xor(c, Widen(b))
    ensures a == b
  {
    assert (a as bv32) == (b as bv32);
  }

  lemma {:induction false} FeedBytesInjective(c: bv32, d: bv32, bytes: seq<bv8>)
    requires FeedBytes(c, bytes) == FeedBytes(d, bytes)
    ensures c == d
    decreases |bytes|
  {
    hide FeedByte, Xor, Widen;
    if bytes != [] {
      FeedBytesInjective(FeedByte(c, bytes[0]), FeedByte(d, bytes[0]), bytes[1..]);
      FeedByteInjective(c, d, bytes[0], bytes[0]);
      XorRight(c, d, bytes[0]);
    }
  }

  /** Corrupting any one byte of a message changes its checksum. */
  lemma CorruptedByteDetected(start: bv32, before: seq<bv8>, a: bv8, b: bv8, after: seq<bv8>)
    requires a != b
    ensures Checksum(start, before + [a] + after) != Checksum(start, before + [b] + after)
  {
    hide FeedByte, Xor, Widen;
    if Checksum(start, before + [a] + after) == Checksum(start, before + [b] + after) {
      var c := FeedBytes(Xor(start, ONES), before);
      FeedBytesConcat(Xor(start, ONES), before + [a], after);
      FeedBytesConcat(Xor(start, ONES), before + [b], after);
      FeedBytesConcat(Xor(start, ONES), before, [a]);
      FeedBytesConcat(Xor(start, ONES), before, [b]);
      XorTwice(FeedBytes(Xor(start, ONES), before + [a] + after));
      XorTwice(FeedBytes(Xor(start, ONES), before + [b] + after));
      FeedBytesInjective(FeedBytes(c, [a]), FeedBytes(c, [b]), after);
      assert FeedBytes(c, [a]) == FeedByte(c, a) && FeedBytes(c, [b]) == FeedByte(c, b) by {
        assert [a][1..] == [] && [b][1..] == [];
      }
      FeedByteInjective(c, c, a, b);
      XorLeft(c, a, b);
    }
  }
}
