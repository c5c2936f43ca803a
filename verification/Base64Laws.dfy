/** What the Base64 decoder accepts, and what it makes of it. */
module Base64Laws {
  import opened Util
  import opened ByteOrder
  import opened Base64

  // ---- Position independence ---------------------------------------------

  /** The same scan, n characters further on. */
  predicate Similar(t: Scan, u: Scan, n: nat) {
    && u.dpos == t.dpos + n && u.sextets == t.sextets && u.padLen == t.padLen
    && (t.padLen > 0 ==> u.padStart == t.padStart + n)
  }

  lemma {:induction false} ScanSimilar(parse: Parse, illegalPads: bool, prefix: string, d: string, s: Scan, u: Scan)
    requires s.dpos <= |d| && |s.sextets| <= 4 && (|s.sextets| == 4 ==> s.padLen == 0) && Similar(s, u, |prefix|)
    ensures Similar(ScanFrom(parse, illegalPads, d, s), ScanFrom(parse, illegalPads, prefix + d, u), |prefix|)
    decreases |d| - s.dpos
  {
    hide DecodeTable;
    if |s.sextets| < 4 && s.dpos < |d| {
      assert (prefix + d)[u.dpos] == d[s.dpos];
      var next, next' := ScanNext(parse, illegalPads, d, s), ScanNext(parse, illegalPads, prefix + d, u);
      if next.Some? { ScanSimilar(parse, illegalPads, prefix, d, next.value, next'.value); }
    }
  }

  /** Decoding from a position: the first quantum, and the rest if it is full. */
  lemma DecodeStep(flags: Flags, d: string, k: nat)
    requires k < |d|
    ensures var t := FirstQuantum(flags, d, k);
      DecodeFrom(flags, d, k) ==
        if |t.sextets| < 4 then Decoded(Accepts(flags, t, |d|), QuantumBytes(t.sextets), After(t))
        else
          var rest := DecodeFrom(flags, d, t.dpos);
          rest.(result := QuantumBytes(t.sextets) + rest.result)
  {
    hide ScanFrom, QuantumBytes, UnusedBits, Accepts;
  }

  lemma ShiftedQuantum(flags: Flags, prefix: string, d: string, k: nat)
    requires k <= |d|
    ensures Similar(FirstQuantum(flags, d, k), FirstQuantum(flags, prefix + d, |prefix| + k), |prefix|)
  {
    hide ScanFrom;
    ScanSimilar(flags.parse, flags.pad == DO_PAD_NO, prefix, d, Scan(k, [], 0, 0), Scan(|prefix| + k, [], 0, 0));
  }

  lemma SimilarEnd(flags: Flags, t: Scan, u: Scan, n: nat, length: nat)
    requires Similar(t, u, n)
    ensures u.sextets == t.sextets && u.dpos == t.dpos + n && After(u) == After(t) + n
    ensures Accepts(flags, u, length + n) <==> Accepts(flags, t, length)
  {
    hide UnusedBits;
  }

  lemma NothingToDecode(flags: Flags, d: string)
    ensures DecodeFrom(flags, d, |d|) == Decoded(true, [], |d|)
  {
  }

  lemma ProperQuantum(flags: Flags, d: string, k: nat)
    requires k <= |d|
    ensures var t := FirstQuantum(flags, d, k); t.dpos <= |d| && |t.sextets| <= 4
  {
  }

  lemma {:induction false} DecodeShift(flags: Flags, prefix: string, d: string, k: nat)
    requires k <= |d|
    ensures var r := DecodeFrom(flags, d, k);
      DecodeFrom(flags, prefix + d, |prefix| + k) == r.(used := r.used + |prefix|)
    decreases |d| - k
  {
    hide DecodeFrom, FirstQuantum, QuantumBytes, Accepts, After, Similar, Proper;
    var e, n := prefix + d, |prefix|;
    if k == |d| {
      NothingToDecode(flags, d);
      NothingToDecode(flags, e);
    } else {
      var t, u := FirstQuantum(flags, d, k), FirstQuantum(flags, e, n + k);
      DecodeStep(flags, d, k);
      DecodeStep(flags, e, n + k);
      ShiftedQuantum(flags, prefix, d, k);
      SimilarEnd(flags, t, u, n, |d|);
      QuantumAdvances(flags, d, k);
      if |t.sextets| >= 4 {
        ProperQuantum(flags, d, k);
        DecodeShift(flags, prefix, d, t.dpos);
      }
    }
  }

  // ---- Four symbols ------------------------------------------------------

  lemma ScanSymbol(parse: Parse, illegalPads: bool, d: string, s: Scan)
    requires s.dpos < |d| && |s.sextets| < 4 && s.padLen == 0 && IsSymbol(d[s.dpos])
    ensures ScanFrom(parse, illegalPads, d, s)
      == ScanFrom(parse, illegalPads, d, s.(dpos := s.dpos + 1, sextets := s.sextets + [DecodeTable(d[s.dpos])]))
  {
  }

  /** Two symbols are read one after the other. */
  lemma ScanTwo(parse: Parse, illegalPads: bool, d: string, s: Scan)
    requires s.dpos + 2 <= |d| && |s.sextets| <= 2 && s.padLen == 0 && IsSymbol(d[s.dpos]) && IsSymbol(d[s.dpos + 1])
    ensures ScanFrom(parse, illegalPads, d, s)
      == ScanFrom(parse, illegalPads, d,
        s.(dpos := s.dpos + 2, sextets := s.sextets + [DecodeTable(d[s.dpos]), DecodeTable(d[s.dpos + 1])]))
  {
    hide ScanFrom, DecodeTable;
    ScanSymbol(parse, illegalPads, d, s);
    var s1 := s.(dpos := s.dpos + 1, sextets := s.sextets + [DecodeTable(d[s.dpos])]);
    ScanSymbol(parse, illegalPads, d, s1);
    assert s1.sextets + [DecodeTable(d[s1.dpos])] == s.sextets + [DecodeTable(d[s.dpos]), DecodeTable(d[s.dpos + 1])];
  }

  predicate FourSymbols(d: string) {
    |d| >= 4 && IsSymbol(d[0]) && IsSymbol(d[1]) && IsSymbol(d[2]) && IsSymbol(d[3])
  }

  function Sextets4(d: string): seq<sextet>
    requires FourSymbols(d)
  {
    [DecodeTable(d[0]), DecodeTable(d[1]), DecodeTable(d[2]), DecodeTable(d[3])]
  }

  /** Under all flags, four symbols in front are one quantum and the rest is decoded as if alone. */
  lemma DecodeFour(flags: Flags, d: string)
    requires FourSymbols(d)
    ensures var r := Decode(flags, d[4..]);
      Decode(flags, d) == Decoded(r.success, QuantumBytes(Sextets4(d)) + r.result, r.used + 4)
  {
    hide DecodeTable, QuantumBytes;
    var illegalPads := flags.pad == DO_PAD_NO;
    ScanTwo(flags.parse, illegalPads, d, Scan(0, [], 0, 0));
    var half := [DecodeTable(d[0]), DecodeTable(d[1])];
    assert [] + half == half;
    ScanTwo(flags.parse, illegalPads, d, Scan(2, half, 0, 0));
    assert half + [DecodeTable(d[2]), DecodeTable(d[3])] == Sextets4(d);
    assert FirstQuantum(flags, d, 0) == Scan(4, Sextets4(d), 0, 0);
    DecodeShift(flags, d[..4], d[4..], 0);
    assert d[..4] + d[4..] == d;
  }

  // ---- Decoding what was encoded -----------------------------------------

  lemma GroupIsSymbols(x: seq<byte>)
    requires |x| >= 3
    ensures FourSymbols(Group(x)) && QuantumBytes(Sextets4(Group(x))) == x[..3]
  {
    hide First, Second, Third, Fourth, ByteA, ByteB, ByteC, Symbol, DecodeTable;
    var g := Group(x);
    TablesAgree(First(x[0]), ' ');
    TablesAgree(Second(x[0], x[1]), ' ');
    TablesAgree(Third(x[1], x[2]), ' ');
    TablesAgree(Fourth(x[2]), ' ');
    ByteAOfSextets(x[0], x[1]);
    ByteBOfSextets(x[0], x[1], x[2]);
    ByteCOfSextets(x[1], x[2]);
  }

  lemma UnusedAreZero(a: byte, b: byte)
    ensures ByteB(Second(a, 0), 0) == 0 && ByteC(Third(b, 0), 0) == 0
  {
  }

  lemma ScanPad(parse: Parse, d: string, s: Scan)
    requires s.dpos < |d| && d[s.dpos] == '=' && 2 <= |s.sextets| && |s.sextets| + s.padLen < 4
    ensures ScanFrom(parse, false, d, s) == ScanFrom(parse, false, d,
      s.(dpos := s.dpos + 1, padLen := s.padLen + 1, padStart := if s.padLen == 0 then s.dpos else s.padStart))
  {
  }

  lemma ScanStops(parse: Parse, illegalPads: bool, d: string, s: Scan)
    requires s.dpos == |d| && |s.sextets| < 4
    ensures ScanFrom(parse, illegalPads, d, s) == s
  {
  }

  lemma LastQuantum(parse: Parse, d: string, sextets: seq<sextet>)
    requires |d| == 4 && 2 <= |sextets| <= 3 && d[3] == '='
    requires d[0] == Symbol(sextets[0]) && d[1] == Symbol(sextets[1])
    requires d[2] == if |sextets| == 3 then Symbol(sextets[2]) else '='
    ensures ScanFrom(parse, false, d, Scan(0, [], 0, 0)) == Scan(4, sextets, 4 - |sextets|, |sextets|)
  {
    hide DecodeTable, Symbol, ScanFrom;
    TablesAgree(sextets[0], ' ');
    TablesAgree(sextets[1], ' ');
    ScanTwo(parse, false, d, Scan(0, [], 0, 0));
    var half := [sextets[0], sextets[1]];
    assert [] + half == half;
    if |sextets| == 3 {
      TablesAgree(sextets[2], ' ');
      ScanSymbol(parse, false, d, Scan(2, half, 0, 0));
      assert half + [sextets[2]] == sextets;
      ScanPad(parse, d, Scan(3, sextets, 0, 0));
      ScanStops(parse, false, d, Scan(4, sextets, 1, 3));
    } else {
      assert half == sextets;
      ScanPad(parse, d, Scan(2, half, 0, 0));
      ScanPad(parse, d, Scan(3, half, 1, 2));
      ScanStops(parse, false, d, Scan(4, half, 2, 2));
    }
  }

  /** One or two last bytes: the quantum is short and padded, and has no stray bits. */
  lemma DecodeLastGroup(flags: Flags, x: seq<byte>)
    requires 1 <= |x| <= 2 && flags.pad != DO_PAD_NO
    ensures Decode(flags, Group(x)) == Decoded(true, x, 4)
  {
    hide ScanFrom, First, Second, Third, ByteA, ByteB, ByteC, Symbol;
    var d := Group(x);
    var b := if |x| == 2 then x[1] else 0;
    var sextets := if |x| == 2 then [First(x[0]), Second(x[0], b), Third(b, 0)] else [First(x[0]), Second(x[0], 0)];
    LastQuantum(flags.parse, d, sextets);
    ByteAOfSextets(x[0], b);
    ByteBOfSextets(x[0], b, 0);
    ByteCOfSextets(b, 0);
    UnusedAreZero(x[0], b);
  }

  /** Every decoder that allows padding returns what was encoded and uses all of the text. */
  lemma {:induction false} DecodeEncode(x: seq<byte>, flags: Flags)
    requires flags.pad != DO_PAD_NO
    ensures Decode(flags, Encode(x)) == Decoded(true, x, |Encode(x)|)
  {
    hide Symbol, DecodeTable, Group, QuantumBytes, ScanFrom;
    if |x| >= 3 {
      DecodeEncode(x[3..], flags);
      GroupIsSymbols(x);
      var d := Encode(x);
      assert d == Group(x) + Encode(x[3..]);
      assert d[4..] == Encode(x[3..]) && Sextets4(d) == Sextets4(Group(x));
      DecodeFour(flags, d);
      assert x == x[..3] + x[3..];
    } else if x != [] {
      assert x[|x|..] == [];
      assert Encode(x) == Group(x) + Encode([]) == Group(x);
      DecodeLastGroup(flags, x);
    }
  }

  // ---- Strict decoding accepts exactly the encoder's output --------------

  /** In strict mode the text read is the sextets' symbols followed by the pads. */
  predicate ReadStrictly(d: string, s: Scan) {
    && s.dpos == |s.sextets| + s.padLen <= |d| && s.dpos <= 4
    && (forall k :: 0 <= k < |s.sextets| ==> d[k] == Symbol(s.sextets[k]))
    && (forall k :: |s.sextets| <= k < s.dpos ==> d[k] == '=')
    && (s.padLen > 0 ==> |s.sextets| >= 2 && s.padStart == |s.sextets|)
  }

  lemma {:induction false} StrictScan(d: string, s: Scan)
    requires ReadStrictly(d, s)
    ensures ReadStrictly(d, ScanFrom(DO_PARSE_STRICT, false, d, s))
    decreases |d| - s.dpos
  {
    hide Symbol;
    if |s.sextets| < 4 && s.dpos < |d| {
      var c := d[s.dpos];
      var q := DecodeTable(c);
      var next := s.(dpos := s.dpos + 1);
      TablesAgree(0, c);
      if q == PAD {
        assert c == '=';
        if 2 <= |s.sextets| && |s.sextets| + s.padLen < 4 {
          StrictScan(d, next.(padLen := s.padLen + 1, padStart := if s.padLen == 0 then s.dpos else s.padStart));
        }
      } else if q < 64 && s.padLen == 0 {
        StrictScan(d, next.(sextets := s.sextets + [q], padLen := 0));
      }
    }
  }

  lemma GroupOfQuantum(d: string, q: seq<sextet>)
    requires 2 <= |q| <= 4 && |d| >= 4 && UnusedBits(q) == 0
    requires forall k :: 0 <= k < |q| ==> d[k] == Symbol(q[k])
    requires forall k :: |q| <= k < 4 ==> d[k] == '='
    ensures |QuantumBytes(q)| == |q| - 1 && Group(QuantumBytes(q)) == d[..4]
  {
    hide Symbol, First, Second, Third, Fourth, ByteA, ByteB, ByteC;
    FirstOfBytes(q[0], q[1]);
    SecondOfBytes(q[0], q[1], At(q, 2));
    ThirdOfBytes(q[1], At(q, 2), At(q, 3));
  }

  lemma NoUnusedBits(q: seq<sextet>)
    requires |q| == 4
    ensures UnusedBits(q) == 0
  {
  }

  lemma SymbolsInFront(d: string, q: seq<sextet>)
    requires |q| == 4 <= |d| && forall k :: 0 <= k < 4 ==> d[k] == Symbol(q[k])
    ensures FourSymbols(d) && Sextets4(d) == q
  {
    hide Symbol, DecodeTable;
    forall k | 0 <= k < 4 ensures DecodeTable(d[k]) == q[k] { TablesAgree(q[k], ' '); }
  }

  lemma GroupOfPrefix(r: seq<byte>, rest: seq<byte>)
    requires |r| == 3
    ensures Group(r + rest) == Group(r)
  {
  }

  /** Text that a strict decoder accepts is the encoding of what it returns, used to the end. */
  lemma {:induction false} EncodeStrictlyDecoded(d: string)
    requires Decode(DO_STRICT, d).success
    ensures Encode(Decode(DO_STRICT, d).result) == d && Decode(DO_STRICT, d).used == |d|
    decreases |d|
  {
    hide ScanFrom, Symbol, Group, UnusedBits, DecodeTable, QuantumBytes;
    if d != "" {
      var t := FirstQuantum(DO_STRICT, d, 0);
      StrictScan(d, Scan(0, [], 0, 0));
      if |t.sextets| < 4 {
        GroupOfQuantum(d, t.sextets);
        var r := QuantumBytes(t.sextets);
        assert r[|r|..] == [] && Encode(r) == Group(r) + Encode([]) == d[..4] == d;
      } else {
        assert UnusedBits(t.sextets) == 0 by { NoUnusedBits(t.sextets); }
        GroupOfQuantum(d, t.sextets);
        SymbolsInFront(d, t.sextets);
        DecodeFour(DO_STRICT, d);
        EncodeStrictlyDecoded(d[4..]);
        var r, rest := QuantumBytes(t.sextets), Decode(DO_STRICT, d[4..]).result;
        GroupOfPrefix(r, rest);
        assert (r + rest)[3..] == rest && d == d[..4] + d[4..];
      }
    }
  }

  /** Strict decoding is exactly the inverse of encoding. */
  lemma StrictIsCanonical(d: string, x: seq<byte>)
    ensures Decode(DO_STRICT, d) == Decoded(true, x, |d|) <==> d == Encode(x)
    ensures Decode(DO_STRICT, d).success <==> d == Encode(Decode(DO_STRICT, d).result)
  {
    hide Decode, Encode;
    if Decode(DO_STRICT, d).success { EncodeStrictlyDecoded(d); }
    DecodeEncode(x, DO_STRICT);
    DecodeEncode(Decode(DO_STRICT, d).result, DO_STRICT);
  }

  /** Different byte strings have different encodings. */
  lemma EncodeInjective(x: seq<byte>, y: seq<byte>)
    requires Encode(x) == Encode(y)
    ensures x == y
  {
    DecodeEncode(x, DO_STRICT);
    DecodeEncode(y, DO_STRICT);
  }

  // ---- Tolerant decoding sees the symbols only ---------------------------

  /** The sextets of the alphabet characters of a text, junk and padding skipped. */
  function SextetsOf(d: string): seq<sextet> {
    if d == "" then []
    else (if IsSymbol(d[0]) then [DecodeTable(d[0])] else []) + SextetsOf(d[1..])
  }

  /** The bytes of a stream of sextets, and the bits left over. */
  function BytesOf(q: seq<sextet>): seq<byte> {
    if |q| < 4 then QuantumBytes(q) else QuantumBytes(q[..4]) + BytesOf(q[4..])
  }

  function LeftOver(q: seq<sextet>): byte {
    if |q| < 4 then UnusedBits(q) else LeftOver(q[4..])
  }

  lemma SextetsStep(d: string, k: nat)
    requires k < |d|
    ensures SextetsOf(d[k..]) == if IsSymbol(d[k]) then [DecodeTable(d[k])] + SextetsOf(d[k + 1..])
      else SextetsOf(d[k + 1..])
  {
    assert d[k..][1..] == d[k + 1..];
  }

  lemma OnlySextets(c: char)
    requires DecodeTable(c) !in {PAD, SPACE, ILLEGAL}
    ensures DecodeTable(c) < 64
  {
  }

  /** A tolerant scan takes the next sextets, whatever lies between them. */
  lemma {:induction false} TolerantScan(illegalPads: bool, d: string, s: Scan)
    requires s.dpos <= |d| && |s.sextets| <= 4 && (|s.sextets| == 4 ==> s.padLen == 0)
    ensures var t := ScanFrom(DO_PARSE_ANY, illegalPads, d, s);
      && s.sextets + SextetsOf(d[s.dpos..]) == t.sextets + SextetsOf(d[t.dpos..])
      && (|t.sextets| < 4 ==> t.dpos == |d|)
    decreases |d| - s.dpos
  {
    hide DecodeTable, SextetsOf;
    if |s.sextets| < 4 && s.dpos < |d| {
      var q := DecodeTable(d[s.dpos]);
      SextetsStep(d, s.dpos);
      var next := s.(dpos := s.dpos + 1);
      if q == ILLEGAL || q == SPACE || (q == PAD && (illegalPads || |s.sextets| < 2 || |s.sextets| + s.padLen >= 4)) {
        TolerantScan(illegalPads, d, next);
      } else if q == PAD {
        TolerantScan(illegalPads, d,
          next.(padLen := s.padLen + 1, padStart := if s.padLen == 0 then s.dpos else s.padStart));
      } else {
        assert q < 64 by { OnlySextets(d[s.dpos]); }
        TolerantScan(illegalPads, d, next.(sextets := s.sextets + [q], padLen := 0));
        assert s.sextets + ([q] + SextetsOf(d[s.dpos + 1..])) == s.sextets + [q] + SextetsOf(d[s.dpos + 1..]);
      }
    }
  }

  lemma NoBits()
    ensures ByteA(0, 0) == 0
  {
  }

  lemma NothingLeftOver()
    ensures BytesOf([]) == [] && LeftOver([]) == 0
  {
    hide ByteA, ByteB, ByteC;
    NoBits();
  }

  /** Tolerant decoding is a function of the sextets alone, with the success of DO_LAX. */
  lemma {:induction false} TolerantDecode(flags: Flags, d: string, k: nat)
    requires k <= |d| && flags.parse == DO_PARSE_ANY
    ensures DecodeFrom(flags, d, k).result == BytesOf(SextetsOf(d[k..]))
    ensures flags.pad != DO_PAD_YES && flags.term == DO_TERM_CHAR ==>
      (DecodeFrom(flags, d, k).success <==> LeftOver(SextetsOf(d[k..])) == 0)
    decreases |d| - k
  {
    hide ScanFrom, QuantumBytes, UnusedBits, DecodeTable;
    if k == |d| {
      NothingLeftOver();
    } else {
      var t := FirstQuantum(flags, d, k);
      TolerantScan(flags.pad == DO_PAD_NO, d, Scan(k, [], 0, 0));
      QuantumAdvances(flags, d, k);
      var q := SextetsOf(d[k..]);
      assert [] + q == q;
      if |t.sextets| == 4 {
        TolerantDecode(flags, d, t.dpos);
        assert q[..4] == t.sextets && q[4..] == SextetsOf(d[t.dpos..]);
      } else {
        assert SextetsOf(d[t.dpos..]) == [];
        assert q == t.sextets;
      }
    }
  }

  /** Under DO_PARSE_ANY the bytes depend on nothing but the alphabet characters. */
  lemma BytesDependOnSymbolsOnly(flags: Flags, d: string, e: string)
    requires flags.parse == DO_PARSE_ANY && SextetsOf(d) == SextetsOf(e)
    ensures Decode(flags, d).result == Decode(flags, e).result
    ensures Decode(DO_LAX, d).success <==> Decode(DO_LAX, e).success
  {
    TolerantDecode(flags, d, 0);
    TolerantDecode(flags, e, 0);
    TolerantDecode(DO_LAX, d, 0);
    TolerantDecode(DO_LAX, e, 0);
    assert d[0..] == d && e[0..] == e;
  }

  /** Junk put anywhere into an encoding does no harm to a lax decoder. */
  lemma JunkIsIgnored(x: seq<byte>, d: string)
    requires SextetsOf(d) == SextetsOf(Encode(x))
    ensures Decode(DO_LAX, d).success && Decode(DO_LAX, d).result == x
  {
    DecodeEncode(x, DO_LAX);
    BytesDependOnSymbolsOnly(DO_LAX, d, Encode(x));
  }

  /** Inserting a character outside the alphabet leaves the sextets as they are. */
  lemma {:induction false} InsertJunk(d: string, i: nat, junk: char)
    requires i <= |d| && !IsSymbol(junk)
    ensures SextetsOf(d[..i] + [junk] + d[i..]) == SextetsOf(d)
  {
    var e := d[..i] + [junk] + d[i..];
    if i == 0 {
      assert e[1..] == d;
    } else {
      InsertJunk(d[1..], i - 1, junk);
      assert e[1..] == d[1..][..i - 1] + [junk] + d[1..][i - 1..];
    }
  }

  // ---- Every verdict -----------------------------------------------------

  lemma SextetsCons(c: char, s: string)
    ensures SextetsOf([c] + s) == (if IsSymbol(c) then [DecodeTable(c)] else []) + SextetsOf(s)
  {
    hide DecodeTable;
    assert ([c] + s)[1..] == s;
  }

  lemma NoSextets()
    ensures SextetsOf("") == []
  {
  }

  lemma {:induction false} SextetsConcat(a: string, b: string)
    ensures SextetsOf(a + b) == SextetsOf(a) + SextetsOf(b)
  {
    hide DecodeTable, SextetsOf, IsSymbol;
    if a == "" {
      assert a + b == b;
      NoSextets();
    } else {
      assert a == [a[0]] + a[1..] && a + b == [a[0]] + (a[1..] + b);
      SextetsCons(a[0], a[1..]);
      SextetsCons(a[0], a[1..] + b);
      SextetsConcat(a[1..], b);
    }
  }

  lemma SextetsSplit(d: string, i: nat, j: nat, k: nat)
    requires i <= j <= k <= |d|
    ensures SextetsOf(d[i..k]) == SextetsOf(d[i..j]) + SextetsOf(d[j..k])
  {
    SextetsConcat(d[i..j], d[j..k]);
    assert d[i..j] + d[j..k] == d[i..k];
  }

  lemma SextetsOfOne(d: string, i: nat)
    requires i < |d|
    ensures SextetsOf(d[i..i + 1]) == if IsSymbol(d[i]) then [DecodeTable(d[i])] else []
  {
    hide DecodeTable;
    assert d[i..i + 1] == [d[i]] && d[i..i + 1][1..] == "";
  }

  /** Where a scan stands: what it has read since start are the sextets between there and here, pads aside. */
  predicate HasTaken(d: string, start: nat, s: Scan) {
    && Proper(d, s) && start <= s.dpos && s.sextets == SextetsOf(d[start..s.dpos])
    && (s.padLen > 0 ==> start <= s.padStart <= s.dpos && SextetsOf(d[s.padStart..s.dpos]) == [])
  }

  lemma HasTakenNext(parse: Parse, illegalPads: bool, d: string, start: nat, s: Scan)
    requires HasTaken(d, start, s)
    ensures var r := ScanNext(parse, illegalPads, d, s); r.Some? ==> HasTaken(d, start, r.value)
  {
    hide DecodeTable, SextetsOf;
    var r := ScanNext(parse, illegalPads, d, s);
    if r.Some? {
      SextetsSplit(d, start, s.dpos, s.dpos + 1);
      SextetsOfOne(d, s.dpos);
      if r.value.padLen > 0 && s.padLen > 0 { SextetsSplit(d, s.padStart, s.dpos, s.dpos + 1); }
      if DecodeTable(d[s.dpos]) !in {PAD, SPACE, ILLEGAL} { OnlySextets(d[s.dpos]); }
    }
  }

  lemma {:induction false} ScanTakes(parse: Parse, illegalPads: bool, d: string, start: nat, s: Scan)
    requires HasTaken(d, start, s)
    ensures HasTaken(d, start, ScanFrom(parse, illegalPads, d, s))
    decreases |d| - s.dpos
  {
    hide ScanNext, SextetsOf;
    HasTakenNext(parse, illegalPads, d, start, s);
    match ScanNext(parse, illegalPads, d, s) {
      case None =>
      case Some(next) => ScanTakes(parse, illegalPads, d, start, next);
    }
  }

  /** The sextets up to the position a quantum leaves the decoder at, illegal pads rolled back. */
  lemma QuantumTakes(flags: Flags, d: string, k: nat)
    requires k <= |d|
    ensures var t := FirstQuantum(flags, d, k);
      Proper(d, t) && k <= After(t) <= t.dpos && t.sextets == SextetsOf(d[k..After(t)]) == SextetsOf(d[k..t.dpos])
  {
    hide ScanFrom, SextetsOf;
    var t := FirstQuantum(flags, d, k);
    assert d[k..k] == "" && SextetsOf("") == [] by { NoSextets(); }
    ScanTakes(flags.parse, flags.pad == DO_PAD_NO, d, k, Scan(k, [], 0, 0));
    if After(t) != t.dpos { SextetsSplit(d, k, t.padStart, t.dpos); }
  }

  /** Cutting four sextets off the front. */
  lemma BytesStep(q: seq<sextet>, rest: seq<sextet>)
    requires |q| == 4
    ensures BytesOf(q + rest) == QuantumBytes(q) + BytesOf(rest) && LeftOver(q + rest) == LeftOver(rest)
  {
    hide QuantumBytes, UnusedBits;
    assert (q + rest)[..4] == q && (q + rest)[4..] == rest;
  }

  lemma ShortBytes(q: seq<sextet>)
    requires |q| < 4
    ensures BytesOf(q) == QuantumBytes(q) && LeftOver(q) == UnusedBits(q)
  {
    hide QuantumBytes, UnusedBits;
  }

  /**
   * Under all 27 flag combinations: the bytes are those of the alphabet characters in the text
   * used, and, unless padding is required, decoding succeeds exactly when no stray bits are left
   * over (DO_TERM_CHAR and DO_TERM_BUFFER) and all of the text is used (DO_TERM_BUFFER).
   */
  lemma {:induction false} VerdictMeans(flags: Flags, d: string, k: nat)
    requires k <= |d|
    ensures var r := DecodeFrom(flags, d, k);
      && k <= r.used <= |d| && r.result == BytesOf(SextetsOf(d[k..r.used]))
      && var good := (flags.term != DO_TERM_ANY ==> LeftOver(SextetsOf(d[k..r.used])) == 0)
           && (flags.term == DO_TERM_BUFFER ==> r.used == |d|);
         (r.success ==> good) && (good && flags.pad != DO_PAD_YES ==> r.success)
    decreases |d| - k
  {
    hide ScanFrom, QuantumBytes, UnusedBits, SextetsOf, BytesOf, LeftOver, DecodeFrom, FirstQuantum;
    if k == |d| {
      NothingToDecode(flags, d);
      NoSextets();
      NothingLeftOver();
      assert d[k..k] == "";
    } else {
      DecodeStep(flags, d, k);
      QuantumTakes(flags, d, k);
      var t := FirstQuantum(flags, d, k);
      if |t.sextets| < 4 {
        ShortBytes(t.sextets);
      } else {
        QuantumAdvances(flags, d, k);
        VerdictMeans(flags, d, t.dpos);
        var r := DecodeFrom(flags, d, k);
        SextetsSplit(d, k, t.dpos, r.used);
        BytesStep(t.sextets, SextetsOf(d[t.dpos..r.used]));
      }
    }
  }

  // ---- Without pads ------------------------------------------------------

  /** The text with another character for its pads. */
  function Repad(d: string, c: char): (e: string)
    ensures |e| == |d| && forall i :: 0 <= i < |d| ==> e[i] == if d[i] == '=' then c else d[i]
  {
    seq(|d|, i requires 0 <= i < |d| => if d[i] == '=' then c else d[i])
  }

  lemma {:induction false} ScanRepadded(parse: Parse, d: string, c: char, s: Scan)
    requires Proper(d, s) && DecodeTable(c) == ILLEGAL
    ensures ScanFrom(parse, true, Repad(d, c), s) == ScanFrom(parse, true, d, s)
    decreases |d| - s.dpos
  {
    hide DecodeTable;
    var e := Repad(d, c);
    TablesMean(0, c);
    if s.dpos < |d| { TablesMean(0, d[s.dpos]); }
    assert ScanNext(parse, true, e, s) == ScanNext(parse, true, d, s);
    match ScanNext(parse, true, d, s) {
      case None =>
      case Some(next) => ScanRepadded(parse, d, c, next);
    }
  }

  /** Under DO_PAD_NO a pad is an illegal character like any other. */
  lemma {:induction false} PadIsIllegal(flags: Flags, d: string, c: char, k: nat)
    requires k <= |d| && flags.pad == DO_PAD_NO && DecodeTable(c) == ILLEGAL
    ensures DecodeFrom(flags, Repad(d, c), k) == DecodeFrom(flags, d, k)
    decreases |d| - k
  {
    hide DecodeTable, ScanFrom, QuantumBytes, UnusedBits;
    ScanRepadded(flags.parse, d, c, Scan(k, [], 0, 0));
    if k < |d| {
      var t := FirstQuantum(flags, d, k);
      QuantumAdvances(flags, d, k);
      if |t.sextets| == 4 { PadIsIllegal(flags, d, c, t.dpos); }
    }
  }

  /** An encoding without its pads. */
  function Bare(x: seq<byte>): string {
    if |x| < 3 then if x == [] then "" else Group(x)[..|x| + 1] else Group(x) + Bare(x[3..])
  }

  lemma {:induction false} BareMeans(x: seq<byte>)
    ensures Encode(x) == Bare(x) + (if |x| % 3 == 1 then "==" else if |x| % 3 == 2 then "=" else "")
  {
    if |x| >= 3 {
      hide Group;
      BareMeans(x[3..]);
      assert |x[3..]| % 3 == |x| % 3;
    } else {
      hide Symbol;
      assert x != [] ==> x[|x|..] == [];
    }
  }

  lemma BareQuantum(flags: Flags, x: seq<byte>)
    requires 1 <= |x| <= 2
    ensures Decode(flags, Group(x)[..|x| + 1]) == Decoded(flags.pad != DO_PAD_YES, x, |x| + 1)
  {
    hide First, Second, Third, ByteA, ByteB, ByteC, Symbol, DecodeTable, ScanFrom;
    var d := Group(x)[..|x| + 1];
    var b := if |x| == 2 then x[1] else 0;
    var p, q, r := First(x[0]), Second(x[0], b), Third(b, 0);
    TablesAgree(p, ' ');
    TablesAgree(q, ' ');
    TablesAgree(r, ' ');
    var illegalPads := flags.pad == DO_PAD_NO;
    ScanTwo(flags.parse, illegalPads, d, Scan(0, [], 0, 0));
    assert [] + [p, q] == [p, q];
    if |x| == 2 {
      ScanSymbol(flags.parse, illegalPads, d, Scan(2, [p, q], 0, 0));
      assert [p, q] + [r] == [p, q, r];
      ScanStops(flags.parse, illegalPads, d, Scan(3, [p, q, r], 0, 0));
    } else {
      ScanStops(flags.parse, illegalPads, d, Scan(2, [p, q], 0, 0));
    }
    ByteAOfSextets(x[0], b);
    ByteBOfSextets(x[0], b, 0);
    UnusedAreZero(x[0], b);
  }

  /** Where padding is not required, an encoding without pads is as good as one with them; where it is, it is not. */
  lemma {:induction false} DecodeBare(x: seq<byte>, flags: Flags)
    ensures Decode(flags, Bare(x)) == Decoded(flags.pad != DO_PAD_YES || |x| % 3 == 0, x, |Bare(x)|)
  {
    hide Symbol, DecodeTable, Group, QuantumBytes, ScanFrom;
    if |x| >= 3 {
      DecodeBare(x[3..], flags);
      GroupIsSymbols(x);
      var d := Bare(x);
      assert d == Group(x) + Bare(x[3..]);
      assert d[4..] == Bare(x[3..]) && Sextets4(d) == Sextets4(Group(x));
      DecodeFour(flags, d);
      assert x == x[..3] + x[3..] && |x[3..]| % 3 == |x| % 3;
    } else if x != [] {
      BareQuantum(flags, x);
    }
  }

  // ---- White space -------------------------------------------------------

  /** The text without its white space. */
  function Squeeze(d: string): string {
    if d == "" then "" else (if IsBlank(d[0]) then "" else [d[0]]) + Squeeze(d[1..])
  }

  lemma SqueezeStep(d: string, k: nat)
    requires k < |d|
    ensures Squeeze(d[k..]) == if IsBlank(d[k]) then Squeeze(d[k + 1..]) else [d[k]] + Squeeze(d[k + 1..])
  {
    assert d[k..][1..] == d[k + 1..];
  }

  /** Scans of a text and of its squeezed form that have got equally far. */
  predicate Abreast(d: string, s: Scan, e: string, u: Scan) {
    && Proper(d, s) && u.dpos <= |e| && Squeeze(d[s.dpos..]) == e[u.dpos..]
    && u.sextets == s.sextets && u.padLen == s.padLen
    && (s.padLen > 0 ==> s.padStart < |d| && u.padStart < |e|)
  }

  lemma SqueezeEmpty(d: string, k: nat)
    requires k <= |d|
    ensures k == |d| ==> Squeeze(d[k..]) == ""
  {
  }

  /** White space is passed over on one side; anything else is treated alike on both. */
  lemma WhiteStep(illegalPads: bool, d: string, s: Scan, e: string, u: Scan)
    requires Abreast(d, s, e, u) && |s.sextets| < 4
    ensures var n, m := ScanNext(DO_PARSE_WHITE, illegalPads, d, s), ScanNext(DO_PARSE_STRICT, illegalPads, e, u);
      if s.dpos < |d| && IsBlank(d[s.dpos]) then n.Some? && Abreast(d, n.value, e, u)
      else if n.Some? then m.Some? && Abreast(d, n.value, e, m.value)
      else m.None? && (s.dpos == |d| <==> u.dpos == |e|)
  {
    hide DecodeTable, Squeeze;
    if s.dpos < |d| {
      SqueezeStep(d, s.dpos);
      if DecodeTable(d[s.dpos]) != SPACE {
        assert e[u.dpos..][0] == d[s.dpos] && e[u.dpos..][1..] == e[u.dpos + 1..];
      }
    } else {
      SqueezeEmpty(d, s.dpos);
    }
  }

  /** A scan that skips white space stays abreast of a strict one that has none to skip. */
  lemma {:induction false} WhiteScan(illegalPads: bool, d: string, s: Scan, e: string, u: Scan)
    requires Abreast(d, s, e, u)
    ensures var t, v := ScanFrom(DO_PARSE_WHITE, illegalPads, d, s), ScanFrom(DO_PARSE_STRICT, illegalPads, e, u);
      && Abreast(d, t, e, v)
      && (|t.sextets| < 4 ==> (t.dpos == |d| <==> v.dpos == |e|))
    decreases |d| - s.dpos
  {
    hide DecodeTable, Squeeze;
    if |s.sextets| < 4 {
      WhiteStep(illegalPads, d, s, e, u);
      var n, m := ScanNext(DO_PARSE_WHITE, illegalPads, d, s), ScanNext(DO_PARSE_STRICT, illegalPads, e, u);
      hide ScanNext;
      if n.Some? { WhiteScan(illegalPads, d, n.value, e, if IsBlank(d[s.dpos]) then u else m.value); }
    }
  }

  /** The squeezed text is whole quanta without padding, and white space ends the text. */
  predicate EndsInBlanks(d: string, e: string) {
    d != "" && IsBlank(d[|d| - 1]) && |e| % 4 == 0 && forall c :: c in e ==> IsSymbol(c)
  }

  /** A scan that completes a quantum has just read a symbol; a strict one read nothing else. */
  lemma {:induction false} FullQuantum(parse: Parse, illegalPads: bool, d: string, s: Scan)
    requires s.dpos <= |d| && |s.sextets| < 4
    ensures var t := ScanFrom(parse, illegalPads, d, s);
      |t.sextets| == 4 ==>
        && t.dpos > s.dpos && IsSymbol(d[t.dpos - 1])
        && (parse == DO_PARSE_STRICT ==> s.padLen == 0 && t.dpos == s.dpos + 4 - |s.sextets|)
        && (parse == DO_PARSE_STRICT ==> forall i :: s.dpos <= i < t.dpos ==> IsSymbol(d[i]))
    decreases |d| - s.dpos
  {
    hide DecodeTable;
    var next := ScanNext(parse, illegalPads, d, s);
    if next.Some? {
      if |next.value.sextets| > |s.sextets| { OnlySextets(d[s.dpos]); }
      if |next.value.sextets| < 4 { FullQuantum(parse, illegalPads, d, next.value); }
    }
  }

  /** Four symbols ahead make a full quantum. */
  lemma SymbolsMakeQuantum(flags: Flags, e: string, m: nat)
    requires m + 4 <= |e| && forall i :: m <= i < m + 4 ==> IsSymbol(e[i])
    ensures |FirstQuantum(flags, e, m).sextets| == 4
  {
    hide DecodeTable;
    ScanTwo(flags.parse, flags.pad == DO_PAD_NO, e, Scan(m, [], 0, 0));
    ScanTwo(flags.parse, flags.pad == DO_PAD_NO, e, Scan(m + 2, [] + [DecodeTable(e[m]), DecodeTable(e[m + 1])], 0, 0));
  }

  lemma {:induction false} SqueezedAway(d: string)
    requires d != "" && Squeeze(d) == ""
    ensures IsBlank(d[|d| - 1])
  {
    if |d| > 1 { SqueezedAway(d[1..]); }
  }

  /** Cutting off a full quantum on both sides does not change how the texts end. */
  lemma EndsAlike(d: string, k: nat, k': nat, e: string, m: nat)
    requires k < k' <= |d| && m + 4 <= |e| && IsSymbol(d[k' - 1])
    requires forall i :: m <= i < m + 4 ==> IsSymbol(e[i])
    ensures EndsInBlanks(d[k..], e[m..]) <==> EndsInBlanks(d[k'..], e[m + 4..])
  {
    hide DecodeTable;
    var rest, rest' := e[m..], e[m + 4..];
    assert rest == e[m..m + 4] + rest';
    assert forall c :: c in e[m..m + 4] ==> IsSymbol(c);
    assert d[k..][|d[k..]| - 1] == d[|d| - 1];
    if k' < |d| { assert d[k'..][|d[k'..]| - 1] == d[|d| - 1]; }
  }

  lemma NoBlanksAtEnd(d: string, e: string)
    requires d == ""
    ensures !EndsInBlanks(d, e)
  {
  }

  lemma ShortQuantumEnds(flags: Flags, d: string, e: string, m: nat)
    requires m < |e| && |FirstQuantum(flags, e, m).sextets| < 4
    ensures !EndsInBlanks(d, e[m..])
  {
    hide DecodeTable, ScanFrom;
    if EndsInBlanks(d, e[m..]) {
      assert |e[m..]| >= 4;
      forall i | m <= i < m + 4 ensures IsSymbol(e[i]) { assert e[i] == e[m..][i - m]; }
      SymbolsMakeQuantum(flags, e, m);
    }
  }

  /** White space alone reads as an empty quantum. */
  lemma BlanksOnly(strict: Flags, d: string, k: nat, e: string, m: nat)
    requires k < |d| && m == |e| && Squeeze(d[k..]) == ""
    ensures EndsInBlanks(d[k..], e[m..])
    ensures FirstQuantum(strict, e, m) == Scan(m, [], 0, 0)
    ensures QuantumBytes([]) == [] && UnusedBits([]) == 0
  {
    SqueezedAway(d[k..]);
    assert e[m..] == "";
  }

  /**
   * Ignoring white space is decoding strictly without it: the same bytes always, and the same
   * verdict except that where padding is required, white space after whole quanta is refused.
   */
  lemma {:induction false} WhiteDecode(pad: Pad, term: Term, d: string, k: nat, e: string, m: nat)
    requires k <= |d| && m <= |e| && Squeeze(d[k..]) == e[m..]
    ensures var w, s := DecodeFrom(Flags(DO_PARSE_WHITE, pad, term), d, k),
      DecodeFrom(Flags(DO_PARSE_STRICT, pad, term), e, m);
      && w.result == s.result
      && (w.success <==> s.success && !(pad == DO_PAD_YES && EndsInBlanks(d[k..], e[m..])))
    decreases |d| - k
  {
    hide DecodeTable, Squeeze, ScanFrom, QuantumBytes, UnusedBits, EndsInBlanks;
    var white, strict := Flags(DO_PARSE_WHITE, pad, term), Flags(DO_PARSE_STRICT, pad, term);
    if k == |d| {
      SqueezeEmpty(d, k);
      NoBlanksAtEnd(d[k..], e[m..]);
    } else {
      var illegalPads := pad == DO_PAD_NO;
      var t, v := FirstQuantum(white, d, k), FirstQuantum(strict, e, m);
      WhiteScan(illegalPads, d, Scan(k, [], 0, 0), e, Scan(m, [], 0, 0));
      if |t.sextets| == 4 {
        FullQuantum(DO_PARSE_WHITE, illegalPads, d, Scan(k, [], 0, 0));
        FullQuantum(DO_PARSE_STRICT, illegalPads, e, Scan(m, [], 0, 0));
        WhiteDecode(pad, term, d, t.dpos, e, v.dpos);
        EndsAlike(d, k, t.dpos, e, m);
      } else if m < |e| {
        ShortQuantumEnds(strict, d[k..], e, m);
      } else {
        BlanksOnly(strict, d, k, e, m);
      }
    }
  }

  /** The two ways of dealing with white space, on whole texts. */
  lemma WhiteIsStrictWithoutBlanks(pad: Pad, term: Term, d: string)
    ensures var w, s := Decode(Flags(DO_PARSE_WHITE, pad, term), d),
      Decode(Flags(DO_PARSE_STRICT, pad, term), Squeeze(d));
      && w.result == s.result
      && (w.success <==> s.success && !(pad == DO_PAD_YES && EndsInBlanks(d, Squeeze(d))))
  {
    assert d[0..] == d && Squeeze(d)[0..] == Squeeze(d);
    WhiteDecode(pad, term, d, 0, Squeeze(d), 0);
  }

  lemma EncodeZeros()
    ensures Encode([0, 0, 0]) == "AAAA"
  {
    var x: seq<byte> := [0, 0, 0];
    assert Group(x) == "AAAA" && x[3..] == [] && Encode([]) == "";
  }

  lemma SqueezeBlank()
    ensures Squeeze("AAAA ") == "AAAA" && EndsInBlanks("AAAA ", "AAAA")
  {
    hide Squeeze;
    var d := "AAAA ";
    assert d[0..] == d && d[5..] == "" && Squeeze("") == "" by { SqueezeEmpty(d, 5); }
    SqueezeStep(d, 4);
    SqueezeStep(d, 3);
    SqueezeStep(d, 2);
    SqueezeStep(d, 1);
    SqueezeStep(d, 0);
  }

  /** A blank behind a whole quantum: refused, where the same text without it is accepted. */
  lemma BlankBehindQuantum(term: Term)
    ensures !Decode(Flags(DO_PARSE_WHITE, DO_PAD_YES, term), "AAAA ").success
    ensures Decode(Flags(DO_PARSE_STRICT, DO_PAD_YES, term), "AAAA") == Decoded(true, [0, 0, 0], 4)
  {
    hide Decode, Encode, Squeeze, EndsInBlanks;
    EncodeZeros();
    DecodeEncode([0, 0, 0], Flags(DO_PARSE_STRICT, DO_PAD_YES, term));
    SqueezeBlank();
    WhiteIsStrictWithoutBlanks(DO_PAD_YES, term, "AAAA ");
  }
}
