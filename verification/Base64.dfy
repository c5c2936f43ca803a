/**
 * The Base64 encoder and its tolerant decoder (sections 3.5 and 4 of RFC 4648). Shifts of
 * unsigned bytes are written as multiplication, division and remainder, and the "or" of
 * disjoint bits as a sum.
 */
module Base64 {
  import opened Util
  import opened ByteOrder

  const PAD: byte := 0xFD
  const SPACE: byte := 0xFE
  const ILLEGAL: byte := 0xFF

  datatype Parse = DO_PARSE_STRICT | DO_PARSE_WHITE | DO_PARSE_ANY
  datatype Pad = DO_PAD_YES | DO_PAD_ANY | DO_PAD_NO
  datatype Term = DO_TERM_BUFFER | DO_TERM_CHAR | DO_TERM_ANY
  datatype Flags = Flags(parse: Parse, pad: Pad, term: Term)

  const DO_STRICT: Flags := Flags(DO_PARSE_STRICT, DO_PAD_YES, DO_TERM_BUFFER)
  const DO_LAX: Flags := Flags(DO_PARSE_ANY, DO_PAD_ANY, DO_TERM_CHAR)

  type sextet = n: nat | n < 64

  const ALPHABET: string := "ABCDEFGHIJKLMNOPQRSTUVWXYZ" + "abcdefghijklmnopqrstuvwxyz" + "0123456789" + "+/"

  // ---- Tables ------------------------------------------------------------

  /** The encode table. */
  function Symbol(v: sextet): char {
    if v < 26 then ('A' as int + v) as char
    else if v < 52 then ('a' as int + (v - 26)) as char
    else if v < 62 then ('0' as int + (v - 52)) as char
    else if v == 62 then '+' else '/'
  }

  /** The decode table: a sextet, or PAD, SPACE or ILLEGAL. */
  function DecodeTable(c: char): byte {
    if 'A' <= c <= 'Z' then c as int - 'A' as int
    else if 'a' <= c <= 'z' then c as int - 'a' as int + 26
    else if '0' <= c <= '9' then c as int - '0' as int + 52
    else if c == '+' then 62
    else if c == '/' then 63
    else if c == '=' then PAD
    else if c == ' ' || 9 <= c as int <= 13 then SPACE
    else ILLEGAL
  }

  predicate IsSymbol(c: char) { DecodeTable(c) < 64 }

  predicate IsBlank(c: char) { DecodeTable(c) == SPACE }

  lemma TablesAgree(v: sextet, c: char)
    ensures DecodeTable(Symbol(v)) == v
    ensures IsSymbol(c) ==> Symbol(DecodeTable(c)) == c
  {
  }

  lemma UpperPart(k: nat)
    requires k < 26
    ensures ALPHABET[k] == ('A' as int + k) as char
  {
  }

  lemma LowerPart(k: nat)
    requires 26 <= k < 52
    ensures ALPHABET[k] == ('a' as int + (k - 26)) as char
  {
  }

  lemma AlphabetParts()
    ensures |ALPHABET| == 64
    ensures forall k :: 0 <= k < 26 ==> ALPHABET[k] == ('A' as int + k) as char
    ensures forall k :: 26 <= k < 52 ==> ALPHABET[k] == ('a' as int + (k - 26)) as char
    ensures forall k :: 52 <= k < 62 ==> ALPHABET[k] == ('0' as int + (k - 52)) as char
    ensures ALPHABET[62] == '+' && ALPHABET[63] == '/'
  {
    forall k | 0 <= k < 26 ensures ALPHABET[k] == ('A' as int + k) as char { UpperPart(k); }
    forall k | 26 <= k < 52 ensures ALPHABET[k] == ('a' as int + (k - 26)) as char { LowerPart(k); }
  }

  /** The encode table is the alphabet, and the decode table tells its characters, pads and blanks from all others. */
  lemma TablesMean(v: sextet, c: char)
    ensures |ALPHABET| == 64 && Symbol(v) == ALPHABET[v] && DecodeTable(ALPHABET[v]) == v
    ensures IsSymbol(c) <==> c in ALPHABET
    ensures DecodeTable(c) == PAD <==> c == '='
    ensures DecodeTable(c) == SPACE <==> c in {' ', '\t', '\n', '\U{0B}', '\U{0C}', '\r'}
    ensures !IsSymbol(c) && c !in {'=', ' ', '\t', '\n', '\U{0B}', '\U{0C}', '\r'} ==> DecodeTable(c) == ILLEGAL
  {
    AlphabetParts();
    if IsSymbol(c) { assert ALPHABET[DecodeTable(c)] == c; }
  }

  // ---- Encoding ----------------------------------------------------------

  // The four sextets of three bytes: (a << 4) & 0x3f is a % 4 * 16, and so on.
  function First(a: byte): sextet { a / 4 }
  function Second(a: byte, b: byte): sextet { (a % 4) as nat * 16 + b / 16 }
  function Third(b: byte, c: byte): sextet { (b % 16) as nat * 4 + c / 64 }
  function Fourth(c: byte): sextet { c % 64 }

  /** The sextets are the digits to base 64 of the three bytes taken as one number. */
  lemma SextetsMean(a: byte, b: byte, c: byte)
    ensures var n: nat := a as nat * 0x1_0000 + b as nat * 0x100 + c;
      && First(a) == n / 0x4_0000 && Second(a, b) == n / 0x1000 % 64
      && Third(b, c) == n / 64 % 64 && Fourth(c) == n % 64
  {
    var n: nat := a as nat * 0x1_0000 + b as nat * 0x100 + c;
    assert n / 64 == a as nat * 0x400 + b as nat * 4 + c / 64;
    assert n / 0x1000 == a as nat * 16 + b / 16;
    assert n / 0x4_0000 == a / 4;
  }

  // The three bytes of four sextets.
  function ByteA(p: sextet, q: sextet): byte { p as nat * 4 + q / 16 }
  function ByteB(q: sextet, r: sextet): byte { (q % 16) as nat * 16 + r / 4 }
  function ByteC(r: sextet, s: sextet): byte { (r % 4) as nat * 64 + s }

  lemma ByteAOfSextets(a: byte, b: byte)
    ensures ByteA(First(a), Second(a, b)) == a
  {
  }

  lemma ByteBOfSextets(a: byte, b: byte, c: byte)
    ensures ByteB(Second(a, b), Third(b, c)) == b
  {
    assert Second(a, b) % 16 == b / 16;
    assert Third(b, c) / 4 == b % 16;
  }

  lemma ByteCOfSextets(b: byte, c: byte)
    ensures ByteC(Third(b, c), Fourth(c)) == c
  {
    assert Third(b, c) % 4 == c / 64;
  }

  lemma FirstOfBytes(p: sextet, q: sextet)
    ensures First(ByteA(p, q)) == p && ByteA(p, q) % 4 == q / 16
  {
  }

  lemma SecondOfBytes(p: sextet, q: sextet, r: sextet)
    ensures Second(ByteA(p, q), ByteB(q, r)) == q && ByteB(q, r) % 16 == r / 4
  {
    FirstOfBytes(p, q);
    assert ByteB(q, r) / 16 == q % 16;
  }

  lemma ThirdOfBytes(q: sextet, r: sextet, s: sextet)
    ensures Third(ByteB(q, r), ByteC(r, s)) == r && Fourth(ByteC(r, s)) == s
  {
    SecondOfBytes(0, q, r);
    assert ByteC(r, s) / 64 == r % 4;
  }

  function ByteAt(x: seq<byte>, i: nat): byte { if i < |x| then x[i] else 0 }

  /** Three bytes as one number. */
  function Triple(x: seq<byte>, i: nat): nat {
    ByteAt(x, i) as nat * 0x1_0000 + ByteAt(x, i + 1) as nat * 0x100 + ByteAt(x, i + 2)
  }

  /** Characters 4k to 4k + 3 stand for bytes 3k to 3k + 2: four digits to base 64, with pads for missing bytes. */
  predicate StandsFor(text: string, x: seq<byte>, k: nat)
    requires |text| >= 4 * k + 4
  {
    var n := Triple(x, 3 * k);
    && n < 0x100_0000 && |ALPHABET| == 64
    && text[4 * k] == ALPHABET[n / 0x4_0000]
    && text[4 * k + 1] == ALPHABET[n / 0x1000 % 64]
    && text[4 * k + 2] == (if 3 * k + 1 < |x| then ALPHABET[n / 64 % 64] else '=')
    && text[4 * k + 3] == (if 3 * k + 2 < |x| then ALPHABET[n % 64] else '=')
  }

  /** The four characters of up to three bytes. */
  function Group(x: seq<byte>): (text: string)
    requires x != []
    ensures |text| == 4
  {
    if |x| == 1 then [Symbol(First(x[0])), Symbol(Second(x[0], 0)), '=', '=']
    else if |x| == 2 then [Symbol(First(x[0])), Symbol(Second(x[0], x[1])), Symbol(Third(x[1], 0)), '=']
    else [Symbol(First(x[0])), Symbol(Second(x[0], x[1])), Symbol(Third(x[1], x[2])), Symbol(Fourth(x[2]))]
  }

  function Encode(x: seq<byte>): string {
    if x == [] then "" else Group(x) + Encode(x[Min(3, |x|)..])
  }

  lemma {:induction false} EncodeLength(x: seq<byte>)
    ensures |Encode(x)| == (|x| + 2) / 3 * 4
  {
    hide Group;
    if x != [] { EncodeLength(x[Min(3, |x|)..]); }
  }

  lemma GroupMeans(x: seq<byte>)
    requires x != []
    ensures StandsFor(Group(x), x, 0)
  {
    hide Symbol, First, Second, Third, Fourth;
    var a, b, c := ByteAt(x, 0), ByteAt(x, 1), ByteAt(x, 2);
    SextetsMean(a, b, c);
    TablesMean(First(a), '=');
    TablesMean(Second(a, b), '=');
    TablesMean(Third(b, c), '=');
    TablesMean(Fourth(c), '=');
  }

  lemma StandsInFront(group: string, later: string, x: seq<byte>)
    requires |group| == 4 && StandsFor(group, x, 0)
    ensures StandsFor(group + later, x, 0)
  {
  }

  lemma TripleBehind(x: seq<byte>, i: nat)
    requires |x| >= 3
    ensures Triple(x[3..], i) == Triple(x, i + 3)
  {
    assert ByteAt(x[3..], i) == ByteAt(x, i + 3);
    assert ByteAt(x[3..], i + 1) == ByteAt(x, i + 4);
    assert ByteAt(x[3..], i + 2) == ByteAt(x, i + 5);
  }

  lemma StandsBehind(group: string, later: string, x: seq<byte>, k: nat)
    requires |group| == 4 && |x| >= 3 && |later| >= 4 * k + 4 && StandsFor(later, x[3..], k)
    ensures StandsFor(group + later, x, k + 1)
  {
    hide Triple;
    var text := group + later;
    assert text[4 * k + 4] == later[4 * k] && text[4 * k + 5] == later[4 * k + 1];
    assert text[4 * k + 6] == later[4 * k + 2] && text[4 * k + 7] == later[4 * k + 3];
    TripleBehind(x, 3 * k);
  }

  lemma EncodeStep(x: seq<byte>)
    requires x != []
    ensures Encode(x) == Group(x) + Encode(x[Min(3, |x|)..])
  {
  }

  /** Every group of the encoding is what it should be. */
  lemma {:induction false} EncodeMeans(x: seq<byte>, k: nat)
    requires 3 * k < |x|
    ensures |Encode(x)| == (|x| + 2) / 3 * 4 && StandsFor(Encode(x), x, k)
    decreases |x|
  {
    hide Group, Encode, StandsFor;
    EncodeLength(x);
    EncodeStep(x);
    var rest := x[Min(3, |x|)..];
    var later := Encode(rest);
    if k == 0 {
      GroupMeans(x);
      StandsInFront(Group(x), later, x);
    } else {
      EncodeMeans(rest, k - 1);
      StandsBehind(Group(x), later, x, k - 1);
    }
  }

  lemma NothingEncoded(x: seq<byte>)
    requires x == []
    ensures Encode(x) == ""
  {
  }

  lemma TextConcat(a: string, b: string, c: string)
    ensures a + (b + c) == a + b + c
  {
  }

  /** One round: reads up to three bytes from position start. */
  method EncodeGroup(data: seq<byte>, start: nat) returns (group: string, i: nat)
    requires start < |data|
    ensures i == start + Min(3, |data| - start) && group == Group(data[start..])
  {
    hide Symbol;
    i := start;
    var c: nat := First(data[i]);
    group := [Symbol(c)];
    c := (data[i] % 4) as nat * 16;
    i := i + 1;
    if i < |data| { c := c + data[i] / 16; }
    group := group + [Symbol(c)];
    if i < |data| {
      c := (data[i] % 16) as nat * 4;
      i := i + 1;
      if i < |data| { c := c + data[i] / 64; }
      group := group + [Symbol(c)];
    } else {
      group := group + ['='];
    }
    if i < |data| {
      group := group + [Symbol(data[i] % 64)];
      i := i + 1;
    } else {
      group := group + ['='];
    }
  }

  /** The encoder: four characters a round. */
  method EncodeFromArray(data: seq<byte>) returns (text: string)
    ensures text == Encode(data)
    ensures |text| == (|data| + 2) / 3 * 4
    ensures forall k: nat :: 3 * k < |data| ==> StandsFor(text, data, k)
  {
    hide Encode, Group, StandsFor;
    EncodeLength(data);
    forall k: nat | 3 * k < |data| ensures StandsFor(Encode(data), data, k) { EncodeMeans(data, k); }
    var i: nat := 0;
    text := "";
    assert data[0..] == data && "" + Encode(data) == Encode(data);
    while i < |data|
      invariant i <= |data|
      invariant text + Encode(data[i..]) == Encode(data)
    {
      ghost var rest := data[i..];
      EncodeStep(rest);
      var group;
      group, i := EncodeGroup(data, i);
      assert data[i..] == rest[Min(3, |rest|)..];
      TextConcat(text, group, Encode(data[i..]));
      text := text + group;
    }
    NothingEncoded(data[i..]);
    assert text + "" == text;
  }

  // ---- Decoding ----------------------------------------------------------

  /** Where GetNextQuantum is: sextets read, pads read after them, and where those began. */
  datatype Scan = Scan(dpos: nat, sextets: seq<sextet>, padLen: nat, padStart: nat)

  predicate Proper(data: string, s: Scan) {
    s.dpos <= |data| && |s.sextets| <= 4 && (|s.sextets| == 4 ==> s.padLen == 0)
  }

  /** One round of GetNextQuantum's loop; None where it stops. */
  function ScanNext(parse: Parse, illegalPads: bool, data: string, s: Scan): (r: Option<Scan>)
    requires Proper(data, s)
    ensures r.Some? ==> Proper(data, r.value) && r.value.dpos == s.dpos + 1
  {
    if |s.sextets| == 4 || s.dpos == |data| then None
    else
      var q := DecodeTable(data[s.dpos]);
      var next := s.(dpos := s.dpos + 1);
      var skipped := if parse == DO_PARSE_ANY then Some(next) else None;
      if q == ILLEGAL || (illegalPads && q == PAD) then skipped
      else if q == SPACE then if parse == DO_PARSE_STRICT then None else Some(next)
      else if q == PAD then
        if |s.sextets| < 2 || |s.sextets| + s.padLen >= 4 then skipped
        else Some(next.(padLen := s.padLen + 1, padStart := if s.padLen == 0 then s.dpos else s.padStart))
      else if s.padLen > 0 && parse != DO_PARSE_ANY then None
      else Some(next.(sextets := s.sextets + [q], padLen := 0))
  }

  /** The scanning loop of GetNextQuantum. */
  function ScanFrom(parse: Parse, illegalPads: bool, data: string, s: Scan): (t: Scan)
    requires Proper(data, s)
    ensures s.dpos <= t.dpos && Proper(data, t)
    decreases |data| - s.dpos
  {
    match ScanNext(parse, illegalPads, data, s)
    case None => s
    case Some(next) => ScanFrom(parse, illegalPads, data, next)
  }

  predicate Padded(t: Scan) { |t.sextets| + t.padLen == 4 }

  /** The position after a quantum: illegal padding is rolled back. */
  function After(t: Scan): nat { if !Padded(t) && t.padLen > 0 then t.padStart else t.dpos }

  /** The k-th sextet of a quantum, zero when it is missing. */
  function At(q: seq<sextet>, k: nat): sextet { if k < |q| then q[k] else 0 }

  /** The bytes a quantum of up to four sextets completes. */
  function QuantumBytes(q: seq<sextet>): seq<byte> {
    (if |q| >= 2 then [ByteA(At(q, 0), At(q, 1))] else [])
    + (if |q| >= 3 then [ByteB(At(q, 1), At(q, 2))] else [])
    + (if |q| >= 4 then [ByteC(At(q, 2), At(q, 3))] else [])
  }

  /** The bits of a short quantum that no byte uses. */
  function UnusedBits(q: seq<sextet>): byte {
    if |q| < 2 then ByteA(At(q, 0), At(q, 1))
    else if |q| == 2 then ByteB(At(q, 1), At(q, 2))
    else if |q| == 3 then ByteC(At(q, 2), At(q, 3))
    else 0
  }

  datatype Decoded = Decoded(success: bool, result: seq<byte>, used: nat)

  /** What the decoder concludes from a quantum that ends the input. */
  predicate Accepts(flags: Flags, t: Scan, length: nat) {
    && (flags.term != DO_TERM_ANY ==> UnusedBits(t.sextets) == 0)
    && (flags.pad == DO_PAD_YES ==> Padded(t))
    && (flags.term == DO_TERM_BUFFER ==> After(t) == length)
  }

  function FirstQuantum(flags: Flags, data: string, dpos: nat): (t: Scan)
    requires dpos <= |data|
    ensures dpos <= t.dpos && Proper(data, t)
  {
    ScanFrom(flags.parse, flags.pad == DO_PAD_NO, data, Scan(dpos, [], 0, 0))
  }

  lemma {:induction false} ScanAdvances(parse: Parse, illegalPads: bool, data: string, s: Scan)
    requires Proper(data, s)
    ensures var t := ScanFrom(parse, illegalPads, data, s);
      |t.sextets| > |s.sextets| ==> t.dpos > s.dpos
  {
  }

  lemma QuantumAdvances(flags: Flags, data: string, dpos: nat)
    requires dpos <= |data|
    ensures var t := FirstQuantum(flags, data, dpos); |t.sextets| == 4 ==> t.dpos > dpos
  {
    ScanAdvances(flags.parse, flags.pad == DO_PAD_NO, data, Scan(dpos, [], 0, 0));
  }

  function DecodeFrom(flags: Flags, data: string, dpos: nat): Decoded
    requires dpos <= |data|
    decreases |data| - dpos
  {
    if dpos == |data| then Decoded(true, [], dpos)
    else
      var t := FirstQuantum(flags, data, dpos);
      if |t.sextets| < 4 then Decoded(Accepts(flags, t, |data|), QuantumBytes(t.sextets), After(t))
      else
        QuantumAdvances(flags, data, dpos);
        var rest := DecodeFrom(flags, data, t.dpos);
        rest.(result := QuantumBytes(t.sextets) + rest.result)
  }

  function Decode(flags: Flags, data: string): Decoded { DecodeFrom(flags, data, 0) }

  // ---- The decoder -------------------------------------------------------

  /** Reads the next quantum; q holds its sextets, padded with zeros. */
  method GetNextQuantum(parse: Parse, illegalPads: bool, data: string, start: nat)
    returns (byteLen: nat, dpos: nat, q: seq<sextet>, padded: bool)
    requires start <= |data|
    ensures var t := ScanFrom(parse, illegalPads, data, Scan(start, [], 0, 0));
      && byteLen == |t.sextets| && dpos == After(t) && padded == Padded(t)
      && |q| == 4 && forall k: nat :: k < 4 ==> q[k] == At(t.sextets, k)
  {
    var padLen: nat, padStart: nat := 0, 0;
    var read: seq<sextet> := [];
    dpos := start;
    ghost var t := ScanFrom(parse, illegalPads, data, Scan(start, [], 0, 0));
    while |read| < 4 && dpos < |data|
      invariant start <= dpos <= |data| && |read| <= 4 && (|read| == 4 ==> padLen == 0)
      invariant t == ScanFrom(parse, illegalPads, data, Scan(dpos, read, padLen, padStart))
    {
      var c := DecodeTable(data[dpos]);
      if c == ILLEGAL || (illegalPads && c == PAD) {
        if parse != DO_PARSE_ANY { break; }
      } else if c == SPACE {
        if parse == DO_PARSE_STRICT { break; }
      } else if c == PAD {
        if |read| < 2 || |read| + padLen >= 4 {
          if parse != DO_PARSE_ANY { break; }
        } else {
          padLen := padLen + 1;
          if padLen == 1 { padStart := dpos; }
        }
      } else {
        if padLen > 0 {
          if parse != DO_PARSE_ANY { break; }
          padLen := 0;
        }
        read := read + [c];
      }
      dpos := dpos + 1;
    }
    assert t == Scan(dpos, read, padLen, padStart);
    byteLen := |read|;
    q := seq(4, k requires 0 <= k => At(read, k));
    padded := 4 == byteLen + padLen;
    if !padded && padLen > 0 { dpos := padStart; }
  }

  /** The bytes a quantum completes, and the bits left over. */
  method BytesOfQuantum(byteLen: nat, q: seq<sextet>, ghost read: seq<sextet>) returns (bytes: seq<byte>, c: byte)
    requires byteLen == |read| <= 4 == |q| && forall k: nat :: k < 4 ==> q[k] == At(read, k)
    ensures bytes == QuantumBytes(read) && c == UnusedBits(read)
  {
    c := ByteA(q[0], q[1]);
    bytes := [];
    if byteLen >= 2 {
      bytes := bytes + [c];
      c := ByteB(q[1], q[2]);
      if byteLen >= 3 {
        bytes := bytes + [c];
        c := ByteC(q[2], q[3]);
        if byteLen >= 4 {
          bytes := bytes + [c];
          c := 0;
        }
      }
    }
  }

  /** The same verdict, with bytes decoded earlier in front. */
  function Behind(result: seq<byte>, rest: Decoded): Decoded { rest.(result := result + rest.result) }

  lemma Unit(s: seq<byte>)
    ensures [] + s == s && s + [] == s
  {
  }

  lemma BytesConcat(a: seq<byte>, b: seq<byte>, c: seq<byte>)
    ensures a + (b + c) == a + b + c
  {
  }

  /** The decoder. */
  method DecodeFromArray(data: string, flags: Flags) returns (success: bool, result: seq<byte>, used: nat)
    ensures Decoded(success, result, used) == Decode(flags, data)
  {
    hide ScanFrom, QuantumBytes, UnusedBits;
    ghost var all := Decode(flags, data);
    result, success, used := [], true, 0;
    Unit(all.result);
    while used < |data|
      invariant used <= |data| && success
      invariant all == Behind(result, DecodeFrom(flags, data, used))
      decreases |data| - used
    {
      ghost var t := FirstQuantum(flags, data, used);
      QuantumAdvances(flags, data, used);
      var byteLen, dpos, q, padded := GetNextQuantum(flags.parse, flags.pad == DO_PAD_NO, data, used);
      var bytes, c := BytesOfQuantum(byteLen, q, t.sextets);
      used := dpos;
      if byteLen == 4 { BytesConcat(result, bytes, DecodeFrom(flags, data, used).result); }
      result := result + bytes;
      if byteLen < 4 {
        if flags.term != DO_TERM_ANY && c != 0 { success := false; }
        if flags.pad == DO_PAD_YES && !padded { success := false; }
        break;
      }
    }
    Unit(result);
    if flags.term == DO_TERM_BUFFER && used != |data| { success := false; }
  }
}
