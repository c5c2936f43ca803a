/**
 * Big- and little-endian numbers in memory. An unsigned shift right by 8k is a division by
 * 256^k, a cast to uint8 a remainder, and the "or" of disjoint bytes a sum.
 */
module ByteOrder {
  type byte = n: nat | n < 0x100

  /** The n low bytes of v, most significant first. */
  function ToBE(v: nat, n: nat): (m: seq<byte>)
    ensures |m| == n
  {
    if n == 0 then [] else ToBE(v / 0x100, n - 1) + [v % 0x100]
  }

  function FromBE(m: seq<byte>): nat {
    if m == [] then 0 else FromBE(m[..|m| - 1]) * 0x100 + m[|m| - 1]
  }

  /** The n low bytes of v, least significant first. */
  function ToLE(v: nat, n: nat): (m: seq<byte>)
    ensures |m| == n
  {
    if n == 0 then [] else [v % 0x100] + ToLE(v / 0x100, n - 1)
  }

  function FromLE(m: seq<byte>): nat {
    if m == [] then 0 else m[0] + 0x100 * FromLE(m[1..])
  }

  function Power256(n: nat): nat { if n == 0 then 1 else 0x100 * Power256(n - 1) }

  function SetBE16(v: nat): seq<byte> { [v / 0x100 % 0x100, v % 0x100] }

  function GetBE16(m: seq<byte>): (v: nat)
    requires |m| >= 2
    ensures v < 0x1_0000
  {
    m[0] as nat * 0x100 + m[1]
  }

  function SetBE32(v: nat): seq<byte> {
    [v / 0x100_0000 % 0x100, v / 0x1_0000 % 0x100, v / 0x100 % 0x100, v % 0x100]
  }

  function SetBE64(v: nat): seq<byte> {
    [v / 0x100_0000_0000_0000 % 0x100, v / 0x1_0000_0000_0000 % 0x100, v / 0x100_0000_0000 % 0x100,
     v / 0x1_0000_0000 % 0x100, v / 0x100_0000 % 0x100, v / 0x1_0000 % 0x100, v / 0x100 % 0x100, v % 0x100]
  }

  function SetLE16(v: nat): seq<byte> { [v % 0x100, v / 0x100 % 0x100] }

  function SetLE32(v: nat): seq<byte> {
    [v % 0x100, v / 0x100 % 0x100, v / 0x1_0000 % 0x100, v / 0x100_0000 % 0x100]
  }

  function SetLE64(v: nat): seq<byte> {
    [v % 0x100, v / 0x100 % 0x100, v / 0x1_0000 % 0x100, v / 0x100_0000 % 0x100, v / 0x1_0000_0000 % 0x100,
     v / 0x100_0000_0000 % 0x100, v / 0x1_0000_0000_0000 % 0x100, v / 0x100_0000_0000_0000 % 0x100]
  }

  function GetBE32(m: seq<byte>): nat
    requires |m| == 4
  {
    m[0] as nat * 0x100_0000 + m[1] as nat * 0x1_0000 + m[2] as nat * 0x100 + m[3]
  }

  function GetBE64(m: seq<byte>): nat
    requires |m| == 8
  {
    GetBE32(m[..4]) * 0x1_0000_0000 + GetBE32(m[4..])
  }

  function GetLE16(m: seq<byte>): nat
    requires |m| == 2
  {
    m[0] as nat + m[1] as nat * 0x100
  }

  function GetLE32(m: seq<byte>): nat
    requires |m| == 4
  {
    m[0] as nat + m[1] as nat * 0x100 + m[2] as nat * 0x1_0000 + m[3] as nat * 0x100_0000
  }

  function GetLE64(m: seq<byte>): nat
    requires |m| == 8
  {
    GetLE32(m[..4]) + GetLE32(m[4..]) * 0x1_0000_0000
  }

  lemma ToBEStep(v: nat, n: nat)
    requires n > 0
    ensures ToBE(v, n) == ToBE(v / 0x100, n - 1) + [v % 0x100]
    ensures ToLE(v, n) == [v % 0x100] + ToLE(v / 0x100, n - 1)
  {
  }

  lemma FromBELast(m: seq<byte>, b: byte)
    ensures FromBE(m + [b]) == FromBE(m) * 0x100 + b
  {
    assert (m + [b])[..|m|] == m;
  }

  lemma NoBytes(v: nat)
    ensures ToBE(v, 0) == [] && ToLE(v, 0) == []
  {
  }

  lemma FromLEFirst(m: seq<byte>)
    requires m != []
    ensures FromLE(m) == m[0] + 0x100 * FromLE(m[1..])
  {
  }

  /** Reading back what was written, for every width and both orders. */
  lemma {:induction false} WriteThenRead(v: nat, n: nat)
    requires v < Power256(n)
    ensures FromBE(ToBE(v, n)) == v && FromLE(ToLE(v, n)) == v
  {
    if n > 0 {
      hide ToBE, ToLE, FromBE, FromLE;
      WriteThenRead(v / 0x100, n - 1);
      ToBEStep(v, n);
      FromBELast(ToBE(v / 0x100, n - 1), v % 0x100);
      FromLEFirst(ToLE(v, n));
      assert ToLE(v, n)[1..] == ToLE(v / 0x100, n - 1);
    } else {
      NoBytes(v);
    }
  }

  /** The number 0x01020304 in either order. */
  lemma KnownBytes()
    ensures ToBE(0x0102_0304, 4) == [1, 2, 3, 4] && ToLE(0x0102_0304, 4) == [4, 3, 2, 1]
    ensures FromBE([1, 2, 3, 4]) == 0x0102_0304 == FromLE([4, 3, 2, 1])
  {
    hide ToBE, ToLE, FromBE, FromLE;
    ToBEStep(0x0102_0304, 4);
    ToBEStep(0x0001_0203, 3);
    ToBEStep(0x0000_0102, 2);
    ToBEStep(0x0000_0001, 1);
    NoBytes(0);
    WriteThenRead(0x0102_0304, 4);
    assert Power256(4) == 0x1_0000_0000;
  }

  lemma DividedBack(b: byte, high: nat)
    ensures (b + 0x100 * high) / 0x100 == high && (b + 0x100 * high) % 0x100 == b
  {
  }

  /** Writing back what was read: every byte pattern is some number's. */
  lemma {:induction false} ReadThenWriteBE(m: seq<byte>)
    ensures FromBE(m) < Power256(|m|) && ToBE(FromBE(m), |m|) == m
  {
    if m != [] {
      var n := |m| - 1;
      ReadThenWriteBE(m[..n]);
      DividedBack(m[n], FromBE(m[..n]));
      assert m == m[..n] + [m[n]];
    }
  }

  lemma {:induction false} ReadThenWriteLE(m: seq<byte>)
    ensures FromLE(m) < Power256(|m|) && ToLE(FromLE(m), |m|) == m
  {
    if m != [] {
      ReadThenWriteLE(m[1..]);
      ToBEStep(FromLE(m), |m|);
      hide FromLE, ToLE;
      assert FromLE(m) == m[0] + 0x100 * FromLE(m[1..]) by { FromLEFirst(m); }
      DividedBack(m[0], FromLE(m[1..]));
      assert m == [m[0]] + m[1..];
    }
  }

  /** The two orders are each other reversed. */
  lemma {:induction false} OrdersMirror(v: nat, n: nat, i: nat)
    requires i < n
    ensures ToBE(v, n)[i] == ToLE(v, n)[n - 1 - i]
  {
    if i < n - 1 { OrdersMirror(v / 0x100, n - 1, i); }
  }

  /** The last four bytes, or the first four, and the rest. */
  lemma FourBytes(v: nat, n: nat)
    ensures ToBE(v, n + 4) == ToBE(v / 0x1_0000_0000, n) + SetBE32(v)
    ensures ToLE(v, n + 4) == SetLE32(v) + ToLE(v / 0x1_0000_0000, n)
  {
    hide ToBE, ToLE;
    ToBEStep(v, n + 4);
    ToBEStep(v / 0x100, n + 3);
    ToBEStep(v / 0x1_0000, n + 2);
    ToBEStep(v / 0x100_0000, n + 1);
    assert v / 0x100 / 0x100 == v / 0x1_0000 && v / 0x1_0000 / 0x100 == v / 0x100_0000;
    assert v / 0x100_0000 / 0x100 == v / 0x1_0000_0000;
  }

  lemma TwoBytes(v: nat)
    ensures SetBE16(v) == ToBE(v, 2) && SetLE16(v) == ToLE(v, 2)
  {
    hide ToBE, ToLE;
    ToBEStep(v, 2);
    ToBEStep(v / 0x100, 1);
    NoBytes(v / 0x100 / 0x100);
  }

  lemma EightBytes(v: nat)
    ensures SetBE64(v) == SetBE32(v / 0x1_0000_0000) + SetBE32(v)
    ensures SetLE64(v) == SetLE32(v) + SetLE32(v / 0x1_0000_0000)
  {
    var high := v / 0x1_0000_0000;
    assert high / 0x100 == v / 0x100_0000_0000 && high / 0x1_0000 == v / 0x1_0000_0000_0000;
    assert high / 0x100_0000 == v / 0x100_0000_0000_0000;
  }

  lemma JustFourBytes(v: nat)
    ensures SetBE32(v) == ToBE(v, 4) && SetLE32(v) == ToLE(v, 4)
  {
    hide ToBE, ToLE;
    FourBytes(v, 0);
    NoBytes(v / 0x1_0000_0000);
  }

  /** The unrolled forms that write are instances. */
  lemma UnrolledForms(v: nat)
    ensures SetBE16(v) == ToBE(v, 2) && SetBE32(v) == ToBE(v, 4) && SetBE64(v) == ToBE(v, 8)
    ensures SetLE16(v) == ToLE(v, 2) && SetLE32(v) == ToLE(v, 4) && SetLE64(v) == ToLE(v, 8)
    ensures v < 0x1_0000 ==> GetBE16(SetBE16(v)) == v
  {
    hide ToBE, ToLE, SetBE32, SetBE64, SetLE32, SetLE64;
    TwoBytes(v);
    JustFourBytes(v);
    JustFourBytes(v / 0x1_0000_0000);
    FourBytes(v, 4);
    EightBytes(v);
  }

  lemma ScaleProduct(a: nat, p: nat)
    ensures a * (0x100 * p) == 0x100 * (a * p) && (0x100 * p) * a == 0x100 * (p * a)
  {
  }

  lemma {:induction false} FromBEConcat(a: seq<byte>, b: seq<byte>)
    ensures FromBE(a + b) == FromBE(a) * Power256(|b|) + FromBE(b)
  {
    if b == [] {
      assert a + b == a;
    } else {
      hide FromBE;
      var n := |b| - 1;
      FromBEConcat(a, b[..n]);
      FromBELast(a + b[..n], b[n]);
      FromBELast(b[..n], b[n]);
      assert b == b[..n] + [b[n]] && a + b == (a + b[..n]) + [b[n]];
      ScaleProduct(FromBE(a), Power256(n));
    }
  }

  lemma {:induction false} FromLEConcat(a: seq<byte>, b: seq<byte>)
    ensures FromLE(a + b) == FromLE(a) + Power256(|a|) * FromLE(b)
  {
    if a == [] {
      assert a + b == b;
    } else {
      FromLEConcat(a[1..], b);
      assert (a + b)[1..] == a[1..] + b;
      ScaleProduct(FromLE(b), Power256(|a| - 1));
    }
  }

  lemma OneByte(b: byte)
    ensures FromBE([b]) == b && FromLE([b]) == b
  {
    assert [b][..0] == [] && [b][1..] == [];
  }

  lemma ReadTwo(m: seq<byte>)
    requires |m| == 2
    ensures GetBE16(m) == FromBE(m) && GetLE16(m) == FromLE(m)
  {
    hide FromBE, FromLE;
    assert m == [m[0]] + [m[1]];
    FromBEConcat([m[0]], [m[1]]);
    FromLEConcat([m[0]], [m[1]]);
    OneByte(m[0]);
    OneByte(m[1]);
    assert Power256(1) == 0x100;
  }

  lemma ReadFour(m: seq<byte>)
    requires |m| == 4
    ensures GetBE32(m) == FromBE(m) && GetLE32(m) == FromLE(m)
  {
    hide FromBE, FromLE;
    assert m == m[..2] + m[2..];
    FromBEConcat(m[..2], m[2..]);
    FromLEConcat(m[..2], m[2..]);
    ReadTwo(m[..2]);
    ReadTwo(m[2..]);
    assert Power256(2) == 0x1_0000;
  }

  /** The unrolled forms that read are instances too. */
  lemma UnrolledReads(m: seq<byte>)
    ensures |m| == 2 ==> GetBE16(m) == FromBE(m) && GetLE16(m) == FromLE(m)
    ensures |m| == 4 ==> GetBE32(m) == FromBE(m) && GetLE32(m) == FromLE(m)
    ensures |m| == 8 ==> GetBE64(m) == FromBE(m) && GetLE64(m) == FromLE(m)
  {
    hide FromBE, FromLE;
    if |m| == 2 {
      ReadTwo(m);
    } else if |m| == 4 {
      ReadFour(m);
    } else if |m| == 8 {
      assert m == m[..4] + m[4..];
      FromBEConcat(m[..4], m[4..]);
      FromLEConcat(m[..4], m[4..]);
      ReadFour(m[..4]);
      ReadFour(m[4..]);
      assert Power256(4) == 0x1_0000_0000;
    }
  }
}
