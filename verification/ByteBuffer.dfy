/**
 * A growable byte buffer: written at the end, read from the start, with read positions that can
 * be remembered and returned to. Sizes and the version count are unbounded here.
 */
module ByteBuffer {
  import opened Util
  import opened ByteOrder

  const DEFAULT_SIZE: nat := 4096

  datatype Order = ORDER_NETWORK | ORDER_HOST

  /** What GetReadPosition hands out. */
  datatype ReadPosition = ReadPosition(start_: nat, version_: nat)

  // ---- Integers in memory ------------------------------------------------

  /** The n low bytes of an integer, most or least significant first. */
  function Image(v: nat, n: nat, big: bool): (m: seq<byte>)
    ensures |m| == n
  {
    if big then ToBE(v, n) else ToLE(v, n)
  }

  function Number(m: seq<byte>, big: bool): nat { if big then FromBE(m) else FromLE(m) }

  /** The integer whose image in the host's memory is v's, most significant byte first. */
  function HostToNetwork(v: nat, n: nat, bigHost: bool): nat { Number(ToBE(v, n), bigHost) }

  function NetworkToHost(v: nat, n: nat, bigHost: bool): nat { FromBE(Image(v, n, bigHost)) }

  lemma NumberOfImage(v: nat, n: nat, big: bool)
    requires v < Power256(n)
    ensures Number(Image(v, n, big), big) == v
  {
    WriteThenRead(v, n);
  }

  lemma ImageOfNetwork(v: nat, n: nat, bigHost: bool)
    ensures Image(HostToNetwork(v, n, bigHost), n, bigHost) == ToBE(v, n)
    ensures HostToNetwork(v, n, bigHost) < Power256(n)
  {
    ReadThenWriteBE(ToBE(v, n));
    ReadThenWriteLE(ToBE(v, n));
  }

  lemma HostOfNetwork(m: seq<byte>, bigHost: bool)
    ensures NetworkToHost(Number(m, bigHost), |m|, bigHost) == FromBE(m)
  {
    ReadThenWriteBE(m);
    ReadThenWriteLE(m);
  }

  /** The low bytes of the image of a wider integer. */
  lemma {:induction false} Narrower(v: nat, n: nat)
    ensures ToBE(v, n + 1)[1..] == ToBE(v, n)
    ensures ToLE(v, n + 1)[..n] == ToLE(v, n)
  {
    if n > 0 {
      Narrower(v / 0x100, n - 1);
      assert ToBE(v, n + 1)[1..] == ToBE(v / 0x100, n)[1..] + [v % 0x100];
      assert ToLE(v, n + 1)[..n] == [v % 0x100] + ToLE(v / 0x100, n)[..n - 1];
    }
  }

  /** A leading zero byte, in either order, does not change a number. */
  lemma {:induction false} Wider(m: seq<byte>)
    ensures FromBE([0] + m) == FromBE(m)
    ensures FromLE(m + [0]) == FromLE(m)
  {
    if m == [] {
      assert FromBE([0]) == 0 && FromLE([0]) == 0;
    } else {
      var n := |m| - 1;
      Wider(m[..n]);
      assert ([0] + m)[..|m|] == [0] + m[..n];
      Wider(m[1..]);
      assert (m + [0])[1..] == m[1..] + [0];
    }
  }

  // ---- Whole messages ----------------------------------------------------

  datatype Field = Field(value: nat, width: nat)

  function Encode(fields: seq<Field>, big: bool): seq<byte> {
    if fields == [] then [] else Image(fields[0].value, fields[0].width, big) + Encode(fields[1..], big)
  }

  function Decode(m: seq<byte>, widths: seq<nat>, big: bool): Option<(seq<nat>, seq<byte>)> {
    if widths == [] then Some(([], m))
    else if |m| < widths[0] then None
    else match Decode(m[widths[0]..], widths[1..], big) {
           case None => None
           case Some(r) => Some(([Number(m[..widths[0]], big)] + r.0, r.1))
         }
  }

  function Widths(fields: seq<Field>): seq<nat> {
    if fields == [] then [] else [fields[0].width] + Widths(fields[1..])
  }

  function Values(fields: seq<Field>): seq<nat> {
    if fields == [] then [] else [fields[0].value] + Values(fields[1..])
  }

  lemma DecodeStep(m: seq<byte>, later: seq<byte>, widths: seq<nat>, values: seq<nat>, rest: seq<byte>, big: bool)
    requires Decode(later, widths, big) == Some((values, rest))
    ensures Decode(m + later, [|m|] + widths, big) == Some(([Number(m, big)] + values, rest))
  {
    hide Number;
    assert (m + later)[..|m|] == m && (m + later)[|m|..] == later;
    assert ([|m|] + widths)[1..] == widths;
  }

  /** Integers written one after the other are read back one after the other, and nothing more is read. */
  lemma {:induction false} FieldsReadBack(fields: seq<Field>, rest: seq<byte>, big: bool)
    requires forall f :: f in fields ==> f.value < Power256(f.width)
    ensures Decode(Encode(fields, big) + rest, Widths(fields), big) == Some((Values(fields), rest))
  {
    if fields == [] {
      assert Encode(fields, big) + rest == rest;
    } else {
      hide Image, Number, Power256, Decode;
      var f := fields[0];
      assert f in fields;
      var m, later := Image(f.value, f.width, big), Encode(fields[1..], big) + rest;
      FieldsReadBack(fields[1..], rest, big);
      NumberOfImage(f.value, f.width, big);
      assert Encode(fields, big) + rest == m + later;
      DecodeStep(m, later, Widths(fields[1..]), Values(fields[1..]), rest, big);
    }
  }

  /** memcpy and memmove: the source is taken as it was. */
  method Copy(dest: array<byte>, at: nat, val: seq<byte>)
    requires at + |val| <= dest.Length
    modifies dest
    ensures dest[..at] == old(dest[..at])
    ensures dest[at..at + |val|] == val
    ensures dest[at + |val|..] == old(dest[at + |val|..])
  {
    forall i | 0 <= i < |val| { dest[at + i] := val[i]; }
  }

  lemma TailOfAppend(s: seq<byte>, t: seq<byte>, i: nat)
    requires i <= |s|
    ensures (s + t)[i..] == s[i..] + t
  {
  }

  datatype Operation = Write(val: seq<byte>) | Read(len: nat) | Skip(len: nat) | Shift(size: nat) | Wipe

  function Added(op: Operation): seq<byte> { if op.Write? then op.val else [] }

  function AddedBy(ops: seq<Operation>): seq<byte> {
    if ops == [] then [] else Added(ops[0]) + AddedBy(ops[1..])
  }

  /** A byte queue. */
  function After(op: Operation, queue: seq<byte>): seq<byte> {
    match op
    case Write(val) => queue + val
    case Read(len) => if len <= |queue| then queue[len..] else queue
    case Skip(len) => if len <= |queue| then queue[len..] else queue
    case Shift(size) => queue[..Min(size, |queue|)]
    case Wipe => []
  }

  function AfterAll(ops: seq<Operation>, queue: seq<byte>): seq<byte> {
    if ops == [] then queue else AfterAll(ops[1..], After(ops[0], queue))
  }

  /** The operation invalidates remembered positions, when so many bytes are free behind the contents. */
  predicate Moves(op: Operation, free: nat) { op.Shift? || op.Wipe? || |Added(op)| > free }

  predicate SomeMoves(ops: seq<Operation>, free: nat) {
    ops != [] && (Moves(ops[0], free) || SomeMoves(ops[1..], free - |Added(ops[0])|))
  }

  lemma RunStep(ops: seq<Operation>, queue: seq<byte>, log: seq<byte>)
    ensures ops == [] ==> AfterAll(ops, queue) == queue && log + AddedBy(ops) == log
    ensures ops != [] ==>
      && AfterAll(ops, queue) == AfterAll(ops[1..], After(ops[0], queue))
      && log + AddedBy(ops) == log + Added(ops[0]) + AddedBy(ops[1..])
  {
    if ops != [] {
      assert AddedBy(ops) == Added(ops[0]) + AddedBy(ops[1..]);
    }
  }

  // ---- The buffer --------------------------------------------------------

  class ByteBuffer {
    var bytes_: array<byte>
    var size_: nat
    var start_: nat
    var end_: nat
    var version_: nat
    const byte_order_: Order
    const bigHost: bool            // IsHostBigEndian

    predicate Valid()
      reads this
    {
      start_ <= end_ <= size_ == bytes_.Length
    }

    /** The unread bytes. */
    function Contents(): seq<byte>
      requires Valid()
      reads this, bytes_
    {
      bytes_[start_..end_]
    }

    /** Everything written since positions were last invalidated, read or not. */
    function Written(): seq<byte>
      requires Valid()
      reads this, bytes_
    {
      bytes_[..end_]
    }

    predicate Big()
      reads this
    {
      byte_order_ == ORDER_NETWORK || bigHost
    }

    function Length(): nat
      requires Valid()
      reads this
    {
      end_ - start_
    }

    function Capacity(): nat
      requires Valid()
      reads this
    {
      size_ - start_
    }

    /** Remembered positions still mean what they did. */
    twostate predicate KeepsPositions()
      requires old(Valid()) && Valid()
      reads this, bytes_
    {
      && version_ == old(version_) && bytes_ == old(bytes_) && size_ == old(size_)
      && old(Written()) <= Written()
    }

    constructor Empty(order: Order, bigHost: bool)
      ensures Valid() && Contents() == [] && byte_order_ == order && this.bigHost == bigHost && fresh(bytes_)
      ensures size_ == 4096 && version_ == 0
    {
      version_, start_, end_, size_ := 0, 0, 0, DEFAULT_SIZE;
      byte_order_, this.bigHost := order, bigHost;
      bytes_ := new byte[DEFAULT_SIZE];
    }

    constructor FromBytes(bytes: seq<byte>, order: Order, bigHost: bool)
      ensures Valid() && Contents() == bytes && byte_order_ == order && this.bigHost == bigHost && fresh(bytes_)
      ensures size_ == |bytes| && version_ == 0
    {
      version_, start_, end_, size_ := 0, 0, |bytes|, |bytes|;
      byte_order_, this.bigHost := order, bigHost;
      bytes_ := new byte[|bytes|](i requires 0 <= i < |bytes| => bytes[i]);
    }

    method ReadBytes(len: nat) returns (ok: bool, val: seq<byte>)
      requires Valid()
      modifies `start_
      ensures Valid() && (ok <==> len <= old(Length()))
      ensures ok ==> |val| == len && val + Contents() == old(Contents())
      ensures !ok ==> val == [] && start_ == old(start_)
    {
      if len > Length() { return false, []; }
      ok, val := true, bytes_[start_..start_ + len];
      start_ := start_ + len;
    }

    /** Appends to the given text. */
    method ReadString(val: seq<byte>, len: nat) returns (ok: bool, r: seq<byte>)
      requires Valid()
      modifies `start_
      ensures Valid() && (ok <==> len <= old(Length()))
      ensures if ok then val <= r && |r| == |val| + len && r[|val|..] + Contents() == old(Contents())
              else r == val && start_ == old(start_)
    {
      if len > Length() { return false, val; }
      ok, r := true, val + bytes_[start_..start_ + len];
      assert r[|val|..] == bytes_[start_..start_ + len];
      start_ := start_ + len;
    }

    method Consume(size: nat) returns (ok: bool)
      requires Valid()
      modifies `start_
      ensures Valid() && (ok <==> size <= old(Length()))
      ensures Contents() == if ok then old(Contents())[size..] else old(Contents())
    {
      if size > Length() { return false; }
      start_ := start_ + size;
      ok := true;
    }

    /** Moves the unread bytes to the front, of a larger array if need be, and keeps at most size of them. */
    method Resize(size: nat)
      requires Valid()
      modifies this, bytes_
      ensures Valid() && start_ == 0 && version_ == old(version_) + 1
      ensures Contents() == old(Contents())[..Min(size, old(Length()))]
      ensures size_ == if size <= old(size_) then old(size_)
                       else if size < 3 * old(size_) / 2 then 3 * old(size_) / 2 else size
      ensures bytes_ == old(bytes_) || fresh(bytes_)
    {
      var len := Min(end_ - start_, size);
      var kept := bytes_[start_..start_ + len];
      assert kept == Contents()[..len];
      if size <= size_ {
        Copy(bytes_, 0, kept);
      } else {
        size_ := if size < 3 * size_ / 2 then 3 * size_ / 2 else size;
        var newBytes := new byte[size_];
        Copy(newBytes, 0, kept);
        bytes_ := newBytes;
      }
      assert bytes_[0..len] == kept;
      start_ := 0;
      end_ := len;
      version_ := version_ + 1;
    }

    /** Adds len bytes for the caller to fill in, and tells where they start. */
    method ReserveWriteBuffer(len: nat) returns (start: nat)
      requires Valid()
      modifies this, bytes_
      ensures Valid() && start + len == end_ && start_ <= start
      ensures bytes_[start_..start] == old(Contents())
      ensures bytes_ == old(bytes_) || fresh(bytes_)
      ensures if old(end_) + len <= old(size_)
              then version_ == old(version_) && bytes_ == old(bytes_) && size_ == old(size_) && start_ == old(start_)
                   && start == old(end_) && bytes_[..start] == old(Written())
              else version_ == old(version_) + 1
    {
      if Length() + len > Capacity() {
        Resize(Length() + len);
      }
      start := end_;
      end_ := end_ + len;
    }

    method WriteBytes(val: seq<byte>)
      requires Valid()
      modifies this, bytes_
      ensures Valid() && Contents() == old(Contents()) + val
      ensures bytes_ == old(bytes_) || fresh(bytes_)
      ensures if old(end_) + |val| <= old(size_)
              then KeepsPositions() && start_ == old(start_) && Written() == old(Written()) + val
              else version_ == old(version_) + 1
    {
      var start := ReserveWriteBuffer(|val|);
      label Reserved:
      Copy(bytes_, start, val);
      assert bytes_[start_..start] == old@Reserved(bytes_[..start])[start_..] == old@Reserved(bytes_[start_..start]);
      assert bytes_[start_..end_] == bytes_[start_..start] + val;
      assert bytes_[..end_] == bytes_[..start] + val;
    }

    method Clear()
      requires Valid()
      modifies this, bytes_
      ensures Valid() && Contents() == [] && version_ == old(version_) + 1
      ensures bytes_ == old(bytes_) && size_ == old(size_) && forall i :: 0 <= i < size_ ==> bytes_[i] == 0
    {
      forall i | 0 <= i < size_ { bytes_[i] := 0; }
      start_, end_, version_ := 0, 0, version_ + 1;
    }

    function GetReadPosition(): ReadPosition
      reads this
    {
      ReadPosition(start_, version_)
    }

    /** Returns to a position handed out earlier, unless the bytes have moved since. */
    method SetReadPosition(position: ReadPosition) returns (ok: bool)
      requires Valid() && (position.version_ == version_ ==> position.start_ <= end_)
      modifies `start_
      ensures Valid() && (ok <==> position.version_ == version_)
      ensures if ok then Contents() == Written()[position.start_..] else Contents() == old(Contents())
    {
      if position.version_ != version_ { return false; }
      start_ := position.start_;
      ok := true;
    }

    // ---- Typed access ----------------------------------------------------

    method WriteUInt8(val: byte)
      requires Valid()
      modifies this, bytes_
      ensures Valid() && Contents() == old(Contents()) + Image(val, 1, byte_order_ == ORDER_NETWORK || bigHost)
      ensures bytes_ == old(bytes_) || fresh(bytes_)
    {
      assert ToBE(val, 0) == [] && ToLE(val / 0x100, 0) == [];
      assert Image(val, 1, Big()) == [val];
      WriteBytes([val]);
    }

    /** WriteUInt16, WriteUInt32 and WriteUInt64. */
    method WriteUInt(val: nat, n: nat)
      requires Valid() && n in {2, 4, 8} && val < Power256(n)
      modifies this, bytes_
      ensures Valid() && Contents() == old(Contents()) + Image(val, n, byte_order_ == ORDER_NETWORK || bigHost)
      ensures bytes_ == old(bytes_) || fresh(bytes_)
    {
      var v := if byte_order_ == ORDER_NETWORK then HostToNetwork(val, n, bigHost) else val;
      ImageOfNetwork(val, n, bigHost);
      WriteBytes(Image(v, n, bigHost));
    }

    /** Writes the three low bytes of a 32-bit integer. */
    method WriteUInt24(val: nat)
      requires Valid() && val < Power256(4)
      modifies this, bytes_
      ensures Valid() && Contents() == old(Contents()) + Image(val, 3, byte_order_ == ORDER_NETWORK || bigHost)
      ensures bytes_ == old(bytes_) || fresh(bytes_)
    {
      var v := if byte_order_ == ORDER_NETWORK then HostToNetwork(val, 4, bigHost) else val;
      var image := Image(v, 4, bigHost);
      ImageOfNetwork(val, 4, bigHost);
      Narrower(val, 3);
      WriteBytes(if Big() then image[1..] else image[..3]);
    }

    method ReadUInt8() returns (ok: bool, val: nat)
      requires Valid()
      modifies `start_
      ensures Valid() && (ok <==> 1 <= old(Length()))
      ensures if ok
        then val == Number(old(Contents())[..1], byte_order_ == ORDER_NETWORK || bigHost)
             && Contents() == old(Contents())[1..]
        else start_ == old(start_)
    {
      var m;
      ok, m := ReadBytes(1);
      val := if ok then m[0] else 0;
      if ok {
        assert m == old(Contents())[..1];
        assert m[..0] == [] && m[1..] == [] && FromBE([]) == 0 && FromLE([]) == 0;
      }
    }

    /** ReadUInt16, ReadUInt32 and ReadUInt64. */
    method ReadUInt(n: nat) returns (ok: bool, val: nat)
      requires Valid() && n in {2, 4, 8}
      modifies `start_
      ensures Valid() && (ok <==> n <= old(Length()))
      ensures if ok
        then val == Number(old(Contents())[..n], byte_order_ == ORDER_NETWORK || bigHost)
             && Contents() == old(Contents())[n..]
        else start_ == old(start_)
    {
      var m;
      ok, m := ReadBytes(n);
      if !ok { return false, 0; }
      assert m == old(Contents())[..n];
      var v := Number(m, bigHost);
      HostOfNetwork(m, bigHost);
      val := if byte_order_ == ORDER_NETWORK then NetworkToHost(v, n, bigHost) else v;
    }

    method ReadUInt24() returns (ok: bool, val: nat)
      requires Valid()
      modifies `start_
      ensures Valid() && (ok <==> 3 <= old(Length()))
      ensures if ok
        then val == Number(old(Contents())[..3], byte_order_ == ORDER_NETWORK || bigHost)
             && Contents() == old(Contents())[3..]
        else start_ == old(start_)
    {
      var m;
      ok, m := ReadBytes(3);
      if !ok { return false, 0; }
      assert m == old(Contents())[..3];
      var image: seq<byte> := if Big() then [0] + m else m + [0];
      var v := Number(image, bigHost);
      HostOfNetwork(image, bigHost);
      Wider(m);
      val := if byte_order_ == ORDER_NETWORK then NetworkToHost(v, 4, bigHost) else v;
    }

    // ---- Runs --------------------------------------------------------------

    method Apply(op: Operation)
      requires Valid()
      modifies this, bytes_
      ensures Valid() && Contents() == After(op, old(Contents()))
      ensures bytes_ == old(bytes_) || fresh(bytes_)
      ensures version_ >= old(version_)
      ensures if Moves(op, old(size_ - end_)) then version_ > old(version_)
              else KeepsPositions() && Written() == old(Written()) + Added(op)
    {
      match op {
        case Write(val) => WriteBytes(val);
        case Read(len) => var _, _ := ReadBytes(len);
        case Skip(len) => var _ := Consume(len);
        case Shift(size) => Resize(size);
        case Wipe => Clear();
      }
    }

    /** In every run the buffer is a byte queue, however its array grows and is compacted. */
    method Run(ops: seq<Operation>)
      requires Valid()
      modifies this, bytes_
      ensures Valid() && Contents() == AfterAll(ops, old(Contents()))
      ensures bytes_ == old(bytes_) || fresh(bytes_)
      ensures version_ >= old(version_)
      ensures if SomeMoves(ops, old(size_ - end_)) then version_ > old(version_)
              else KeepsPositions() && Written() == old(Written()) + AddedBy(ops)
      decreases |ops|
    {
      hide AfterAll, After, Moves, Added, AddedBy;
      RunStep(ops, old(Contents()), old(Written()));
      if ops != [] {
        Apply(ops[0]);
        Run(ops[1..]);
      }
    }

    /**
     * A position remembered before a run and returned to after it: accepted exactly when nothing
     * was moved meanwhile, and then the bytes unread at the start are unread again, followed by
     * all that was written since.
     */
    method RememberAndReturn(ops: seq<Operation>) returns (ok: bool)
      requires Valid()
      modifies this, bytes_
      ensures Valid() && (ok <==> !SomeMoves(ops, old(size_ - end_)))
      ensures Contents() == if ok then old(Contents()) + AddedBy(ops) else AfterAll(ops, old(Contents()))
    {
      hide SomeMoves, AfterAll, AddedBy;
      var position := GetReadPosition();
      ghost var before := Written();
      assert Contents() == before[start_..];
      Run(ops);
      TailOfAppend(before, AddedBy(ops), position.start_);
      ok := SetReadPosition(position);
    }
  }

  /** Seen from outside: an explicit Resize or Clear, or more written than there was room for. */
  lemma {:induction false} MovesIff(ops: seq<Operation>, free: nat)
    ensures SomeMoves(ops, free) <==> (exists op :: op in ops && (op.Shift? || op.Wipe?)) || |AddedBy(ops)| > free
  {
    if ops != [] {
      assert ops == [ops[0]] + ops[1..];
      if !Moves(ops[0], free) { MovesIff(ops[1..], free - |Added(ops[0])|); }
    }
  }

  lemma DropDrop<T>(s: seq<T>, i: nat, j: nat)
    requires i + j <= |s|
    ensures s[i..][j..] == s[i + j..]
  {
  }

  lemma KeepsTail(op: Operation, queue: seq<byte>)
    requires !op.Shift? && !op.Wipe?
    ensures |After(op, queue)| <= |queue| + |Added(op)|
    ensures After(op, queue) == (queue + Added(op))[|queue| + |Added(op)| - |After(op, queue)|..]
  {
    if !op.Write? { assert queue + Added(op) == queue; }
  }

  /** If nothing was cut off, a run leaves a tail of what was there before and what came in through it. */
  lemma {:induction false} NothingLost(ops: seq<Operation>, queue: seq<byte>)
    requires forall op :: op in ops ==> !op.Shift? && !op.Wipe?
    ensures |AfterAll(ops, queue)| <= |queue| + |AddedBy(ops)|
    ensures AfterAll(ops, queue) == (queue + AddedBy(ops))[|queue| + |AddedBy(ops)| - |AfterAll(ops, queue)|..]
  {
    hide After, Added, AfterAll, AddedBy;
    RunStep(ops, queue, queue);
    if ops != [] {
      var op, later := ops[0], AddedBy(ops[1..]);
      assert op in ops;
      var next, came := After(op, queue), queue + Added(op);
      KeepsTail(op, queue);
      NothingLost(ops[1..], next);
      var i, left := |came| - |next|, AfterAll(ops, queue);
      TailOfAppend(came, later, i);
      DropDrop(came + later, i, |next| + |later| - |left|);
    }
  }
}
