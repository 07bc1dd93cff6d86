/** The little-endian byte streams of io/: a writer and a reader, each with its own cursor, over one shared ByteArray.
    Sizes and cursors are 32-bit in the source, so an array holds fewer than 2^32 bytes. */
module ByteStreams {
  import opened Options

  type byte = x: int | 0 <= x < 256
  type u16 = x: int | 0 <= x < 0x1_0000
  type u32 = x: int | 0 <= x < 0x1_0000_0000
  type i32 = x: int | -0x8000_0000 <= x < 0x8000_0000

  const MAX := 0x1_0000_0000

  // ---------- specification ----------

  datatype Kind = KU8 | KU16 | KU32 | KI32 | KBool | KStr

  datatype Value = U8(b: byte) | U16(h: u16) | U32(w: u32) | I32(i: i32) | Bool(t: bool) | Str(s: seq<byte>)
  {
    function Kind(): Kind {
      match this
      case U8(_) => KU8
      case U16(_) => KU16
      case U32(_) => KU32
      case I32(_) => KI32
      case Bool(_) => KBool
      case Str(_) => KStr
    }

    /** A string's size has to fit its 32-bit prefix. */
    predicate Fits() {
      Str? ==> |s| < MAX
    }
  }

  /** The `n` low bytes of `d`, lowest first. */
  function Bytes(d: int, n: nat): (bs: seq<byte>)
    ensures |bs| == n
    decreases n
  {
    if n == 0 then [] else [d % 256] + Bytes(d / 256, n - 1)
  }

  function Number(bs: seq<byte>): nat {
    if bs == [] then 0 else bs[0] + 256 * Number(bs[1..])
  }

  function Encode(v: Value): seq<byte> {
    match v
    case U8(b) => [b]
    case U16(h) => Bytes(h, 2)
    case U32(w) => Bytes(w, 4)
    case I32(i) => Bytes(i % MAX, 4)
    case Bool(t) => [if t then 1 else 0]
    case Str(s) => Bytes(|s|, 4) + s
  }

  function EncodeAll(vs: seq<Value>): seq<byte> {
    if vs == [] then [] else EncodeAll(vs[..|vs| - 1]) + Encode(vs[|vs| - 1])
  }

  function AsSigned(w: int): int {
    if w < 0x8000_0000 then w else w - MAX
  }

  /** The `n`-byte number that comes next and what is left. An array of `total` bytes too small for any such number
      reads as 0; `None` if the array is large enough but too few bytes are left, which the source leaves undefined. */
  function DecodeNumber(n: nat, total: nat, bs: seq<byte>): Option<(nat, seq<byte>)> {
    if total < n then Some((0, bs))
    else if |bs| < n then None
    else Some((Number(bs[..n]), bs[n..]))
  }

  /** The value that comes next in an array of `total` bytes, of which `bs` are left. A string longer than what is left
      is read as empty. */
  function Decode(k: Kind, total: nat, bs: seq<byte>): Option<(Value, seq<byte>)> {
    match k
    case KU8 => if |bs| < 1 then None else Some((U8(bs[0]), bs[1..]))
    case KBool => if |bs| < 1 then None else Some((Bool(bs[0] != 0), bs[1..]))
    case KU16 =>
      var (d, rest) :- DecodeNumber(2, total, bs);
      DecodedBound(2, total, bs);
      Some((U16(d), rest))
    case KU32 =>
      var (d, rest) :- DecodeNumber(4, total, bs);
      DecodedBound(4, total, bs);
      Some((U32(d), rest))
    case KI32 =>
      var (d, rest) :- DecodeNumber(4, total, bs);
      DecodedBound(4, total, bs);
      Some((I32(AsSigned(d)), rest))
    case KStr =>
      var (n, rest) :- DecodeNumber(4, total, bs);
      if n <= |rest| then Some((Str(rest[..n]), rest[n..])) else Some((Str([]), rest))
  }

  function DecodeAll(ks: seq<Kind>, total: nat, bs: seq<byte>): Option<(seq<Value>, seq<byte>)> {
    if ks == [] then Some(([], bs))
    else
      match Decode(ks[0], total, bs)
      case None => None
      case Some((v, rest)) =>
        match DecodeAll(ks[1..], total, rest)
        case None => None
        case Some((vs, end)) => Some(([v] + vs, end))
  }

  /** Bytes written at `pos` replace what is there and extend the data past its end; nothing else changes. */
  function Overlay(data: seq<byte>, pos: nat, bs: seq<byte>): seq<byte>
    requires pos <= |data|
  {
    data[..pos] + bs + if pos + |bs| <= |data| then data[pos + |bs|..] else []
  }

  // ---------- numbers ----------

  /** `256^n`: shifting left by `8n` bits multiplies by it. */
  function Power(n: nat): nat {
    if n == 0 then 1 else 256 * Power(n - 1)
  }

  lemma {:induction false} NumberBelow(bs: seq<byte>)
    ensures Number(bs) < Power(|bs|)
  {
    if bs != [] {
      NumberBelow(bs[1..]);
    }
  }

  lemma NumberBound(bs: seq<byte>)
    ensures |bs| == 2 ==> Number(bs) < 0x1_0000
    ensures |bs| == 4 ==> Number(bs) < MAX
  {
    NumberBelow(bs);
    assert Power(2) == 0x1_0000 && Power(4) == 256 * (256 * Power(2));
  }

  lemma DecodedBound(n: nat, total: nat, bs: seq<byte>)
    requires DecodeNumber(n, total, bs).Some?
    ensures n == 2 ==> DecodeNumber(n, total, bs).value.0 < 0x1_0000
    ensures n == 4 ==> DecodeNumber(n, total, bs).value.0 < MAX
    ensures n <= |bs| || total < n
  {
    hide Number;
    if n <= total {
      NumberBound(bs[..n]);
    }
  }

  lemma {:induction false} NumberBytes(d: nat, n: nat)
    requires d < Power(n)
    ensures Number(Bytes(d, n)) == d
  {
    if n > 0 {
      assert d / 256 < Power(n - 1);
      NumberBytes(d / 256, n - 1);
      assert Bytes(d, n)[1..] == Bytes(d / 256, n - 1);
    }
  }

  lemma NumberRoundTrip(d: nat)
    ensures d < 0x1_0000 ==> Number(Bytes(d, 2)) == d
    ensures d < MAX ==> Number(Bytes(d, 4)) == d
  {
    assert Power(2) == 0x1_0000 && Power(4) == 256 * (256 * Power(2));
    if d < 0x1_0000 {
      NumberBytes(d, 2);
    }
    if d < MAX {
      NumberBytes(d, 4);
    }
  }

  // ---------- round trip ----------

  /** Reading a value's encoding gives the value and leaves what follows it. */
  lemma DecodeEncode(v: Value, total: nat, rest: seq<byte>)
    requires v.Fits() && |Encode(v) + rest| <= total
    ensures Decode(v.Kind(), total, Encode(v) + rest) == Some((v, rest))
  {
    hide Bytes, Number, DecodeNumber;
    var bs := Encode(v) + rest;
    match v
    case U8(_) => assert bs[1..] == rest;
    case Bool(_) => assert bs[1..] == rest;
    case U16(h) => NumberNext(h, 2, total, rest);
    case U32(w) => NumberNext(w, 4, total, rest);
    case I32(i) => NumberNext(i % MAX, 4, total, rest);
    case Str(s) =>
      NumberNext(|s|, 4, total, s + rest);
      assert bs == Bytes(|s|, 4) + (s + rest);
      assert (s + rest)[..|s|] == s && (s + rest)[|s|..] == rest;
  }

  lemma NumberNext(d: nat, n: nat, total: nat, rest: seq<byte>)
    requires (n == 2 && d < 0x1_0000) || (n == 4 && d < MAX)
    requires n + |rest| <= total
    ensures DecodeNumber(n, total, Bytes(d, n) + rest) == Some((d, rest))
  {
    hide Bytes, Number;
    var bs := Bytes(d, n) + rest;
    assert bs[..n] == Bytes(d, n) && bs[n..] == rest;
    NumberRoundTrip(d);
  }

  function Kinds(vs: seq<Value>): (ks: seq<Kind>)
    ensures |ks| == |vs|
  {
    if vs == [] then [] else [vs[0].Kind()] + Kinds(vs[1..])
  }

  lemma {:induction false} EncodeAllFirst(vs: seq<Value>)
    requires vs != []
    ensures EncodeAll(vs) == Encode(vs[0]) + EncodeAll(vs[1..])
    decreases |vs|
  {
    hide Encode;
    var n := |vs| - 1;
    if n > 0 {
      EncodeAllFirst(vs[..n]);
      assert vs[..n][1..] == vs[1..][..n - 1];
    } else {
      assert vs[..0] == [] && vs[1..] == [];
    }
  }

  /** Any list of values comes back from its encoding, and the rest of the stream is untouched. */
  lemma {:induction false} DecodeAllEncodeAll(vs: seq<Value>, total: nat, rest: seq<byte>)
    requires |EncodeAll(vs) + rest| <= total && forall i :: 0 <= i < |vs| ==> vs[i].Fits()
    ensures DecodeAll(Kinds(vs), total, EncodeAll(vs) + rest) == Some((vs, rest))
    decreases |vs|
  {
    hide Encode, Decode;
    if vs == [] {
      assert EncodeAll(vs) + rest == rest;
    } else {
      EncodeAllFirst(vs);
      DecodeEncode(vs[0], total, EncodeAll(vs[1..]) + rest);
      assert EncodeAll(vs) + rest == Encode(vs[0]) + (EncodeAll(vs[1..]) + rest);
      DecodeAllEncodeAll(vs[1..], total, rest);
      assert Kinds(vs)[1..] == Kinds(vs[1..]);
      assert [vs[0]] + vs[1..] == vs;
    }
  }

  // ---------- the bytes on the wire ----------

  function Weighted(b0: int, b1: int, b2: int, b3: int): int {
    b0 + 256 * b1 + 65536 * b2 + 16777216 * b3
  }

  predicate LittleEndian2(bs: seq<byte>, d: int) {
    |bs| == 2 && d == Weighted(bs[0], bs[1], 0, 0)
  }

  predicate LittleEndian4(bs: seq<byte>, d: int) {
    |bs| == 4 && d == Weighted(bs[0], bs[1], bs[2], bs[3])
  }

  /** Two's complement. */
  function Unsigned(i: i32): int {
    if i >= 0 then i else i + 0x1_0000_0000
  }

  /** The wire format of a value, byte by byte. */
  predicate Wire(v: Value, bs: seq<byte>) {
    match v
    case U8(b) => bs == [b]
    case U16(h) => LittleEndian2(bs, h)
    case U32(w) => LittleEndian4(bs, w)
    case I32(i) => LittleEndian4(bs, Unsigned(i))
    case Bool(t) => bs == if t then [1] else [0]
    case Str(s) => |bs| == 4 + |s| && LittleEndian4(bs[..4], |s|) && bs[4..] == s
  }

  lemma NumberOfTwo(bs: seq<byte>)
    requires |bs| == 2
    ensures LittleEndian2(bs, Number(bs))
  {
    assert bs[1..][1..] == [] && Number(bs[1..]) == bs[1..][0];
  }

  lemma NumberOfFour(bs: seq<byte>)
    requires |bs| == 4
    ensures LittleEndian4(bs, Number(bs))
  {
    NumberOfTwo(bs[2..]);
    assert bs[1..][1..] == bs[2..];
  }

  /** Every value is encoded in the wire format. */
  lemma EncodeIsWire(v: Value)
    requires v.Fits()
    ensures Wire(v, Encode(v))
  {
    hide Number, Bytes;
    match v
    case U8(_) =>
    case Bool(_) =>
    case U16(h) =>
      NumberRoundTrip(h);
      NumberOfTwo(Bytes(h, 2));
    case U32(w) =>
      NumberRoundTrip(w);
      NumberOfFour(Bytes(w, 4));
    case I32(i) =>
      NumberRoundTrip(i % MAX);
      NumberOfFour(Bytes(i % MAX, 4));
    case Str(s) =>
      NumberRoundTrip(|s|);
      NumberOfFour(Bytes(|s|, 4));
      assert Encode(v)[..4] == Bytes(|s|, 4);
  }

  /** What is read from the `bs` left of an array of `total` bytes: any non-zero byte is true, a number in too small an
      array is 0, a string longer than what is left is empty. */
  predicate ReadsAs(total: nat, bs: seq<byte>, v: Value, rest: seq<byte>) {
    match v
    case U8(b) => bs == [b] + rest
    case Bool(t) => |bs| >= 1 && rest == bs[1..] && (t <==> bs[0] > 0)
    case U16(h) => if total < 2 then h == 0 && rest == bs else |bs| >= 2 && LittleEndian2(bs[..2], h) && rest == bs[2..]
    case U32(w) => if total < 4 then w == 0 && rest == bs else |bs| >= 4 && LittleEndian4(bs[..4], w) && rest == bs[4..]
    case I32(i) =>
      if total < 4 then i == 0 && rest == bs
      else |bs| >= 4 && LittleEndian4(bs[..4], Unsigned(i)) && rest == bs[4..]
    case Str(s) =>
      if total < 4 then s == [] && rest == bs
      else
        && |bs| >= 4
        && var size := Weighted(bs[0], bs[1], bs[2], bs[3]);
           if size <= |bs| - 4 then s == bs[4..4 + size] && rest == bs[4 + size..] else s == [] && rest == bs[4..]
  }

  /** `Decode` reads exactly that, and is undefined exactly where a type needs more bytes than are left. */
  lemma DecodeReads(k: Kind, total: nat, bs: seq<byte>)
    requires |bs| <= total
    ensures Decode(k, total, bs) == None <==>
            var need := match k case KU8 => 1 case KBool => 1 case KU16 => 2 case _ => 4;
            |bs| < need <= total || (need == 1 && bs == [])
    ensures Decode(k, total, bs).Some? ==>
            var (v, rest) := Decode(k, total, bs).value;
            v.Kind() == k && ReadsAs(total, bs, v, rest)
  {
    hide Number;
    if |bs| >= 2 {
      NumberOfTwo(bs[..2]);
    }
    if |bs| >= 4 {
      NumberOfFour(bs[..4]);
    }
  }

  // ---------- overlays ----------

  /** An overlay changes exactly the bytes written. */
  lemma OverlayChangesOnly(data: seq<byte>, pos: nat, bs: seq<byte>, i: nat)
    requires pos <= |data|
    ensures |Overlay(data, pos, bs)| == if pos + |bs| <= |data| then |data| else pos + |bs|
    ensures i < |Overlay(data, pos, bs)| ==>
            Overlay(data, pos, bs)[i] ==
            if pos <= i < pos + |bs| then bs[i - pos] else if i < |data| then data[i] else 0
  {}

  lemma OverlayTwice(data: seq<byte>, pos: nat, a: seq<byte>, b: seq<byte>)
    requires pos <= |data|
    ensures pos + |a| <= |Overlay(data, pos, a)|
    ensures Overlay(Overlay(data, pos, a), pos + |a|, b) == Overlay(data, pos, a + b)
  {}

  lemma OverlayRead(data: seq<byte>, pos: nat, bs: seq<byte>)
    requires pos <= |data|
    ensures pos <= |Overlay(data, pos, bs)| && bs <= Overlay(data, pos, bs)[pos..]
  {}

  // ---------- io/ByteArray.cpp ----------

  class ByteArray {
    var mData: seq<byte>

    constructor ()
      ensures mData == []
    {
      mData := [];
    }

    method PushBack(b: byte)
      modifies this
      ensures mData == old(mData) + [b]
    {
      mData := mData + [b];
    }

    /** Out of range nothing happens. */
    method Put(index: nat, b: byte)
      modifies this
      ensures mData == if index < |old(mData)| then old(mData)[index := b] else old(mData)
    {
      if index < |mData| {
        mData := mData[index := b];
      }
    }

    /** Out of range the answer is 0. */
    method Get(index: nat) returns (b: byte)
      ensures b == if index < |mData| then mData[index] else 0
    {
      b := 0;
      if index < |mData| {
        b := mData[index];
      }
    }

    /** Little-endian without a cursor, or 0 where the bytes do not all exist. */
    method GetUint32(index: nat) returns (data: int)
      ensures data == if index + 4 <= |mData| then Number(mData[index..index + 4]) else 0
    {
      data := 0;
      if |mData| >= 4 {
        if index <= |mData| - 4 {
          for i := 0 to 4
            invariant data == Number(mData[index..index + i])
          {
            NumberPush(mData[index..index + i], mData[index + i]);
            assert mData[index..index + i + 1] == mData[index..index + i] + [mData[index + i]];
            data := data + mData[index + i] * Power(i);
          }
        }
      }
    }
  }

  /** Adding a higher byte: the accumulation the readers perform. */
  lemma {:induction false} NumberPush(bs: seq<byte>, b: byte)
    ensures Number(bs + [b]) == Number(bs) + b * Power(|bs|)
  {
    if bs == [] {
      assert ([b])[1..] == [];
    } else {
      NumberPush(bs[1..], b);
      assert (bs + [b])[1..] == bs[1..] + [b];
      assert 256 * (b * Power(|bs| - 1)) == b * Power(|bs|);
    }
  }

  // ---------- io/ByteStreamWriter.cpp ----------

  class Writer {
    const mArray: ByteArray
    var mIndex: nat

    ghost predicate Valid()
      reads this, mArray
    {
      mIndex <= |mArray.mData| < MAX
    }

    constructor (store: ByteArray)
      requires |store.mData| < MAX
      ensures mArray == store && mIndex == |store.mData| && Valid()
    {
      mArray := store;
      mIndex := |store.mData|;
    }

    method Seek(pos: nat)
      requires Valid()
      modifies this
      ensures Valid() && mIndex == if pos < |mArray.mData| then pos else |mArray.mData|
    {
      if pos < |mArray.mData| {
        mIndex := pos;
      } else {
        mIndex := |mArray.mData|;
      }
    }

    method WriteByte(d: byte)
      requires Valid() && mIndex + 1 < MAX
      modifies this, mArray
      ensures Valid() && mIndex == old(mIndex) + 1
      ensures mArray.mData == Overlay(old(mArray.mData), old(mIndex), [d])
    {
      if mIndex >= |mArray.mData| {
        mArray.PushBack(d);
      } else {
        mArray.Put(mIndex, d);
      }
      mIndex := mIndex + 1;
    }

    /** The loops of `operator<<` for 16- and 32-bit numbers. */
    method WriteNumber(d: nat, n: nat)
      requires Valid() && mIndex + n < MAX
      modifies this, mArray
      ensures Valid() && mIndex == old(mIndex) + n
      ensures mArray.mData == Overlay(old(mArray.mData), old(mIndex), Bytes(d, n))
    {
      hide Overlay, Bytes;
      var data := d;
      ghost var done: seq<byte> := [];
      assert [] + Bytes(d, n) == Bytes(d, n);
      OverlayNothing(mArray.mData, mIndex);
      for i := 0 to n
        invariant Valid() && mIndex == old(mIndex) + i && |done| == i && data >= 0
        invariant mArray.mData == Overlay(old(mArray.mData), old(mIndex), done)
        invariant Bytes(d, n) == done + Bytes(data, n - i)
      {
        var b := data % 256;
        OverlayTwice(old(mArray.mData), old(mIndex), done, [b]);
        BytesStep(data, n - i);
        assert done + ([b] + Bytes(data / 256, n - i - 1)) == (done + [b]) + Bytes(data / 256, n - i - 1);
        WriteByte(b);
        data := data / 256;
        done := done + [b];
      }
      assert done + Bytes(data, 0) == done;
    }

    method WriteString(s: seq<byte>)
      requires Valid() && |s| < MAX && mIndex + 4 + |s| < MAX
      modifies this, mArray
      ensures Valid() && mIndex == old(mIndex) + 4 + |s|
      ensures mArray.mData == Overlay(old(mArray.mData), old(mIndex), Bytes(|s|, 4) + s)
    {
      hide Bytes;
      WriteNumber(|s|, 4);
      ghost var prefix := Bytes(|s|, 4);
      assert prefix + s[..0] == prefix;
      for i := 0 to |s|
        invariant Valid() && mIndex == old(mIndex) + 4 + i
        invariant mArray.mData == Overlay(old(mArray.mData), old(mIndex), prefix + s[..i])
      {
        OverlayTwice(old(mArray.mData), old(mIndex), prefix + s[..i], [s[i]]);
        WriteByte(s[i]);
        assert prefix + s[..i + 1] == (prefix + s[..i]) + [s[i]];
      }
      assert s[..|s|] == s;
    }

    /** `operator<<` for each type. */
    method Write(v: Value)
      requires Valid() && v.Fits() && mIndex + |Encode(v)| < MAX
      modifies this, mArray
      ensures Valid() && mIndex == old(mIndex) + |Encode(v)|
      ensures mArray.mData == Overlay(old(mArray.mData), old(mIndex), Encode(v))
      ensures old(mIndex) <= mIndex && Wire(v, mArray.mData[old(mIndex)..mIndex])
    {
      hide Bytes, Overlay, Wire;
      WireWritten(v, mArray.mData, mIndex);
      match v
      case U8(b) => WriteByte(b);
      case U16(h) => WriteNumber(h, 2);
      case U32(w) => WriteNumber(w, 4);
      case I32(i) => WriteNumber(i % MAX, 4);
      case Bool(t) => WriteByte(if t then 1 else 0);
      case Str(s) => WriteString(s);
    }

    method WriteAll(vs: seq<Value>)
      requires Valid() && (forall i :: 0 <= i < |vs| ==> vs[i].Fits()) && mIndex + |EncodeAll(vs)| < MAX
      modifies this, mArray
      ensures Valid() && mIndex == old(mIndex) + |EncodeAll(vs)|
      ensures mArray.mData == Overlay(old(mArray.mData), old(mIndex), EncodeAll(vs))
    {
      hide Encode, Overlay;
      OverlayNothing(mArray.mData, mIndex);
      for i := 0 to |vs|
        invariant Valid() && mIndex == old(mIndex) + |EncodeAll(vs[..i])|
        invariant mArray.mData == Overlay(old(mArray.mData), old(mIndex), EncodeAll(vs[..i]))
      {
        EncodeAllNext(vs, i);
        OverlayTwice(old(mArray.mData), old(mIndex), EncodeAll(vs[..i]), Encode(vs[i]));
        Write(vs[i]);
      }
      assert vs[..|vs|] == vs;
    }
  }

  lemma WireWritten(v: Value, data: seq<byte>, pos: nat)
    requires v.Fits() && pos <= |data|
    ensures pos + |Encode(v)| <= |Overlay(data, pos, Encode(v))|
    ensures Wire(v, Overlay(data, pos, Encode(v))[pos..pos + |Encode(v)|])
  {
    hide Encode, Overlay, Wire;
    EncodeIsWire(v);
    var end := Overlay(data, pos, Encode(v));
    OverlayRead(data, pos, Encode(v));
    OverlayLength(data, pos, Encode(v));
    assert end[pos..pos + |Encode(v)|] == end[pos..][..|Encode(v)|] == Encode(v);
  }

  lemma OverlayLength(data: seq<byte>, pos: nat, bs: seq<byte>)
    requires pos <= |data|
    ensures pos + |bs| <= |Overlay(data, pos, bs)|
  {}

  lemma BytesStep(d: int, n: nat)
    requires n > 0
    ensures Bytes(d, n) == [d % 256] + Bytes(d / 256, n - 1)
  {}

  lemma OverlayNothing(data: seq<byte>, pos: nat)
    requires pos <= |data|
    ensures Overlay(data, pos, []) == data
  {}

  lemma EncodeAllNext(vs: seq<Value>, i: nat)
    requires i < |vs|
    ensures EncodeAll(vs[..i + 1]) == EncodeAll(vs[..i]) + Encode(vs[i])
    ensures |EncodeAll(vs[..i + 1])| <= |EncodeAll(vs)|
  {
    hide Encode;
    assert vs[..i + 1][..i] == vs[..i];
    EncodeAllPrefix(vs, i + 1);
  }

  lemma {:induction false} EncodeAllPrefix(vs: seq<Value>, i: nat)
    requires i <= |vs|
    ensures |EncodeAll(vs[..i])| <= |EncodeAll(vs)|
    decreases |vs|
  {
    hide Encode;
    if i == |vs| {
      assert vs[..i] == vs;
    } else {
      EncodeAllPrefix(vs[..|vs| - 1], i);
      assert vs[..|vs| - 1][..i] == vs[..i];
    }
  }

  // ---------- io/ByteStreamReader.cpp ----------

  class Reader {
    const mArray: ByteArray
    var mIndex: nat

    ghost predicate Valid()
      reads this, mArray
    {
      mIndex <= |mArray.mData| < MAX
    }

    ghost function Remaining(): seq<byte>
      requires Valid()
      reads this, mArray
    {
      mArray.mData[mIndex..]
    }

    constructor (store: ByteArray)
      requires |store.mData| < MAX
      ensures mArray == store && mIndex == 0 && Valid()
    {
      mArray := store;
      mIndex := 0;
    }

    method Seek(pos: nat)
      requires Valid()
      modifies this
      ensures Valid() && mIndex == if pos < |mArray.mData| then pos else |mArray.mData|
    {
      if pos < |mArray.mData| {
        mIndex := pos;
      } else {
        mIndex := |mArray.mData|;
      }
    }

    /** At the end the variable read into keeps its value. */
    method ReadByte(d0: byte) returns (d: byte)
      requires Valid()
      modifies this
      ensures Valid()
      ensures if old(Remaining()) == [] then d == d0 && mIndex == old(mIndex)
              else d == old(Remaining())[0] && mIndex == old(mIndex) + 1
    {
      d := d0;
      if mIndex < |mArray.mData| {
        d := mArray.Get(mIndex);
        mIndex := mIndex + 1;
      }
    }

    /** The loops of `operator>>` for 16- and 32-bit numbers; in too small an array nothing is read. */
    method ReadNumber(n: nat) returns (d: nat)
      requires Valid() && (n <= |Remaining()| || |mArray.mData| < n)
      modifies this
      ensures Valid() && DecodeNumber(n, |mArray.mData|, old(Remaining())) == Some((d, Remaining()))
      ensures if |mArray.mData| < n then d == 0 && mIndex == old(mIndex)
              else d == Number(old(Remaining())[..n]) && mIndex == old(mIndex) + n
    {
      ghost var bs := Remaining();
      assert bs == bs[0..];
      d := 0;
      if |mArray.mData| >= n {
        var b: byte := 0;
        for i := 0 to n
          invariant Valid() && mIndex == old(mIndex) + i && d == Number(bs[..i])
        {
          b := ReadByte(b);
          NumberPush(bs[..i], bs[i]);
          assert bs[..i + 1] == bs[..i] + [bs[i]];
          d := d + b * Power(i);
        }
      }
    }

    /** Appends to the string it reads into; a size beyond what is left reads no characters. */
    method ReadString(s0: seq<byte>) returns (s: seq<byte>)
      requires Valid() && (4 <= |Remaining()| || |mArray.mData| < 4)
      modifies this
      ensures Valid()
      ensures var (n, rest) := DecodeNumber(4, |mArray.mData|, old(Remaining())).value;
              if n <= |rest| then s == s0 + rest[..n] && Remaining() == rest[n..]
              else s == s0 && Remaining() == rest
    {
      hide Number, DecodeNumber;
      s := s0;
      var size := ReadNumber(4);
      ghost var rest, at := Remaining(), mIndex;
      if size <= |mArray.mData| - mIndex {
        var b: byte := 0;
        for i := 0 to size
          invariant Valid() && mIndex == at + i && s == s0 + rest[..i]
        {
          b := ReadByte(b);
          s := s + [b];
        }
      }
    }

    /** `operator>>` for each type, into a fresh variable. */
    method Read(k: Kind) returns (v: Value)
      requires Valid() && Decode(k, |mArray.mData|, Remaining()).Some?
      modifies this
      ensures Valid() && Decode(k, |mArray.mData|, old(Remaining())) == Some((v, Remaining()))
      ensures v.Kind() == k && ReadsAs(|mArray.mData|, old(Remaining()), v, Remaining())
    {
      hide Number, ReadsAs, DecodeNumber;
      ghost var bs := Remaining();
      ghost var total := |mArray.mData|;
      DecodeReads(k, total, bs);
      match k {
        case KU8 =>
          var b := ReadByte(0);
          v := U8(b);
        case KBool =>
          var b := ReadByte(0);
          v := Bool(b != 0);
        case KU16 =>
          DecodedBound(2, total, bs);
          var d := ReadNumber(2);
          v := U16(d);
        case KU32 =>
          DecodedBound(4, total, bs);
          var d := ReadNumber(4);
          v := U32(d);
        case KI32 =>
          DecodedBound(4, total, bs);
          var d := ReadNumber(4);
          v := I32(AsSigned(d));
        case KStr =>
          DecodedBound(4, total, bs);
          var s := ReadString([]);
          ghost var (n, rest) := DecodeNumber(4, total, bs).value;
          if n <= |rest| {
            assert [] + rest[..n] == rest[..n];
          }
          v := Str(s);
      }
    }

    method ReadAll(ks: seq<Kind>) returns (vs: seq<Value>)
      requires Valid() && DecodeAll(ks, |mArray.mData|, Remaining()).Some?
      modifies this
      ensures Valid() && DecodeAll(ks, |mArray.mData|, old(Remaining())) == Some((vs, Remaining()))
      decreases |ks|
    {
      hide Decode;
      if ks == [] {
        return [];
      }
      var v := Read(ks[0]);
      var rest := ReadAll(ks[1..]);
      vs := [v] + rest;
    }
  }

  // ---------- the pair ----------

  /** Write any list at any position, then read the same types there: the list comes back, both cursors are at the end
      of the written bytes, and exactly those bytes changed. */
  method WriteThenRead(store: ByteArray, pos: nat, vs: seq<Value>) returns (rs: seq<Value>, w: Writer, r: Reader)
    requires |store.mData| + |EncodeAll(vs)| < MAX && forall i :: 0 <= i < |vs| ==> vs[i].Fits()
    modifies store
    ensures rs == vs
    ensures var at := if pos < |old(store.mData)| then pos else |old(store.mData)|;
            && store.mData == Overlay(old(store.mData), at, EncodeAll(vs))
            && w.mIndex == r.mIndex == at + |EncodeAll(vs)|
  {
    hide Encode, Overlay, EncodeAll, DecodeAll;
    w := new Writer(store);
    w.Seek(pos);
    var at := w.mIndex;
    w.WriteAll(vs);
    r := new Reader(store);
    r.Seek(at);
    OverlayRead(old(store.mData), at, EncodeAll(vs));
    ghost var rest := r.Remaining()[|EncodeAll(vs)|..];
    assert r.Remaining() == EncodeAll(vs) + rest;
    DecodeAllEncodeAll(vs, |store.mData|, rest);
    rs := r.ReadAll(Kinds(vs));
    assert |r.Remaining()| == |rest|;
  }
}
