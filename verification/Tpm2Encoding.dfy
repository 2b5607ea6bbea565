/**
 The TPM 2.0 wire format: big-endian integers, byte strings behind a sixteen-bit
 length, and structures field by field.
 */
module Tpm2Encoding {
  import opened Wrappers
  import opened Sequences

  type UInt16 = x: int | 0 <= x < 0x1_0000
  type UInt32 = x: int | 0 <= x < 0x1_0000_0000
  type UInt64 = x: int | 0 <= x < 0x1_0000_0000_0000_0000

  /**
   The values that can be handed to the packer.  `OtherSlice` is a slice of
   anything but bytes, `Other` anything else the wire format has no form for.
   */
  datatype Val =
    | U8(u8: Byte)
    | U16(u16: UInt16)
    | U32(u32: UInt32)
    | U64(u64: UInt64)
    | Bytes(bytes: seq<Byte>)
    | Struct(fields: seq<Val>)
    | Ptr(target: Val)
    | OtherSlice
    | Other

  // ----- big-endian integers

  function Pow256(k: nat): (p: nat)
    ensures p > 0
  {
    if k == 0 then 1 else 256 * Pow256(k - 1)
  }

  function BigEndian(n: nat, k: nat): (s: seq<Byte>)
    ensures |s| == k
  {
    if k == 0 then [] else BigEndian(n / 256, k - 1) + [n % 256]
  }

  function FromBigEndian(s: seq<Byte>): nat {
    if s == [] then 0 else 256 * FromBigEndian(s[..|s| - 1]) + s[|s| - 1]
  }

  lemma {:induction false} FromBigEndianInverts(n: nat, k: nat)
    requires n < Pow256(k)
    ensures FromBigEndian(BigEndian(n, k)) == n
  {
    if k > 0 {
      FromBigEndianInverts(n / 256, k - 1);
      var s := BigEndian(n, k);
      assert s[..|s| - 1] == BigEndian(n / 256, k - 1);
    }
  }

  /** The bytes of a number, the high one first. */
  function TwoBytes(n: UInt16): seq<Byte> {
    [n / 0x100 % 256, n % 256]
  }

  function FourBytes(n: UInt32): seq<Byte> {
    [n / 0x100_0000 % 256, n / 0x1_0000 % 256, n / 0x100 % 256, n % 256]
  }

  lemma TwoBytesOf(n: UInt16)
    ensures BigEndian(n, 2) == TwoBytes(n)
  {
    BytesOfIntegers(n);
  }

  lemma FourBytesOf(n: UInt32)
    ensures BigEndian(n, 4) == FourBytes(n)
  {
    BytesOfIntegers(n);
  }

  lemma {:induction false} FourMoreBytes(n: nat, k: nat)
    ensures BigEndian(n, k + 4) ==
              BigEndian(n / 0x1_0000_0000, k) + [n / 0x100_0000 % 256, n / 0x1_0000 % 256, n / 0x100 % 256, n % 256]
  {
    var n1, n2, n3 := n / 0x100, n / 0x1_0000, n / 0x100_0000;
    assert BigEndian(n3, k + 1) == BigEndian(n3 / 0x100, k) + [n3 % 256];
    assert BigEndian(n2, k + 2) == BigEndian(n2 / 0x100, k + 1) + [n2 % 256];
    assert BigEndian(n1, k + 3) == BigEndian(n1 / 0x100, k + 2) + [n1 % 256];
  }

  /** The high byte comes first: the bytes of integers of each size. */
  lemma BytesOfIntegers(n: nat)
    ensures BigEndian(n, 1) == [n % 256]
    ensures BigEndian(n, 2) == [n / 0x100 % 256, n % 256]
    ensures BigEndian(n, 4) == [n / 0x100_0000 % 256, n / 0x1_0000 % 256, n / 0x100 % 256, n % 256]
    ensures BigEndian(n, 8) == BigEndian(n / 0x1_0000_0000, 4) + BigEndian(n, 4)
  {
    assert BigEndian(n, 2) == BigEndian(n / 0x100, 1) + [n % 256];
    FourMoreBytes(n, 0);
    FourMoreBytes(n, 4);
  }

  lemma {:induction false} FromBigEndianBound(s: seq<Byte>)
    ensures FromBigEndian(s) < Pow256(|s|)
  {
    if s != [] {
      FromBigEndianBound(s[..|s| - 1]);
    }
  }

  lemma Powers()
    ensures Pow256(1) == 0x100 && Pow256(2) == 0x1_0000 && Pow256(4) == 0x1_0000_0000
    ensures Pow256(8) == 0x1_0000_0000_0000_0000
  {
    assert Pow256(3) == 0x100_0000;
    assert Pow256(4) == 0x1_0000_0000;
    assert Pow256(5) == 0x100_0000_0000;
    assert Pow256(6) == 0x1_0000_0000_0000;
    assert Pow256(7) == 0x100_0000_0000_0000;
  }

  // ----- packing

  /** The encoding of a value; byte strings keep only the low sixteen bits of their length. */
  function Encode(v: Val): Option<seq<Byte>>
    decreases v
  {
    match v
    case U8(n) => Some(BigEndian(n, 1))
    case U16(n) => Some(BigEndian(n, 2))
    case U32(n) => Some(BigEndian(n, 4))
    case U64(n) => Some(BigEndian(n, 8))
    case Bytes(b) => Some(BigEndian(|b| % 0x1_0000, 2) + b)
    case Struct(fields) => EncodeAll(fields)
    case Ptr(target) => Encode(target)
    case OtherSlice => None
    case Other => None
  }

  function EncodeAll(vs: seq<Val>): Option<seq<Byte>>
    decreases vs
  {
    if vs == [] then Some([])
    else
      match (Encode(vs[0]), EncodeAll(vs[1..]))
      case (Some(s), Some(rest)) => Some(s + rest)
      case _ => None
  }

  class Buffer {
    var data: seq<Byte>

    constructor (data: seq<Byte>)
      ensures this.data == data
    {
      this.data := data;
    }

    method Write(s: seq<Byte>)
      modifies this
      ensures data == old(data) + s
    {
      data := data + s;
    }
  }

  lemma {:induction false} EncodeAllSplits(vs: seq<Val>, ws: seq<Val>)
    ensures EncodeAll(vs + ws).Some? <==> EncodeAll(vs).Some? && EncodeAll(ws).Some?
    ensures EncodeAll(vs + ws).Some? ==> EncodeAll(vs + ws).value == EncodeAll(vs).value + EncodeAll(ws).value
    decreases vs
  {
    if vs == [] {
      assert vs + ws == ws;
    } else {
      assert (vs + ws)[1..] == vs[1..] + ws;
      EncodeAllSplits(vs[1..], ws);
    }
  }

  lemma EncodeAllStep(vs: seq<Val>, i: nat)
    requires i < |vs|
    ensures EncodeAll(vs[..i + 1]).Some? <==> EncodeAll(vs[..i]).Some? && Encode(vs[i]).Some?
    ensures EncodeAll(vs[..i + 1]).Some? ==>
              EncodeAll(vs[..i + 1]).value == EncodeAll(vs[..i]).value + Encode(vs[i]).value
    ensures EncodeAll(vs[..i + 1]).None? ==> EncodeAll(vs).None?
  {
    SplitAt(vs, i);
    EncodeAllSplits(vs[..i], [vs[i]]);
    assert EncodeAll([vs[i]][1..]) == Some([]);
    EncodeAllSplits(vs[..i + 1], vs[i + 1..]);
  }

  /** Writes the encodings of the elements in order; fails on the first element without one. */
  method PackType(buf: Buffer, elts: seq<Val>) returns (ok: bool)
    modifies buf
    ensures ok == EncodeAll(elts).Some?
    ensures ok ==> buf.data == old(buf.data) + EncodeAll(elts).value
    decreases elts, 1
  {
    for i := 0 to |elts|
      invariant EncodeAll(elts[..i]).Some? && buf.data == old(buf.data) + EncodeAll(elts[..i]).value
    {
      EncodeAllStep(elts, i);
      ok := PackOne(buf, elts[i]);
      if !ok {
        return;
      }
    }
    assert elts[..|elts|] == elts;
    ok := true;
  }

  method PackOne(buf: Buffer, e: Val) returns (ok: bool)
    modifies buf
    ensures ok == Encode(e).Some?
    ensures ok ==> buf.data == old(buf.data) + Encode(e).value
    decreases e, 0
  {
    match e {
      case U8(n) => buf.Write(BigEndian(n, 1));
      case U16(n) => buf.Write(BigEndian(n, 2));
      case U32(n) => buf.Write(BigEndian(n, 4));
      case U64(n) => buf.Write(BigEndian(n, 8));
      case Bytes(b) =>
        buf.Write(BigEndian(|b| % 0x1_0000, 2));
        buf.Write(b);
      case Struct(fields) =>
        ok := PackType(buf, fields);
        return;
      case Ptr(target) =>
        ok := PackOne(buf, target);
        return;
      case OtherSlice => return false;
      case Other => return false;
    }
    ok := true;
  }

  method Pack(elts: seq<Val>) returns (r: Option<seq<Byte>>)
    ensures r == EncodeAll(elts)
  {
    var buf := new Buffer([]);
    var ok := PackType(buf, elts);
    assert ok ==> [] + EncodeAll(elts).value == EncodeAll(elts).value;
    r := if ok then Some(buf.data) else None;
  }

  // ----- sizes

  /** The size of the packed elements, or -1 if they cannot be packed. */
  method PackedSize(elts: seq<Val>) returns (size: int)
    ensures size == match EncodeAll(elts) case None => -1 case Some(s) => |s|
    decreases elts, 1
  {
    size := 0;
    for i := 0 to |elts|
      invariant EncodeAll(elts[..i]).Some? && size == |EncodeAll(elts[..i]).value|
    {
      EncodeAllStep(elts, i);
      var s := PackedSizeOne(elts[i]);
      if s < 0 {
        return s;
      }
      size := size + s;
    }
    assert elts[..|elts|] == elts;
  }

  method PackedSizeOne(e: Val) returns (size: int)
    ensures size == match Encode(e) case None => -1 case Some(s) => |s|
    decreases e, 0
  {
    match e {
      case U8(_) => size := 1;
      case U16(_) => size := 2;
      case U32(_) => size := 4;
      case U64(_) => size := 8;
      case Bytes(b) => size := 2 + |b|;
      case Struct(fields) => size := PackedSize(fields);
      case Ptr(target) => size := PackedSizeOne(target);
      case OtherSlice => size := -1;
      case Other => size := -1;
    }
  }

  // ----- unpacking

  /** Reads `k` bytes as one integer. */
  function ReadInt(s: seq<Byte>, k: nat): (r: Option<(nat, seq<Byte>)>)
    ensures r.Some? ==> r.value.0 < Pow256(k) && |r.value.1| == |s| - k
  {
    if |s| < k then None
    else
      FromBigEndianBound(s[..k]);
      Some((FromBigEndian(s[..k]), s[k..]))
  }

  /** Reads into a memory cell that already holds a value: a zero length leaves a byte string as it was. */
  function DecodeCell(cell: Val, s: seq<Byte>): (r: Option<(Val, seq<Byte>)>)
    ensures r.Some? ==> |r.value.1| <= |s|
    decreases cell
  {
    Powers();
    match cell
    case U8(_) => (match ReadInt(s, 1) case None => None case Some((n, rest)) => Some((U8(n), rest)))
    case U16(_) => (match ReadInt(s, 2) case None => None case Some((n, rest)) => Some((U16(n), rest)))
    case U32(_) => (match ReadInt(s, 4) case None => None case Some((n, rest)) => Some((U32(n), rest)))
    case U64(_) => (match ReadInt(s, 8) case None => None case Some((n, rest)) => Some((U64(n), rest)))
    case Bytes(b) =>
      (match ReadInt(s, 2)
       case None => None
       case Some((n, rest)) =>
         if n == 0 then Some((cell, rest))
         else if |rest| < n then None
         else Some((Bytes(rest[..n]), rest[n..])))
    case Struct(fields) =>
      (match DecodeCells(fields, s) case None => None case Some((vs, rest)) => Some((Struct(vs), rest)))
    case OtherSlice =>
      (match ReadInt(s, 2) case None => None case Some((n, rest)) => if n == 0 then Some((cell, rest)) else None)
    case Ptr(_) => None
    case Other => None
  }

  function DecodeCells(cells: seq<Val>, s: seq<Byte>): (r: Option<(seq<Val>, seq<Byte>)>)
    ensures r.Some? ==> |r.value.1| <= |s| && |r.value.0| == |cells|
    decreases cells
  {
    if cells == [] then Some(([], s))
    else
      match DecodeCell(cells[0], s)
      case None => None
      case Some((v, rest)) =>
        match DecodeCells(cells[1..], rest)
        case None => None
        case Some((vs, rest')) => Some(([v] + vs, rest'))
  }

  /** Fills the cells behind a list of pointers; anything but a pointer is refused when its turn comes. */
  function Decode(targets: seq<Val>, s: seq<Byte>): (r: Option<(seq<Val>, seq<Byte>)>)
    ensures r.Some? ==> |r.value.1| <= |s| && |r.value.0| == |targets|
  {
    if targets == [] then Some(([], s))
    else if !targets[0].Ptr? then None
    else
      match DecodeCell(targets[0].target, s)
      case None => None
      case Some((v, rest)) =>
        match Decode(targets[1..], rest)
        case None => None
        case Some((vs, rest')) => Some(([Ptr(v)] + vs, rest'))
  }

  lemma {:induction false} DecodeCellsSplits(cells: seq<Val>, more: seq<Val>, s: seq<Byte>)
    ensures DecodeCells(cells + more, s) ==
              match DecodeCells(cells, s)
              case None => None
              case Some((vs, rest)) =>
                match DecodeCells(more, rest)
                case None => None
                case Some((ws, rest')) => Some((vs + ws, rest'))
    decreases cells
  {
    if cells == [] {
      assert cells + more == more;
      assert forall ws: seq<Val> :: [] + ws == ws;
    } else {
      assert (cells + more)[1..] == cells[1..] + more;
      match DecodeCell(cells[0], s) {
        case None =>
        case Some((v, rest)) =>
          DecodeCellsSplits(cells[1..], more, rest);
          assert forall vs: seq<Val>, ws: seq<Val> :: [v] + (vs + ws) == [v] + vs + ws;
      }
    }
  }

  lemma SplitAt(vs: seq<Val>, i: nat)
    requires i < |vs|
    ensures vs[..i + 1] == vs[..i] + [vs[i]] && vs == vs[..i + 1] + vs[i + 1..]
  {
  }

  lemma DecodeSingle(cell: Val, s: seq<Byte>)
    ensures DecodeCells([cell], s) ==
              match DecodeCell(cell, s) case None => None case Some((v, rest)) => Some(([v], rest))
  {
    assert [cell][1..] == [];
    assert forall v: Val :: [v] + [] == [v];
  }

  /** One more cell: what the loop has read so far, followed by cell `i`. */
  lemma DecodeCellsStep(cells: seq<Val>, i: nat, s: seq<Byte>, vs: seq<Val>, rest: seq<Byte>)
    requires i < |cells| && DecodeCells(cells[..i], s) == Some((vs, rest))
    ensures match DecodeCell(cells[i], rest)
            case None => DecodeCells(cells, s) == None
            case Some((v, rest')) => DecodeCells(cells[..i + 1], s) == Some((vs + [v], rest'))
  {
    SplitAt(cells, i);
    DecodeCellsSplits(cells[..i], [cells[i]], s);
    DecodeSingle(cells[i], rest);
    DecodeCellsSplits(cells[..i + 1], cells[i + 1..], s);
  }

  /** A list of targets reads like the cells behind its pointers. */
  lemma {:induction false} DecodePointers(targets: seq<Val>, s: seq<Byte>)
    ensures Decode(targets, s) ==
              match DecodeCells(Targets(targets), s)
              case None => None
              case Some((vs, rest)) => Some((Pointers(vs), rest))
  {
    if targets != [] {
      assert Targets(targets)[1..] == Targets(targets[1..]);
      match DecodeCell(Targets(targets)[0], s) {
        case None =>
        case Some((v, rest)) =>
          DecodePointers(targets[1..], rest);
          assert forall vs: seq<Val> :: Pointers([v] + vs) == [Ptr(v)] + Pointers(vs);
      }
    }
  }

  predicate AllPointers(vs: seq<Val>) {
    forall i :: 0 <= i < |vs| ==> vs[i].Ptr?
  }

  /** The cells behind the pointers; what is not a pointer has no cell to read into. */
  function Targets(vs: seq<Val>): (ts: seq<Val>)
    ensures |ts| == |vs|
  {
    seq(|vs|, i requires 0 <= i < |vs| => if vs[i].Ptr? then vs[i].target else Other)
  }

  function Pointers(vs: seq<Val>): (ps: seq<Val>)
    ensures |ps| == |vs|
  {
    seq(|vs|, i requires 0 <= i < |vs| => Ptr(vs[i]))
  }

  /** Takes `k` bytes off the front of the buffer. */
  method ReadBytes(buf: Buffer, k: nat) returns (s: Option<seq<Byte>>)
    modifies buf
    ensures s.Some? <==> k <= |old(buf.data)|
    ensures s.Some? ==> s.value == old(buf.data)[..k] && buf.data == old(buf.data)[k..]
    ensures s.None? ==> buf.data == old(buf.data)
  {
    if |buf.data| < k {
      return None;
    }
    s := Some(buf.data[..k]);
    buf.data := buf.data[k..];
  }

  /** Cuts a byte string to the given size, or fills it up with zeros. */
  method ResizeBytes(b: seq<Byte>, size: nat) returns (r: seq<Byte>)
    ensures |r| == size && (r <= b || b <= r)
  {
    if |b| > size {
      r := b[..size];
    } else {
      r := b + seq(size - |b|, i => 0);
    }
  }

  /** Reads one cell; a failing read may have consumed part of the buffer. */
  method UnpackCell(buf: Buffer, cell: Val) returns (r: Option<Val>)
    modifies buf
    ensures match DecodeCell(cell, old(buf.data))
            case None => r == None
            case Some((v, rest)) => r == Some(v) && buf.data == rest
    decreases cell, 0
  {
    Powers();
    match cell {
      case U8(_) =>
        var s := ReadBytes(buf, 1);
        if s.None? { return None; }
        FromBigEndianBound(s.value);
        r := Some(U8(FromBigEndian(s.value)));
      case U16(_) =>
        var s := ReadBytes(buf, 2);
        if s.None? { return None; }
        FromBigEndianBound(s.value);
        r := Some(U16(FromBigEndian(s.value)));
      case U32(_) =>
        var s := ReadBytes(buf, 4);
        if s.None? { return None; }
        FromBigEndianBound(s.value);
        r := Some(U32(FromBigEndian(s.value)));
      case U64(_) =>
        var s := ReadBytes(buf, 8);
        if s.None? { return None; }
        FromBigEndianBound(s.value);
        r := Some(U64(FromBigEndian(s.value)));
      case Bytes(b) =>
        var len := ReadBytes(buf, 2);
        if len.None? { return None; }
        var size := FromBigEndian(len.value);
        if size == 0 { return Some(cell); }
        var room := ResizeBytes(b, size);
        var content := ReadBytes(buf, |room|);
        if content.None? { return None; }
        r := Some(Bytes(content.value));
      case Struct(fields) =>
        var vs := UnpackCells(buf, fields);
        r := if vs.None? then None else Some(Struct(vs.value));
      case OtherSlice =>
        var len := ReadBytes(buf, 2);
        r := if len.None? || FromBigEndian(len.value) != 0 then None else Some(cell);
      case Ptr(_) => r := None;
      case Other => r := None;
    }
  }

  method UnpackCells(buf: Buffer, cells: seq<Val>) returns (r: Option<seq<Val>>)
    modifies buf
    ensures match DecodeCells(cells, old(buf.data))
            case None => r == None
            case Some((vs, rest)) => r == Some(vs) && buf.data == rest
    decreases cells, 1
  {
    var vs: seq<Val> := [];
    for i := 0 to |cells|
      invariant DecodeCells(cells[..i], old(buf.data)) == Some((vs, buf.data))
    {
      DecodeCellsStep(cells, i, old(buf.data), vs, buf.data);
      var v := UnpackCell(buf, cells[i]);
      if v.None? {
        return None;
      }
      vs := vs + [v.value];
    }
    assert cells[..|cells|] == cells;
    r := Some(vs);
  }

  method Unpack(b: seq<Byte>, targets: seq<Val>) returns (r: Option<(seq<Val>, seq<Byte>)>)
    ensures r == Decode(targets, b)
  {
    DecodePointers(targets, b);
    var buf := new Buffer(b);
    var vs := UnpackCells(buf, Targets(targets));
    r := if vs.None? then None else Some((Pointers(vs.value), buf.data));
  }

  // ----- the round trip

  /**
   The cell has the type of the value, and every byte string comes back: it is short
   enough, and not an empty one hiding old content.
   */
  predicate Restores(cell: Val, v: Val)
    decreases v
  {
    match (cell, v)
    case (U8(_), U8(_)) => true
    case (U16(_), U16(_)) => true
    case (U32(_), U32(_)) => true
    case (U64(_), U64(_)) => true
    case (Bytes(before), Bytes(b)) => |b| < 0x1_0000 && (b == [] ==> before == [])
    case (Struct(cells), Struct(vs)) => RestoresAll(cells, vs)
    case _ => false
  }

  predicate RestoresAll(cells: seq<Val>, vs: seq<Val>)
    decreases vs
  {
    |cells| == |vs| && forall i :: 0 <= i < |vs| ==> Restores(cells[i], vs[i])
  }

  lemma ReadIntInverts(n: nat, k: nat, rest: seq<Byte>)
    requires n < Pow256(k)
    ensures ReadInt(BigEndian(n, k) + rest, k) == Some((n, rest))
  {
    FromBigEndianInverts(n, k);
    var s := BigEndian(n, k) + rest;
    assert s[..k] == BigEndian(n, k) && s[k..] == rest;
  }

  lemma BytesRoundTrip(before: seq<Byte>, b: seq<Byte>, rest: seq<Byte>)
    requires |b| < 0x1_0000
    ensures DecodeCell(Bytes(before), Encode(Bytes(b)).value + rest) ==
              Some((Bytes(if b == [] then before else b), rest))
  {
    Powers();
    var s := BigEndian(|b|, 2) + b + rest;
    assert Encode(Bytes(b)).value + rest == s;
    assert s == BigEndian(|b|, 2) + (b + rest);
    ReadIntInverts(|b|, 2, b + rest);
    assert (b + rest)[..|b|] == b && (b + rest)[|b|..] == rest;
  }

  /** Decoding into a fitting cell undoes encoding and leaves what follows untouched. */
  lemma {:induction false} CellRoundTrip(cell: Val, v: Val, rest: seq<Byte>)
    requires Restores(cell, v)
    ensures Encode(v).Some?
    ensures DecodeCell(cell, Encode(v).value + rest) == Some((v, rest))
    decreases v
  {
    Powers();
    match v {
      case U8(n) => ReadIntInverts(n, 1, rest);
      case U16(n) => ReadIntInverts(n, 2, rest);
      case U32(n) => ReadIntInverts(n, 4, rest);
      case U64(n) => ReadIntInverts(n, 8, rest);
      case Bytes(b) => BytesRoundTrip(cell.bytes, b, rest);
      case Struct(vs) => CellsRoundTrip(cell.fields, vs, rest);
    }
  }

  lemma {:induction false} CellsRoundTrip(cells: seq<Val>, vs: seq<Val>, rest: seq<Byte>)
    requires RestoresAll(cells, vs)
    ensures EncodeAll(vs).Some?
    ensures DecodeCells(cells, EncodeAll(vs).value + rest) == Some((vs, rest))
    decreases vs
  {
    if vs == [] {
      assert [] + rest == rest;
    } else {
      CellsRoundTrip(cells[1..], vs[1..], rest);
      var first, others := Encode(vs[0]), EncodeAll(vs[1..]).value;
      CellRoundTrip(cells[0], vs[0], others + rest);
      assert EncodeAll(vs).value + rest == first.value + (others + rest);
      assert [vs[0]] + vs[1..] == vs;
    }
  }

  lemma {:induction false} EncodePointers(vs: seq<Val>)
    requires AllPointers(vs)
    ensures EncodeAll(vs) == EncodeAll(Targets(vs))
  {
    if vs != [] {
      assert Targets(vs)[1..] == Targets(vs[1..]);
      EncodePointers(vs[1..]);
    }
  }

  // ----- the condition for the round trip is exact

  /** `rest` is what is left of `s` after at most `k` bytes. */
  predicate LeavesSuffix(s: seq<Byte>, rest: seq<Byte>, k: nat) {
    |rest| <= |s| && rest == s[|s| - |rest|..] && |s| - |rest| <= k
  }

  /** The number of bytes of an integer cell; zero for any other. */
  function IntWidth(cell: Val): nat {
    match cell
    case U8(_) => 1
    case U16(_) => 2
    case U32(_) => 4
    case U64(_) => 8
    case _ => 0
  }

  lemma IntCellReads(cell: Val, s: seq<Byte>)
    requires IntWidth(cell) > 0 && DecodeCell(cell, s).Some?
    ensures var (v, rest) := DecodeCell(cell, s).value;
            && |s| >= IntWidth(cell) && rest == s[IntWidth(cell)..]
            && IntWidth(v) == IntWidth(cell) && Encode(v).Some? && |Encode(v).value| == IntWidth(cell)
  {
  }

  /** Reading a value never consumes more than its encoding takes. */
  lemma {:induction false} CellConsumesAtMost(cell: Val, s: seq<Byte>)
    requires DecodeCell(cell, s).Some? && Encode(DecodeCell(cell, s).value.0).Some?
    ensures LeavesSuffix(s, DecodeCell(cell, s).value.1, |Encode(DecodeCell(cell, s).value.0).value|)
    decreases cell
  {
    match cell {
      case Bytes(b) => BytesConsumeAtMost(b, s);
      case Struct(fields) => CellsConsumeAtMost(fields, s);
      case U8(_) => IntCellReads(cell, s);
      case U16(_) => IntCellReads(cell, s);
      case U32(_) => IntCellReads(cell, s);
      case U64(_) => IntCellReads(cell, s);
    }
  }

  lemma BytesConsumeAtMost(b: seq<Byte>, s: seq<Byte>)
    requires DecodeCell(Bytes(b), s).Some?
    ensures LeavesSuffix(s, DecodeCell(Bytes(b), s).value.1, |Encode(DecodeCell(Bytes(b), s).value.0).value|)
  {
    var n, tail := FromBigEndian(s[..2]), s[2..];
    if n != 0 {
      assert tail[n..] == s[2 + n..];
    }
  }

  lemma {:induction false} CellsConsumeAtMost(cells: seq<Val>, s: seq<Byte>)
    requires DecodeCells(cells, s).Some? && EncodeAll(DecodeCells(cells, s).value.0).Some?
    ensures LeavesSuffix(s, DecodeCells(cells, s).value.1, |EncodeAll(DecodeCells(cells, s).value.0).value|)
    decreases cells
  {
    if cells != [] {
      var (v, rest) := DecodeCell(cells[0], s).value;
      var (vs, _) := DecodeCells(cells[1..], rest).value;
      assert ([v] + vs)[1..] == vs;
      CellConsumesAtMost(cells[0], s);
      CellsConsumeAtMost(cells[1..], rest);
    }
  }

  lemma ReadsFirst(cells: seq<Val>, s: seq<Byte>, vs: seq<Val>, rest: seq<Byte>) returns (mid: seq<Byte>)
    requires |vs| > 0 && |cells| == |vs| && DecodeCells(cells, s) == Some((vs, rest))
    ensures DecodeCell(cells[0], s) == Some((vs[0], mid)) && DecodeCells(cells[1..], mid) == Some((vs[1..], rest))
  {
    var (v, m) := DecodeCell(cells[0], s).value;
    var (ws, _) := DecodeCells(cells[1..], m).value;
    assert [v] + ws == vs;
    assert ([v] + ws)[1..] == ws;
    mid := m;
  }

  /** If cells read a concatenation of encodings exactly, they split it where the encodings meet. */
  lemma ReadsSplit(cells: seq<Val>, vs: seq<Val>, rest: seq<Byte>)
    requires |vs| > 0 && |cells| == |vs| && EncodeAll(vs).Some?
    ensures var others := EncodeAll(vs[1..]).value;
            DecodeCells(cells, EncodeAll(vs).value + rest) == Some((vs, rest)) ==>
              && DecodeCell(cells[0], Encode(vs[0]).value + (others + rest)) == Some((vs[0], others + rest))
              && DecodeCells(cells[1..], others + rest) == Some((vs[1..], rest))
  {
    var first, others := Encode(vs[0]).value, EncodeAll(vs[1..]).value;
    Assoc(first, others, rest);
    if DecodeCells(cells, EncodeAll(vs).value + rest) == Some((vs, rest)) {
      var mid := ReadsFirst(cells, first + (others + rest), vs, rest);
      CellConsumesAtMost(cells[0], first + (others + rest));
      CellsConsumeAtMost(cells[1..], mid);
      SuffixesMeet(first, others, rest, mid);
    }
  }

  lemma SuffixesMeet(first: seq<Byte>, others: seq<Byte>, rest: seq<Byte>, mid: seq<Byte>)
    requires LeavesSuffix(first + (others + rest), mid, |first|) && LeavesSuffix(mid, rest, |others|)
    ensures mid == others + rest
  {
    assert |mid| == |others + rest|;
  }

  /** Same types, leaving aside what byte strings hold. */
  predicate SameShape(cell: Val, v: Val)
    decreases v
  {
    match (cell, v)
    case (U8(_), U8(_)) => true
    case (U16(_), U16(_)) => true
    case (U32(_), U32(_)) => true
    case (U64(_), U64(_)) => true
    case (Bytes(_), Bytes(_)) => true
    case (Struct(cells), Struct(vs)) => SameShapes(cells, vs)
    case _ => false
  }

  predicate SameShapes(cells: seq<Val>, vs: seq<Val>)
    decreases vs
  {
    |cells| == |vs| && forall i :: 0 <= i < |vs| ==> SameShape(cells[i], vs[i])
  }

  lemma BytesRoundTripIsExact(before: seq<Byte>, b: seq<Byte>, rest: seq<Byte>)
    ensures DecodeCell(Bytes(before), Encode(Bytes(b)).value + rest) == Some((Bytes(b), rest)) <==>
              Restores(Bytes(before), Bytes(b))
  {
    if |b| < 0x1_0000 {
      BytesRoundTrip(before, b, rest);
    } else {
      Powers();
      var n := |b| % 0x1_0000;
      assert Encode(Bytes(b)).value + rest == BigEndian(n, 2) + (b + rest);
      ReadIntInverts(n, 2, b + rest);
    }
  }

  /**
   Exactness: between values and cells of the same types, the round trip holds if
   and only if every byte string is shorter than 65536 bytes and no empty one meets
   a cell with old content.
   */
  lemma {:induction false} CellRoundTripIsExact(cell: Val, v: Val, rest: seq<Byte>)
    requires SameShape(cell, v)
    ensures Encode(v).Some?
    ensures DecodeCell(cell, Encode(v).value + rest) == Some((v, rest)) <==> Restores(cell, v)
    decreases v
  {
    if v.Struct? {
      CellsRoundTripIsExact(cell.fields, v.fields, rest);
    } else if v.Bytes? {
      BytesRoundTripIsExact(cell.bytes, v.bytes, rest);
    } else {
      CellRoundTrip(cell, v, rest);
    }
  }

  lemma {:induction false} CellsRoundTripIsExact(cells: seq<Val>, vs: seq<Val>, rest: seq<Byte>)
    requires SameShapes(cells, vs)
    ensures EncodeAll(vs).Some?
    ensures DecodeCells(cells, EncodeAll(vs).value + rest) == Some((vs, rest)) <==> RestoresAll(cells, vs)
    decreases vs
  {
    if vs == [] {
      CellsRoundTrip(cells, vs, rest);
    } else {
      CellsRoundTripIsExact(cells[1..], vs[1..], rest);
      CellRoundTripIsExact(cells[0], vs[0], EncodeAll(vs[1..]).value + rest);
      if DecodeCells(cells, EncodeAll(vs).value + rest) == Some((vs, rest)) {
        ReadsSplit(cells, vs, rest);
        assert forall i :: 1 <= i < |vs| ==> cells[i] == cells[1..][i - 1] && vs[i] == vs[1..][i - 1];
      }
      if RestoresAll(cells, vs) {
        CellsRoundTrip(cells, vs, rest);
      }
    }
  }

  /**
   The round trip: unpacking what was packed, into targets of the same types, gives
   the values back and leaves any bytes that follow, under exactly that condition.
   */
  lemma UnpackInvertsPack(targets: seq<Val>, vs: seq<Val>, rest: seq<Byte>)
    requires AllPointers(vs) && SameShapes(Targets(targets), Targets(vs))
    ensures EncodeAll(vs).Some?
    ensures Decode(targets, EncodeAll(vs).value + rest) == Some((vs, rest)) <==>
              RestoresAll(Targets(targets), Targets(vs))
  {
    EncodePointers(vs);
    CellsRoundTripIsExact(Targets(targets), Targets(vs), rest);
    DecodePointers(targets, EncodeAll(vs).value + rest);
    assert Pointers(Targets(vs)) == vs;
    match DecodeCells(Targets(targets), EncodeAll(vs).value + rest) {
      case None =>
      case Some((ws, _)) => PointersInjective(ws, Targets(vs));
    }
  }

  lemma PointersInjective(vs: seq<Val>, ws: seq<Val>)
    ensures Pointers(vs) == Pointers(ws) ==> vs == ws
  {
    if Pointers(vs) == Pointers(ws) {
      assert |vs| == |Pointers(vs)| == |ws|;
      forall i | 0 <= i < |vs| ensures vs[i] == ws[i] {
        assert Pointers(vs)[i] == Pointers(ws)[i];
      }
    }
  }

  /** What each kind of value is on the wire, byte by byte. */
  lemma ValuesOnTheWire(v: Val)
    ensures v.U8? ==> Encode(v) == Some([v.u8])
    ensures v.U16? ==> Encode(v) == Some(TwoBytes(v.u16))
    ensures v.U32? ==> Encode(v) == Some(FourBytes(v.u32))
    ensures v.U64? ==> Encode(v) == Some(FourBytes(v.u64 / 0x1_0000_0000) + FourBytes(v.u64 % 0x1_0000_0000))
    ensures v.Bytes? ==> Encode(v) == Some(TwoBytes(|v.bytes| % 0x1_0000) + v.bytes)
  {
    match v {
      case U8(n) => BytesOfIntegers(n);
      case U16(n) => TwoBytesOf(n);
      case U32(n) => FourBytesOf(n);
      case U64(n) => EightBytesOf(n);
      case Bytes(b) => TwoBytesOf(|b| % 0x1_0000);
      case _ =>
    }
  }

  lemma EightBytesOf(n: UInt64)
    ensures BigEndian(n, 8) == FourBytes(n / 0x1_0000_0000) + FourBytes(n % 0x1_0000_0000)
  {
    BytesOfIntegers(n);
    FourBytesOf(n / 0x1_0000_0000);
    FourBytesOf(n % 0x1_0000_0000);
    Powers();
    LowBytes(n, 4);
  }

  /** The low bytes of a number do not depend on the high ones. */
  lemma {:induction false} LowBytes(n: nat, k: nat)
    ensures BigEndian(n % Pow256(k), k) == BigEndian(n, k)
  {
    if k > 0 {
      LowBytes(n / 256, k - 1);
      ModShift(n, Pow256(k - 1));
    }
  }

  lemma ModShift(n: nat, m: nat)
    requires m > 0
    ensures n % (256 * m) / 256 == n / 256 % m && n % (256 * m) % 256 == n % 256
  {
    var q, r := n / 256, n % 256;
    assert q == q / m * m + q % m;
    assert n == (q / m) * (256 * m) + (256 * (q % m) + r);
    assert 256 * (q % m) + r < 256 * m;
    RemainderUnique(n, 256 * m, q / m, 256 * (q % m) + r);
  }

  lemma RemainderUnique(n: nat, d: nat, q: nat, r: nat)
    requires d > 0 && r < d && n == q * d + r
    ensures n % d == r
  {
    var p := n / d;
    assert n == p * d + n % d;
    assert p < q ==> (p + 1) * d <= q * d;
    assert p > q ==> (q + 1) * d <= p * d;
  }

  /** Reading stops at what the wire format has no form for, and an empty slice of anything reads as nothing. */
  lemma OddCells(cell: Val, s: seq<Byte>)
    ensures cell.Ptr? || cell.Other? ==> DecodeCell(cell, s) == None
    ensures cell.OtherSlice? ==>
              DecodeCell(cell, s) == if |s| >= 2 && s[0] == s[1] == 0 then Some((cell, s[2..])) else None
    ensures cell.Bytes? && |s| >= 2 && s[0] == s[1] == 0 ==> DecodeCell(cell, s) == Some((cell, s[2..]))
  {
    if |s| >= 2 {
      var t := s[..2];
      assert t[..1] == [s[0]] && t[..1][..0] == [];
      assert FromBigEndian(t[..1]) == s[0];
      assert FromBigEndian(t) == 256 * (s[0] as int) + s[1];
    }
  }

  // ----- fresh cells

  /** A zeroed cell of a type the wire format has a form for. */
  predicate Fresh(cell: Val)
    decreases cell
  {
    match cell
    case U8(_) => true
    case U16(_) => true
    case U32(_) => true
    case U64(_) => true
    case Bytes(b) => b == []
    case Struct(cells) => AllFresh(cells)
    case _ => false
  }

  predicate AllFresh(cells: seq<Val>)
    decreases cells
  {
    forall i :: 0 <= i < |cells| ==> Fresh(cells[i])
  }

  /** What is read into a fresh cell has its type and is exactly as long as its encoding. */
  lemma {:induction false} FreshCellReads(cell: Val, s: seq<Byte>)
    requires Fresh(cell) && DecodeCell(cell, s).Some?
    ensures var (v, rest) := DecodeCell(cell, s).value;
            && SameShape(cell, v) && Encode(v).Some?
            && |Encode(v).value| <= |s| && rest == s[|Encode(v).value|..]
    decreases cell
  {
    match cell {
      case Bytes(_) => FreshBytesRead(s);
      case Struct(fields) => FreshCellsRead(fields, s);
      case U8(_) => IntCellReads(cell, s);
      case U16(_) => IntCellReads(cell, s);
      case U32(_) => IntCellReads(cell, s);
      case U64(_) => IntCellReads(cell, s);
    }
  }

  lemma FreshBytesRead(s: seq<Byte>)
    requires DecodeCell(Bytes([]), s).Some?
    ensures var (v, rest) := DecodeCell(Bytes([]), s).value;
            v.Bytes? && |v.bytes| < 0x1_0000 && |s| == 2 + |v.bytes| + |rest| && rest == s[2 + |v.bytes|..]
  {
    var n, tail := FromBigEndian(s[..2]), s[2..];
    TwoBytesBound(s[..2]);
    assert DecodeCell(Bytes([]), s) == if n == 0 then Some((Bytes([]), tail)) else Some((Bytes(tail[..n]), tail[n..]));
    DropDrop(s, 2, n);
  }

  lemma DropDrop(s: seq<Byte>, i: nat, j: nat)
    requires i <= |s|
    ensures i + j <= |s| ==> s[i..][j..] == s[i + j..]
  {
  }

  lemma TwoBytesBound(s: seq<Byte>)
    requires |s| == 2
    ensures FromBigEndian(s) < 0x1_0000
  {
    FromBigEndianBound(s);
    assert Pow256(2) == 256 * Pow256(1);
  }

  lemma {:induction false} FreshCellsRead(cells: seq<Val>, s: seq<Byte>)
    requires AllFresh(cells) && DecodeCells(cells, s).Some?
    ensures var (vs, rest) := DecodeCells(cells, s).value;
            && SameShapes(cells, vs) && EncodeAll(vs).Some?
            && |EncodeAll(vs).value| <= |s| && rest == s[|EncodeAll(vs).value|..]
    decreases cells
  {
    if cells != [] {
      var (v, mid) := DecodeCell(cells[0], s).value;
      var (vs, rest) := DecodeCells(cells[1..], mid).value;
      assert ([v] + vs)[1..] == vs;
      FreshCellReads(cells[0], s);
      FreshCellsRead(cells[1..], mid);
    }
  }

  // ----- command headers

  datatype CommandHeader = CommandHeader(tag: UInt16, size: UInt32, cmd: UInt32)

  function HeaderVal(h: CommandHeader): Val {
    Struct([U16(h.tag), U32(h.size), U32(h.cmd)])
  }

  const HEADER_SIZE := 10

  function HeaderBytes(h: CommandHeader): (s: seq<Byte>)
    ensures |s| == HEADER_SIZE
  {
    BigEndian(h.tag, 2) + (BigEndian(h.size, 4) + BigEndian(h.cmd, 4))
  }

  lemma EncodeSingle(v: Val)
    requires Encode(v).Some?
    ensures EncodeAll([v]) == Encode(v)
  {
    assert EncodeAll([v][1..]) == Some([]);
    assert Encode(v).value + [] == Encode(v).value;
  }

  lemma HeaderEncodes(h: CommandHeader)
    ensures EncodeAll([HeaderVal(h)]) == Some(HeaderBytes(h))
  {
    var tag, size, cmd := U16(h.tag), U32(h.size), U32(h.cmd);
    assert [tag, size, cmd] == [tag] + ([size] + [cmd]);
    EncodeSingle(tag);
    EncodeSingle(size);
    EncodeSingle(cmd);
    EncodeAllSplits([size], [cmd]);
    EncodeAllSplits([tag], [size] + [cmd]);
    EncodeSingle(HeaderVal(h));
  }

  lemma HeaderRoundTrip(h: CommandHeader, rest: seq<Byte>)
    ensures DecodeCell(HeaderVal(CommandHeader(0, 0, 0)), HeaderBytes(h) + rest) == Some((HeaderVal(h), rest))
  {
    HeaderEncodes(h);
    var blank, v := HeaderVal(CommandHeader(0, 0, 0)), HeaderVal(h);
    assert forall i :: 0 <= i < 3 ==> Restores(blank.fields[i], v.fields[i]);
    CellRoundTrip(blank, v, rest);
    EncodeSingle(v);
  }

  /** On the wire the tag comes first, then the size, then the command code. */
  lemma HeaderLayout(h: CommandHeader)
    ensures HeaderBytes(h) == TwoBytes(h.tag) + FourBytes(h.size) + FourBytes(h.cmd)
  {
    TwoBytesOf(h.tag);
    FourBytesOf(h.size);
    FourBytesOf(h.cmd);
    Assoc(TwoBytes(h.tag), FourBytes(h.size), FourBytes(h.cmd));
  }

  /** A whole command: the header, its size field filled in, and the body. */
  function Command(h: CommandHeader, body: seq<Byte>): seq<Byte> {
    HeaderBytes(h.(size := (HEADER_SIZE + |body|) % 0x1_0000_0000)) + body
  }

  /** Packs a command behind its header, with the header's size field set to the size of the whole. */
  method PackWithHeader(h: CommandHeader, cmd: seq<Val>) returns (r: Option<seq<Byte>>)
    ensures r == match EncodeAll(cmd) case None => None case Some(body) => Some(Command(h, body))
  {
    var bodySize := PackedSize(cmd);
    if bodySize < 0 {
      return None;
    }
    var sized := h.(size := (HEADER_SIZE + bodySize) % 0x1_0000_0000);
    HeaderEncodes(sized);
    EncodeAllSplits([HeaderVal(sized)], cmd);
    r := Pack([HeaderVal(sized)] + cmd);
  }

  /** The same for arguments that are packed already. */
  method PackWithBytes(h: CommandHeader, args: seq<Byte>) returns (cmd: seq<Byte>)
    ensures cmd == Command(h, args)
  {
    var sized := h.(size := (HEADER_SIZE + |args|) % 0x1_0000_0000);
    HeaderEncodes(sized);
    var header := Pack([HeaderVal(sized)]);
    cmd := header.value + args;
  }

  /** A command byte by byte: tag, length of the whole, command code and body. */
  lemma CommandLayout(h: CommandHeader, body: seq<Byte>)
    ensures Command(h, body) ==
              TwoBytes(h.tag) + FourBytes((10 + |body|) % 0x1_0000_0000) + FourBytes(h.cmd) + body
  {
    HeaderLayout(h.(size := (10 + |body|) % 0x1_0000_0000));
  }

  /**
   A packed command reads back as a header with the caller's tag and command code,
   followed by the body.  The size field is the length of the whole command, exactly
   when that length fits thirty-two bits.
   */
  lemma HeaderStatesLength(h: CommandHeader, body: seq<Byte>)
    ensures var packed := Command(h, body);
            var sized := h.(size := |packed| % 0x1_0000_0000);
            && DecodeCell(HeaderVal(CommandHeader(0, 0, 0)), packed) == Some((HeaderVal(sized), body))
            && (sized.size == |packed| <==> |packed| < 0x1_0000_0000)
  {
    HeaderRoundTrip(h.(size := (HEADER_SIZE + |body|) % 0x1_0000_0000), body);
  }
}
