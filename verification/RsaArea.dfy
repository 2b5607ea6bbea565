/**
 RSA public areas (TPMT_PUBLIC, section 12.2.4 of part 2 of the TPM 2.0 Library).
 The symmetric details are present only if there is a symmetric algorithm, the
 scheme hash only for the RSASSA scheme.
 */
module RsaArea {
  import opened Wrappers
  import opened Tpm2Encoding

  const ALG_NULL: UInt16 := 0x0010
  const ALG_RSASSA: UInt16 := 0x0014

  datatype RsaParams = RsaParams(
    encAlg: UInt16,
    hashAlg: UInt16,
    attributes: UInt32,
    authPolicy: seq<Byte>,
    symAlg: UInt16,
    symSize: UInt16,
    mode: UInt16,
    scheme: UInt16,
    schemeHash: UInt16,
    modSize: UInt16,
    exp: UInt32,
    modulus: seq<Byte>)

  // ----- the fields on the wire

  function HeadVals(p: RsaParams): seq<Val> {
    [U16(p.encAlg), U16(p.hashAlg), U32(p.attributes), Bytes(p.authPolicy)]
  }

  function SymVals(p: RsaParams): seq<Val> {
    if p.symAlg != ALG_NULL then [U16(p.symSize), U16(p.mode)] else []
  }

  function HashVals(p: RsaParams): seq<Val> {
    if p.scheme == ALG_RSASSA then [U16(p.schemeHash)] else []
  }

  function TailVals(p: RsaParams): seq<Val> {
    [U16(p.modSize), U32(p.exp), Bytes(p.modulus)]
  }

  /** All fields of a public area, in order. */
  function AreaVals(p: RsaParams): seq<Val> {
    HeadVals(p) + ([U16(p.symAlg)] + (SymVals(p) + ([U16(p.scheme)] + (HashVals(p) + TailVals(p)))))
  }

  /** The bytes of fields that all have a wire form. */
  function Wire(vs: seq<Val>): seq<Byte> {
    match EncodeAll(vs)
    case None => []
    case Some(s) => s
  }

  function AreaSize(p: RsaParams): nat {
    10 + |p.authPolicy| + 2 + (if p.symAlg != ALG_NULL then 4 else 0) + 2
    + (if p.scheme == ALG_RSASSA then 2 else 0) + 8 + |p.modulus|
  }

  lemma SizeOfInt(v: Val)
    ensures v.U16? ==> |Wire([v])| == 2 && EncodeAll([v]).Some?
    ensures v.U32? ==> |Wire([v])| == 4 && EncodeAll([v]).Some?
    ensures v.Bytes? ==> |Wire([v])| == 2 + |v.bytes| && EncodeAll([v]).Some?
  {
    if v.U16? || v.U32? || v.Bytes? {
      EncodeSingle(v);
    }
  }

  /** Fields that are present on both sides of a concatenation are laid end to end. */
  lemma WireSplits(vs: seq<Val>, ws: seq<Val>)
    requires EncodeAll(vs).Some? && EncodeAll(ws).Some?
    ensures EncodeAll(vs + ws).Some? && Wire(vs + ws) == Wire(vs) + Wire(ws)
  {
    EncodeAllSplits(vs, ws);
  }

  lemma HeadSize(vs: seq<Val>)
    requires |vs| == 4 && vs[0].U16? && vs[1].U16? && vs[2].U32? && vs[3].Bytes?
    ensures EncodeAll(vs).Some? && |Wire(vs)| == 10 + |vs[3].bytes|
  {
    assert vs == [vs[0]] + ([vs[1]] + ([vs[2]] + [vs[3]]));
    SizeOfInt(vs[0]);
    SizeOfInt(vs[1]);
    SizeOfInt(vs[2]);
    SizeOfInt(vs[3]);
    WireSplits([vs[2]], [vs[3]]);
    WireSplits([vs[1]], [vs[2]] + [vs[3]]);
    WireSplits([vs[0]], [vs[1]] + ([vs[2]] + [vs[3]]));
  }

  lemma PairSize(vs: seq<Val>)
    requires |vs| == 2 && vs[0].U16? && vs[1].U16?
    ensures EncodeAll(vs).Some? && |Wire(vs)| == 4
  {
    assert vs == [vs[0]] + [vs[1]];
    SizeOfInt(vs[0]);
    SizeOfInt(vs[1]);
    WireSplits([vs[0]], [vs[1]]);
  }

  lemma TailSize(vs: seq<Val>)
    requires |vs| == 3 && vs[0].U16? && vs[1].U32? && vs[2].Bytes?
    ensures EncodeAll(vs).Some? && |Wire(vs)| == 8 + |vs[2].bytes|
  {
    assert vs == [vs[0]] + ([vs[1]] + [vs[2]]);
    SizeOfInt(vs[0]);
    SizeOfInt(vs[1]);
    SizeOfInt(vs[2]);
    WireSplits([vs[1]], [vs[2]]);
    WireSplits([vs[0]], [vs[1]] + [vs[2]]);
  }

  /** The area is the wire form of its five parts, end to end. */
  lemma AreaLayout(p: RsaParams)
    ensures EncodeAll(AreaVals(p)).Some?
    ensures Wire(AreaVals(p)) ==
              Wire(HeadVals(p)) + (Wire([U16(p.symAlg)]) + (Wire(SymVals(p)) +
                (Wire([U16(p.scheme)]) + (Wire(HashVals(p)) + Wire(TailVals(p))))))
    ensures |Wire(AreaVals(p))| == AreaSize(p)
  {
    HeadSize(HeadVals(p));
    SizeOfInt(U16(p.symAlg));
    if p.symAlg != ALG_NULL {
      PairSize(SymVals(p));
    }
    SizeOfInt(U16(p.scheme));
    SizeOfInt(U16(p.schemeHash));
    TailSize(TailVals(p));
    WireSplits(HashVals(p), TailVals(p));
    WireSplits([U16(p.scheme)], HashVals(p) + TailVals(p));
    WireSplits(SymVals(p), [U16(p.scheme)] + (HashVals(p) + TailVals(p)));
    WireSplits([U16(p.symAlg)], SymVals(p) + ([U16(p.scheme)] + (HashVals(p) + TailVals(p))));
    WireSplits(HeadVals(p), [U16(p.symAlg)] + (SymVals(p) + ([U16(p.scheme)] + (HashVals(p) + TailVals(p)))));
  }

  lemma WireOfWord(n: UInt16)
    ensures Wire([U16(n)]) == TwoBytes(n)
  {
    ValuesOnTheWire(U16(n));
    EncodeSingle(U16(n));
  }

  lemma WireOfLong(n: UInt32)
    ensures EncodeAll([U32(n)]) == Some(FourBytes(n))
  {
    ValuesOnTheWire(U32(n));
    EncodeSingle(U32(n));
  }

  lemma WireOfBytes(b: seq<Byte>)
    ensures EncodeAll([Bytes(b)]) == Some(TwoBytes(|b| % 0x1_0000) + b)
  {
    ValuesOnTheWire(Bytes(b));
    EncodeSingle(Bytes(b));
  }

  lemma WireOfHead(p: RsaParams)
    ensures Wire(HeadVals(p)) ==
              TwoBytes(p.encAlg) + TwoBytes(p.hashAlg) + FourBytes(p.attributes)
              + TwoBytes(|p.authPolicy| % 0x1_0000) + p.authPolicy
  {
    assert HeadVals(p) == [U16(p.encAlg)] + ([U16(p.hashAlg)] + ([U32(p.attributes)] + [Bytes(p.authPolicy)]));
    SizeOfInt(U16(p.encAlg));
    SizeOfInt(U16(p.hashAlg));
    WireOfWord(p.encAlg);
    WireOfWord(p.hashAlg);
    WireOfLong(p.attributes);
    WireOfBytes(p.authPolicy);
    WireSplits([U32(p.attributes)], [Bytes(p.authPolicy)]);
    WireSplits([U16(p.hashAlg)], [U32(p.attributes)] + [Bytes(p.authPolicy)]);
    WireSplits([U16(p.encAlg)], [U16(p.hashAlg)] + ([U32(p.attributes)] + [Bytes(p.authPolicy)]));
  }

  lemma WireOfTail(p: RsaParams)
    ensures Wire(TailVals(p)) ==
              TwoBytes(p.modSize) + FourBytes(p.exp) + TwoBytes(|p.modulus| % 0x1_0000) + p.modulus
  {
    assert TailVals(p) == [U16(p.modSize)] + ([U32(p.exp)] + [Bytes(p.modulus)]);
    SizeOfInt(U16(p.modSize));
    WireOfWord(p.modSize);
    WireOfLong(p.exp);
    WireOfBytes(p.modulus);
    WireSplits([U32(p.exp)], [Bytes(p.modulus)]);
    WireSplits([U16(p.modSize)], [U32(p.exp)] + [Bytes(p.modulus)]);
  }

  /** The key size and the mode, unless the symmetric algorithm is TPM_ALG_NULL, 0x0010. */
  function SymBytes(p: RsaParams): seq<Byte> {
    if p.symAlg == 0x0010 then [] else TwoBytes(p.symSize) + TwoBytes(p.mode)
  }

  /** The scheme hash, if the scheme is TPM_ALG_RSASSA, 0x0014. */
  function HashBytes(p: RsaParams): seq<Byte> {
    if p.scheme == 0x0014 then TwoBytes(p.schemeHash) else []
  }

  lemma WireOfDetails(p: RsaParams)
    ensures Wire(SymVals(p)) == SymBytes(p) && Wire(HashVals(p)) == HashBytes(p)
  {
    WireOfWord(p.schemeHash);
    WireOfWord(p.symSize);
    WireOfWord(p.mode);
    SizeOfInt(U16(p.symSize));
    SizeOfInt(U16(p.mode));
    WireSplits([U16(p.symSize)], [U16(p.mode)]);
    assert [U16(p.symSize), U16(p.mode)] == [U16(p.symSize)] + [U16(p.mode)];
  }

  /** A public area byte by byte. */
  lemma AreaOnTheWire(p: RsaParams)
    ensures Wire(AreaVals(p)) ==
              (TwoBytes(p.encAlg) + TwoBytes(p.hashAlg) + FourBytes(p.attributes)
               + TwoBytes(|p.authPolicy| % 0x1_0000) + p.authPolicy)
              + (TwoBytes(p.symAlg) + (SymBytes(p)
              + (TwoBytes(p.scheme) + (HashBytes(p)
              + (TwoBytes(p.modSize) + FourBytes(p.exp) + TwoBytes(|p.modulus| % 0x1_0000) + p.modulus)))))
  {
    AreaLayout(p);
    WireOfHead(p);
    WireOfWord(p.symAlg);
    WireOfDetails(p);
    WireOfWord(p.scheme);
    WireOfTail(p);
  }

  method CreateRsaParams(p: RsaParams) returns (r: Option<seq<Byte>>)
    ensures r == Encode(Bytes(Wire(AreaVals(p))))
  {
    HeadSize(HeadVals(p));
    TailSize(TailVals(p));
    SymmetricPart(p);
    var t1 := Pack(HeadVals(p));
    var t2;
    if p.symAlg != ALG_NULL {
      t2 := Pack([U16(p.symAlg), U16(p.symSize), U16(p.mode), U16(p.scheme)]);
    } else {
      t2 := Pack([U16(p.symAlg), U16(p.scheme)]);
    }
    var t3 := [];
    if p.scheme == ALG_RSASSA {
      SizeOfInt(U16(p.schemeHash));
      var hash := Pack([U16(p.schemeHash)]);
      t3 := hash.value;
    }
    var t4 := Pack(TailVals(p));
    var t5 := t1.value + (t2.value + t3);
    t5 := t5 + t4.value;
    PartsMakeArea(p, t3);
    EncodeSingle(Bytes(t5));
    r := Pack([Bytes(t5)]);
  }

  lemma PartsMakeArea(p: RsaParams, hash: seq<Byte>)
    requires hash == Wire(HashVals(p))
    ensures var sym := Wire([U16(p.symAlg)]) + (Wire(SymVals(p)) + Wire([U16(p.scheme)]));
            Wire(HeadVals(p)) + (sym + hash) + Wire(TailVals(p)) == Wire(AreaVals(p))
  {
    AreaLayout(p);
    Regroup(Wire(HeadVals(p)), Wire([U16(p.symAlg)]), Wire(SymVals(p)), Wire([U16(p.scheme)]), hash, Wire(TailVals(p)));
  }

  lemma Regroup(a: seq<Byte>, b: seq<Byte>, c: seq<Byte>, d: seq<Byte>, e: seq<Byte>, f: seq<Byte>)
    ensures a + ((b + (c + d)) + e) + f == a + (b + (c + (d + (e + f))))
  {
  }

  lemma SymmetricPart(p: RsaParams)
    ensures var vs := if p.symAlg != ALG_NULL then [U16(p.symAlg), U16(p.symSize), U16(p.mode), U16(p.scheme)]
                      else [U16(p.symAlg), U16(p.scheme)];
            EncodeAll(vs) == Some(Wire([U16(p.symAlg)]) + (Wire(SymVals(p)) + Wire([U16(p.scheme)])))
  {
    SizeOfInt(U16(p.symAlg));
    SizeOfInt(U16(p.scheme));
    if p.symAlg != ALG_NULL {
      PairSize(SymVals(p));
      assert [U16(p.symAlg), U16(p.symSize), U16(p.mode), U16(p.scheme)] ==
        [U16(p.symAlg)] + (SymVals(p) + [U16(p.scheme)]);
    } else {
      assert [U16(p.symAlg), U16(p.scheme)] == [U16(p.symAlg)] + (SymVals(p) + [U16(p.scheme)]);
    }
    WireSplits(SymVals(p), [U16(p.scheme)]);
    WireSplits([U16(p.symAlg)], SymVals(p) + [U16(p.scheme)]);
  }

  // ----- decoding

  function AsU16(v: Val): UInt16 {
    if v.U16? then v.u16 else 0
  }

  function AsU32(v: Val): UInt32 {
    if v.U32? then v.u32 else 0
  }

  function AsBytes(v: Val): seq<Byte> {
    if v.Bytes? then v.bytes else []
  }

  const HEAD: seq<Val> := [U16(0), U16(0), U32(0), Bytes([])]
  const WORD: seq<Val> := [U16(0)]
  const PAIR: seq<Val> := [U16(0), U16(0)]
  const TAIL: seq<Val> := [U16(0), U32(0), Bytes([])]

  /** Reads the cells if the condition holds, and otherwise leaves them zero. */
  function DecodeIf(present: bool, cells: seq<Val>, s: seq<Byte>): (r: Option<(seq<Val>, seq<Byte>)>)
    ensures r.Some? ==> |r.value.0| == |cells|
  {
    if present then DecodeCells(cells, s) else Some((cells, s))
  }

  /** The part from the scheme on. */
  function ParseRest(s: seq<Byte>): (r: Option<(UInt16, UInt16, seq<Val>)>)
    ensures r.Some? ==> |r.value.2| == 3
  {
    match DecodeCells(WORD, s)
    case None => None
    case Some((scheme, r4)) =>
      match DecodeIf(AsU16(scheme[0]) == ALG_RSASSA, WORD, r4)
      case None => None
      case Some((hash, r5)) =>
        match DecodeCells(TAIL, r5)
        case None => None
        case Some((t, _)) => Some((AsU16(scheme[0]), AsU16(hash[0]), t))
  }

  function ParseRsaBuf(buf: seq<Byte>): Option<RsaParams> {
    match DecodeCells(HEAD, buf)
    case None => None
    case Some((h, r1)) =>
      match DecodeCells(WORD, r1)
      case None => None
      case Some((sym, r2)) =>
        match DecodeIf(AsU16(sym[0]) != ALG_NULL, PAIR, r2)
        case None => None
        case Some((details, r3)) =>
          match ParseRest(r3)
          case None => None
          case Some((scheme, hash, t)) =>
            Some(RsaParams(AsU16(h[0]), AsU16(h[1]), AsU32(h[2]), AsBytes(h[3]),
                           AsU16(sym[0]), AsU16(details[0]), AsU16(details[1]),
                           scheme, hash, AsU16(t[0]), AsU32(t[1]), AsBytes(t[2])))
  }

  function ParseRsaArea(s: seq<Byte>): Option<RsaParams> {
    match DecodeCells([Bytes([])], s)
    case None => None
    case Some((vs, _)) => ParseRsaBuf(AsBytes(vs[0]))
  }

  /** The parameters that survive: fields left off the wire come back as zero. */
  function Normal(p: RsaParams): RsaParams {
    var q := if p.symAlg != ALG_NULL then p else p.(symSize := 0, mode := 0);
    if p.scheme == ALG_RSASSA then q else q.(schemeHash := 0)
  }

  lemma WordRestores(n: UInt16, rest: seq<Byte>)
    ensures DecodeCells(WORD, Wire([U16(n)]) + rest) == Some(([U16(n)], rest))
  {
    SizeOfInt(U16(n));
    CellsRoundTrip(WORD, [U16(n)], rest);
  }

  lemma SymRestores(p: RsaParams, rest: seq<Byte>)
    ensures DecodeIf(p.symAlg != ALG_NULL, PAIR, Wire(SymVals(p)) + rest)
              == Some(([U16(Normal(p).symSize), U16(Normal(p).mode)], rest))
  {
    if p.symAlg != ALG_NULL {
      PairSize(SymVals(p));
      CellsRoundTrip(PAIR, SymVals(p), rest);
    } else {
      assert Wire([]) + rest == rest;
    }
  }

  lemma HashRestores(p: RsaParams, rest: seq<Byte>)
    ensures DecodeIf(p.scheme == ALG_RSASSA, WORD, Wire(HashVals(p)) + rest) ==
              Some(([U16(Normal(p).schemeHash)], rest))
  {
    if p.scheme == ALG_RSASSA {
      WordRestores(p.schemeHash, rest);
    } else {
      assert Wire([]) + rest == rest;
    }
  }

  lemma HeadRestores(p: RsaParams, rest: seq<Byte>)
    requires |p.authPolicy| < 0x1_0000
    ensures DecodeCells(HEAD, Wire(HeadVals(p)) + rest) == Some((HeadVals(p), rest))
  {
    HeadSize(HeadVals(p));
    CellsRoundTrip(HEAD, HeadVals(p), rest);
  }

  lemma TailRestores(p: RsaParams, rest: seq<Byte>)
    requires |p.modulus| < 0x1_0000
    ensures DecodeCells(TAIL, Wire(TailVals(p)) + rest) == Some((TailVals(p), rest))
  {
    TailSize(TailVals(p));
    CellsRoundTrip(TAIL, TailVals(p), rest);
  }

  lemma RestRoundTrip(p: RsaParams)
    requires |p.modulus| < 0x1_0000
    ensures ParseRest(Wire([U16(p.scheme)]) + (Wire(HashVals(p)) + Wire(TailVals(p))))
              == Some((p.scheme, Normal(p).schemeHash, TailVals(p)))
  {
    var tail := Wire(TailVals(p));
    WordRestores(p.scheme, Wire(HashVals(p)) + tail);
    HashRestores(p, tail);
    TailRestores(p, []);
    assert tail + [] == tail;
  }

  /** The buffer inside an area parses back to the parameters it was made from. */
  lemma BufferRoundTrip(p: RsaParams)
    requires |p.authPolicy| < 0x1_0000 && |p.modulus| < 0x1_0000
    ensures ParseRsaBuf(Wire(AreaVals(p))) == Some(Normal(p))
  {
    AreaLayout(p);
    var s3 := Wire([U16(p.scheme)]) + (Wire(HashVals(p)) + Wire(TailVals(p)));
    var s2 := Wire(SymVals(p)) + s3;
    HeadRestores(p, Wire([U16(p.symAlg)]) + s2);
    WordRestores(p.symAlg, s2);
    SymRestores(p, s3);
    RestRoundTrip(p);
  }

  // ----- how much of the buffer each part takes

  lemma HeadShape(vs: seq<Val>)
    requires SameShapes(HEAD, vs)
    ensures |vs| == 4 && vs[0].U16? && vs[1].U16? && vs[2].U32? && vs[3].Bytes?
  {
    assert SameShape(HEAD[0], vs[0]) && SameShape(HEAD[1], vs[1]);
    assert SameShape(HEAD[2], vs[2]) && SameShape(HEAD[3], vs[3]);
  }

  /** The head takes ten bytes and its byte string. */
  lemma HeadWidth(vs: seq<Val>)
    requires SameShapes(HEAD, vs)
    ensures |vs| == 4 && |Wire(vs)| == 10 + |AsBytes(vs[3])|
  {
    HeadShape(vs);
    HeadSize(vs);
  }

  lemma HeadIsFresh()
    ensures AllFresh(HEAD)
  {
  }

  lemma {:induction false} ReadsExactly(cells: seq<Val>, s: seq<Byte>, vs: seq<Val>, rest: seq<Byte>)
    requires AllFresh(cells) && DecodeCells(cells, s) == Some((vs, rest))
    ensures SameShapes(cells, vs)
    ensures |s| == |Wire(vs)| + |rest| && rest == s[|Wire(vs)|..]
  {
    FreshCellsRead(cells, s);
  }

  lemma {:induction false} HeadReads(s: seq<Byte>, vs: seq<Val>, rest: seq<Byte>)
    requires DecodeCells(HEAD, s) == Some((vs, rest))
    ensures |s| == 10 + |AsBytes(vs[3])| + |rest| && rest == s[10 + |AsBytes(vs[3])|..]
  {
    HeadIsFresh();
    ReadsExactly(HEAD, s, vs, rest);
    HeadWidth(vs);
  }

  lemma WordReads(s: seq<Byte>)
    requires DecodeCells(WORD, s).Some?
    ensures |s| == 2 + |DecodeCells(WORD, s).value.1| && DecodeCells(WORD, s).value.1 == s[2..]
  {
    FreshCellsRead(WORD, s);
    var vs := DecodeCells(WORD, s).value.0;
    assert vs == [vs[0]];
    SizeOfInt(vs[0]);
  }

  lemma PairReads(s: seq<Byte>)
    requires DecodeCells(PAIR, s).Some?
    ensures |s| == 4 + |DecodeCells(PAIR, s).value.1| && DecodeCells(PAIR, s).value.1 == s[4..]
  {
    FreshCellsRead(PAIR, s);
    PairSize(DecodeCells(PAIR, s).value.0);
  }

  lemma TailReads(s: seq<Byte>)
    requires DecodeCells(TAIL, s).Some?
    ensures |s| >= 8 + |AsBytes(DecodeCells(TAIL, s).value.0[2])|
  {
    FreshCellsRead(TAIL, s);
    TailSize(DecodeCells(TAIL, s).value.0);
  }

  lemma RestFitsBuffer(s: seq<Byte>)
    requires ParseRest(s).Some?
    ensures var (scheme, _, t) := ParseRest(s).value;
            2 + (if scheme == ALG_RSASSA then 2 else 0) + 8 + |AsBytes(t[2])| <= |s|
  {
    WordReads(s);
    var (scheme, r4) := DecodeCells(WORD, s).value;
    if AsU16(scheme[0]) == ALG_RSASSA {
      WordReads(r4);
    }
    TailReads(DecodeIf(AsU16(scheme[0]) == ALG_RSASSA, WORD, r4).value.1);
  }

  /** What is parsed out of a buffer was in the buffer. */
  lemma ParsedFitsBuffer(buf: seq<Byte>)
    ensures ParseRsaBuf(buf).Some? ==> AreaSize(ParseRsaBuf(buf).value) <= |buf|
  {
    if ParseRsaBuf(buf).Some? {
      var (h, r1) := DecodeCells(HEAD, buf).value;
      HeadReads(buf, h, r1);
      WordReads(r1);
      var (sym, r2) := DecodeCells(WORD, r1).value;
      if AsU16(sym[0]) != ALG_NULL {
        PairReads(r2);
      }
      RestFitsBuffer(DecodeIf(AsU16(sym[0]) != ALG_NULL, PAIR, r2).value.1);
    }
  }

  // ----- decoding with a running offset

  /** Unpacks the cells at the given offset, which lies within the buffer. */
  method UnpackAt(buf: seq<Byte>, offset: nat, cells: seq<Val>) returns (r: Option<seq<Val>>)
    requires offset <= |buf|
    ensures r == match DecodeCells(cells, buf[offset..]) case None => None case Some((vs, _)) => Some(vs)
  {
    var reader := new Buffer(buf[offset..]);
    r := UnpackCells(reader, cells);
  }

  /** Decodes the buffer inside an area; no buffer takes the offset out of range. */
  method DecodeRsaBuf(buf: seq<Byte>) returns (r: Option<RsaParams>)
    ensures r == ParseRsaBuf(buf)
  {
    var h := UnpackAt(buf, 0, HEAD);
    assert buf[0..] == buf;
    if h.None? {
      return None;
    }
    HeadReads(buf, h.value, DecodeCells(HEAD, buf).value.1);
    var current := 10 + |AsBytes(h.value[3])|;
    var sym := UnpackAt(buf, current, WORD);
    if sym.None? {
      return None;
    }
    WordReads(buf[current..]);
    assert buf[current..][2..] == buf[current + 2..];
    current := current + 2;
    var details := PAIR;
    if AsU16(sym.value[0]) != ALG_NULL {
      var got := UnpackAt(buf, current, PAIR);
      if got.None? {
        return None;
      }
      PairReads(buf[current..]);
      assert buf[current..][4..] == buf[current + 4..];
      details := got.value;
      current := current + 4;
    }
    var tail := DecodeRest(buf[current..]);
    if tail.None? {
      return None;
    }
    var (scheme, hash, t) := tail.value;
    r := Some(RsaParams(AsU16(h.value[0]), AsU16(h.value[1]), AsU32(h.value[2]), AsBytes(h.value[3]),
                        AsU16(sym.value[0]), AsU16(details[0]), AsU16(details[1]),
                        scheme, hash, AsU16(t[0]), AsU32(t[1]), AsBytes(t[2])));
  }

  method DecodeRest(buf: seq<Byte>) returns (r: Option<(UInt16, UInt16, seq<Val>)>)
    ensures r == ParseRest(buf)
  {
    var scheme := UnpackAt(buf, 0, WORD);
    assert buf[0..] == buf;
    if scheme.None? {
      return None;
    }
    WordReads(buf);
    var current := 2;
    var hash: UInt16 := 0;
    if AsU16(scheme.value[0]) == ALG_RSASSA {
      var got := UnpackAt(buf, current, WORD);
      if got.None? {
        return None;
      }
      WordReads(buf[current..]);
      assert buf[current..][2..] == buf[current + 2..];
      hash := AsU16(got.value[0]);
      current := current + 2;
    }
    var t := UnpackAt(buf, current, TAIL);
    if t.None? {
      return None;
    }
    r := Some((AsU16(scheme.value[0]), hash, t.value));
  }

  method DecodeRsaArea(s: seq<Byte>) returns (r: Option<RsaParams>)
    ensures r == ParseRsaArea(s)
  {
    var area := UnpackAt(s, 0, [Bytes([])]);
    assert s[0..] == s;
    if area.None? {
      return None;
    }
    r := DecodeRsaBuf(AsBytes(area.value[0]));
  }

  /**
   A public area reads back as the parameters it was made from, with the omitted
   fields zero, if and only if it fits behind a sixteen-bit length.
   */
  lemma RsaAreaRoundTrip(p: RsaParams)
    ensures ParseRsaArea(Encode(Bytes(Wire(AreaVals(p)))).value) == Some(Normal(p)) <==> AreaSize(p) < 0x1_0000
  {
    AreaLayout(p);
    var body := Wire(AreaVals(p));
    var s := Encode(Bytes(body)).value;
    assert s + [] == s;
    DecodeSingle(Bytes([]), s);
    if AreaSize(p) < 0x1_0000 {
      BytesRoundTrip([], body, []);
      BufferRoundTrip(p);
    } else if ParseRsaArea(s) == Some(Normal(p)) {
      FreshBytesRead(s);
      ParsedFitsBuffer(AsBytes(DecodeCells([Bytes([])], s).value.0[0]));
    }
  }
}
