/**
 The binary form of terms and formulas.  Everything is made of varints: tags,
 lengths, counts, booleans and sixty-four-bit integers.  A character of the model
 stands for one byte of a string of the source.
 */
module AuthCodec {
  import opened Wrappers
  import opened Sequences
  import opened Auth

  const TWO_63: int := 0x8000_0000_0000_0000
  const TWO_64: int := 0x1_0000_0000_0000_0000

  const TAG_PRIN := 1
  const TAG_PRIN_TAIL := 2
  const TAG_STR := 3
  const TAG_BYTES := 4
  const TAG_INT := 5
  const TAG_TERM_VAR := 6
  const TAG_PRED := 7
  const TAG_CONST := 8
  const TAG_NOT := 9
  const TAG_AND := 10
  const TAG_OR := 11
  const TAG_IMPLIES := 12
  const TAG_SPEAKSFOR := 13
  const TAG_SAYS := 14
  const TAG_FORALL := 15
  const TAG_EXISTS := 16
  const TAG_SUB_PRIN := 17
  const TAG_PRIN_EXT := 18

  // ----- varints

  function Uvarint(u: nat): (s: seq<Byte>)
    ensures |s| >= 1
  {
    if u < 128 then [u] else [u % 128 + 128] + Uvarint(u / 128)
  }

  /** The integer as sixty-four unsigned bits. */
  function VarintBytes(i: int): (s: seq<Byte>)
    ensures |s| >= 1
  {
    Uvarint(i % TWO_64)
  }

  /** Reads a varint whose first byte is byte number `k`; more than sixty-four bits are an error. */
  function ReadUvarint(s: seq<Byte>, k: nat): (r: Option<(nat, seq<Byte>)>)
    ensures r.Some? ==> |r.value.1| < |s|
    decreases |s|
  {
    if s == [] then None
    else if s[0] < 128 then
      if k > 9 || (k == 9 && s[0] > 1) then None else Some((s[0], s[1..]))
    else
      match ReadUvarint(s[1..], k + 1)
      case None => None
      case Some((v, rest)) => Some((s[0] - 128 + 128 * v, rest))
  }

  function AsInt64(u: nat): int {
    if u < TWO_63 then u else u - TWO_64
  }

  function ReadVarint(s: seq<Byte>): (r: Option<(int, seq<Byte>)>)
    ensures r.Some? ==> |r.value.1| < |s|
  {
    match ReadUvarint(s, 0)
    case None => None
    case Some((u, rest)) => Some((AsInt64(u), rest))
  }

  function Pow128(k: nat): nat {
    if k == 0 then 1 else 128 * Pow128(k - 1)
  }

  /** From byte number `k` on there is room for what is left of sixty-four bits. */
  lemma {:induction false} UvarintReads(u: nat, k: nat, rest: seq<Byte>)
    requires k <= 9 && u < 2 * Pow128(9 - k)
    ensures ReadUvarint(Uvarint(u) + rest, k) == Some((u, rest))
  {
    var s := Uvarint(u) + rest;
    if u >= 128 {
      assert s[1..] == Uvarint(u / 128) + rest;
      assert k < 9;
      UvarintReads(u / 128, k + 1, rest);
    }
  }

  lemma SixtyFourBits()
    ensures 2 * Pow128(9) == TWO_64
  {
    assert Pow128(3) == 0x20_0000;
    assert Pow128(6) == 0x400_0000_0000;
  }

  predicate FitsInt64(i: int) {
    -TWO_63 <= i < TWO_63
  }

  lemma VarintReads(i: int, rest: seq<Byte>)
    requires FitsInt64(i)
    ensures ReadVarint(VarintBytes(i) + rest) == Some((i, rest))
  {
    SixtyFourBits();
    UvarintReads(i % TWO_64, 0, rest);
  }

  // ----- strings

  function Raw(s: string): (b: seq<Byte>)
    ensures |b| == |s|
  {
    seq(|s|, i requires 0 <= i < |s| => s[i] as int % 256)
  }

  function Text(b: seq<Byte>): (s: string)
    ensures |s| == |b|
  {
    seq(|b|, i requires 0 <= i < |b| => b[i] as char)
  }

  /** Every character is a byte. */
  predicate ByteString(s: string) {
    |s| < TWO_63 && forall i :: 0 <= i < |s| ==> s[i] as int < 256
  }

  function BlobBytes(b: seq<Byte>): (s: seq<Byte>)
    ensures |s| >= 1
  {
    VarintBytes(|b|) + b
  }

  function ReadBlob(s: seq<Byte>): (r: Option<(seq<Byte>, seq<Byte>)>)
    ensures r.Some? ==> |r.value.1| < |s|
  {
    match ReadVarint(s)
    case None => None
    case Some((n, rest)) => if 0 <= n <= |rest| then Some((rest[..n], rest[n..])) else None
  }

  function ReadString(s: seq<Byte>): (r: Option<(string, seq<Byte>)>)
    ensures r.Some? ==> |r.value.1| < |s|
  {
    match ReadBlob(s)
    case None => None
    case Some((b, rest)) => Some((Text(b), rest))
  }

  lemma BlobReads(b: seq<Byte>, rest: seq<Byte>)
    requires |b| < TWO_63
    ensures ReadBlob(BlobBytes(b) + rest) == Some((b, rest))
  {
    Assoc(VarintBytes(|b|), b, rest);
    VarintReads(|b|, b + rest);
    assert (b + rest)[..|b|] == b && (b + rest)[|b|..] == rest;
  }

  lemma StringReads(s: string, rest: seq<Byte>)
    requires ByteString(s)
    ensures ReadString(BlobBytes(Raw(s)) + rest) == Some((s, rest))
  {
    BlobReads(Raw(s), rest);
    assert Text(Raw(s)) == s;
  }

  // ----- terms

  function TermTag(t: Term): int {
    match t
    case PrinTerm(_) => TAG_PRIN
    case TailTerm(_) => TAG_PRIN_TAIL
    case Str(_) => TAG_STR
    case Bytes(_) => TAG_BYTES
    case Int(_) => TAG_INT
    case Var(_) => TAG_TERM_VAR
  }

  function TermBytes(t: Term): (s: seq<Byte>)
    ensures |s| >= 1
    decreases t, 1
  {
    VarintBytes(TermTag(t)) + TermBody(t)
  }

  function TermBody(t: Term): seq<Byte>
    decreases t, 0
  {
    match t
    case PrinTerm(p) => BlobBytes(Raw(p.typ)) + (TermBytes(p.keyHash) + SubPrinBytes(p.ext))
    case TailTerm(es) => SubPrinBytes(es)
    case Str(s) => BlobBytes(Raw(s))
    case Bytes(b) => BlobBytes(b)
    case Int(i) => VarintBytes(i)
    case Var(n) => BlobBytes(Raw(n))
  }

  function SubPrinBytes(es: seq<PrinExt>): seq<Byte>
    decreases es, 1
  {
    VarintBytes(TAG_SUB_PRIN) + (VarintBytes(|es|) + ExtsBytes(es))
  }

  function ExtsBytes(es: seq<PrinExt>): seq<Byte>
    decreases es, 0
  {
    if es == [] then []
    else VarintBytes(TAG_PRIN_EXT) + NameAndArgsBytes(es[0].name, es[0].args) + ExtsBytes(es[1..])
  }

  function NameAndArgsBytes(name: string, args: seq<Term>): seq<Byte>
    decreases args, 1
  {
    BlobBytes(Raw(name)) + (VarintBytes(|args|) + TermsBytes(args))
  }

  function TermsBytes(ts: seq<Term>): seq<Byte>
    decreases ts, 0
  {
    if ts == [] then [] else TermBytes(ts[0]) + TermsBytes(ts[1..])
  }

  function ReadTerm(s: seq<Byte>): (r: Option<(Term, seq<Byte>)>)
    ensures r.Some? ==> |r.value.1| < |s|
    decreases |s|, 0
  {
    match ReadVarint(s)
    case None => None
    case Some((tag, s1)) => ReadTermBody(tag, s1)
  }

  function ReadTermBody(tag: int, s: seq<Byte>): (r: Option<(Term, seq<Byte>)>)
    ensures r.Some? ==> |r.value.1| < |s|
    decreases |s|, 4
  {
    if tag == TAG_STR then (match ReadString(s) case None => None case Some((x, rest)) => Some((Str(x), rest)))
    else if tag == TAG_BYTES then (match ReadBlob(s) case None => None case Some((b, rest)) => Some((Bytes(b), rest)))
    else if tag == TAG_INT then (match ReadVarint(s) case None => None case Some((i, rest)) => Some((Int(i), rest)))
    else if tag == TAG_PRIN then (match ReadPrin(s) case None => None case Some((p, rest)) => Some((PrinTerm(p), rest)))
    else if tag == TAG_PRIN_TAIL then
      (match ReadSubPrin(s) case None => None case Some((es, rest)) => Some((TailTerm(es), rest)))
    else if tag == TAG_TERM_VAR then
      (match ReadString(s) case None => None case Some((x, rest)) => Some((Var(x), rest)))
    else None
  }

  function ReadPrin(s: seq<Byte>): (r: Option<(Prin, seq<Byte>)>)
    ensures r.Some? ==> |r.value.1| < |s|
    decreases |s|, 1
  {
    match ReadString(s)
    case None => None
    case Some((typ, s1)) =>
      match ReadTerm(s1)
      case None => None
      case Some((keyHash, s2)) =>
        match ReadSubPrin(s2)
        case None => None
        case Some((ext, rest)) => Some((Prin(typ, keyHash, ext), rest))
  }

  /** A count that is not positive reads no extensions. */
  function ReadSubPrin(s: seq<Byte>): (r: Option<(seq<PrinExt>, seq<Byte>)>)
    ensures r.Some? ==> |r.value.1| < |s|
    decreases |s|, 3
  {
    match ReadVarint(s)
    case None => None
    case Some((tag, s1)) =>
      if tag != TAG_SUB_PRIN then None
      else
        match ReadVarint(s1)
        case None => None
        case Some((n, s2)) => ReadExts(s2, n)
  }

  function ReadExts(s: seq<Byte>, n: int): (r: Option<(seq<PrinExt>, seq<Byte>)>)
    ensures r.Some? ==> |r.value.1| <= |s|
    decreases |s|, 2
  {
    if n <= 0 then Some(([], s))
    else
      match ReadExt(s)
      case None => None
      case Some((e, s1)) =>
        match ReadExts(s1, n - 1)
        case None => None
        case Some((es, rest)) => Some(([e] + es, rest))
  }

  function ReadExt(s: seq<Byte>): (r: Option<(PrinExt, seq<Byte>)>)
    ensures r.Some? ==> |r.value.1| < |s|
    decreases |s|, 1
  {
    match ReadVarint(s)
    case None => None
    case Some((tag, s1)) =>
      if tag != TAG_PRIN_EXT then None
      else
        match ReadNameAndArgs(s1)
        case None => None
        case Some((name, args, rest)) => Some((PrinExt(name, args), rest))
  }

  /** A negative number of arguments cannot be allocated. */
  function ReadNameAndArgs(s: seq<Byte>): (r: Option<(string, seq<Term>, seq<Byte>)>)
    ensures r.Some? ==> |r.value.2| < |s|
    decreases |s|, 2
  {
    match ReadString(s)
    case None => None
    case Some((name, s1)) =>
      match ReadVarint(s1)
      case None => None
      case Some((n, s2)) =>
        if n < 0 then None
        else
          match ReadTerms(s2, n)
          case None => None
          case Some((args, rest)) => Some((name, args, rest))
  }

  function ReadTerms(s: seq<Byte>, n: int): (r: Option<(seq<Term>, seq<Byte>)>)
    ensures r.Some? ==> |r.value.1| <= |s|
    decreases |s|, 1
  {
    if n <= 0 then Some(([], s))
    else
      match ReadTerm(s)
      case None => None
      case Some((t, s1)) =>
        match ReadTerms(s1, n - 1)
        case None => None
        case Some((ts, rest)) => Some(([t] + ts, rest))
  }

  // ----- formulas

  function BoolBytes(b: bool): (s: seq<Byte>)
    ensures |s| >= 1
  {
    VarintBytes(if b then 1 else 0)
  }

  /** An optional time: whether there is one, and the time. */
  function TimeBytes(t: Option<int>): seq<Byte> {
    match t
    case None => BoolBytes(false)
    case Some(i) => BoolBytes(true) + VarintBytes(i)
  }

  function FormTag(f: Form): int {
    match f
    case Pred(_, _) => TAG_PRED
    case Const(_) => TAG_CONST
    case Not(_) => TAG_NOT
    case And(_) => TAG_AND
    case Or(_) => TAG_OR
    case Implies(_, _) => TAG_IMPLIES
    case Speaksfor(_, _) => TAG_SPEAKSFOR
    case Says(_, _, _, _) => TAG_SAYS
    case Forall(_, _) => TAG_FORALL
    case Exists(_, _) => TAG_EXISTS
  }

  function FormBytes(f: Form): (s: seq<Byte>)
    ensures |s| >= 1
    decreases f, 1
  {
    VarintBytes(FormTag(f)) + FormBody(f)
  }

  function FormBody(f: Form): seq<Byte>
    decreases f, 0
  {
    match f
    case Pred(name, args) => NameAndArgsBytes(name, args)
    case Const(b) => BoolBytes(b)
    case Not(g) => FormBytes(g)
    case And(gs) => VarintBytes(|gs|) + FormsBytes(gs)
    case Or(gs) => VarintBytes(|gs|) + FormsBytes(gs)
    case Implies(g, h) => FormBytes(g) + FormBytes(h)
    case Speaksfor(d, g) => TermBytes(d) + TermBytes(g)
    case Says(s, t, e, m) => TermBytes(s) + (TimeBytes(t) + (TimeBytes(e) + FormBytes(m)))
    case Forall(v, g) => BlobBytes(Raw(v)) + FormBytes(g)
    case Exists(v, g) => BlobBytes(Raw(v)) + FormBytes(g)
  }

  function FormsBytes(fs: seq<Form>): seq<Byte>
    decreases fs
  {
    if fs == [] then [] else FormBytes(fs[0]) + FormsBytes(fs[1..])
  }

  /** Anything but one is false. */
  function ReadBool(s: seq<Byte>): (r: Option<(bool, seq<Byte>)>)
    ensures r.Some? ==> |r.value.1| < |s|
  {
    match ReadVarint(s)
    case None => None
    case Some((i, rest)) => Some((i == 1, rest))
  }

  function ReadTime(s: seq<Byte>): (r: Option<(Option<int>, seq<Byte>)>)
    ensures r.Some? ==> |r.value.1| < |s|
  {
    match ReadBool(s)
    case None => None
    case Some((present, s1)) =>
      if !present then Some((None, s1))
      else
        match ReadVarint(s1)
        case None => None
        case Some((i, rest)) => Some((Some(i), rest))
  }

  function ReadForm(s: seq<Byte>): (r: Option<(Form, seq<Byte>)>)
    ensures r.Some? ==> |r.value.1| < |s|
    decreases |s|, 0
  {
    match ReadVarint(s)
    case None => None
    case Some((tag, s1)) => ReadFormBody(tag, s1)
  }

  function ReadFormBody(tag: int, s: seq<Byte>): (r: Option<(Form, seq<Byte>)>)
    ensures r.Some? ==> |r.value.1| < |s|
    decreases |s|, 3
  {
    if tag == TAG_PRED then
      (match ReadNameAndArgs(s) case None => None case Some((n, ts, rest)) => Some((Pred(n, ts), rest)))
    else if tag == TAG_CONST then (match ReadBool(s) case None => None case Some((b, rest)) => Some((Const(b), rest)))
    else if tag == TAG_NOT then (match ReadForm(s) case None => None case Some((g, rest)) => Some((Not(g), rest)))
    else if tag == TAG_AND then (match ReadForms(s) case None => None case Some((gs, rest)) => Some((And(gs), rest)))
    else if tag == TAG_OR then (match ReadForms(s) case None => None case Some((gs, rest)) => Some((Or(gs), rest)))
    else if tag == TAG_IMPLIES then ReadImplies(s)
    else if tag == TAG_SPEAKSFOR then ReadSpeaksfor(s)
    else if tag == TAG_SAYS then ReadSays(s)
    else if tag == TAG_FORALL then
      (match ReadBinder(s) case None => None case Some((v, g, rest)) => Some((Forall(v, g), rest)))
    else if tag == TAG_EXISTS then
      (match ReadBinder(s) case None => None case Some((v, g, rest)) => Some((Exists(v, g), rest)))
    else None
  }

  function ReadForms(s: seq<Byte>): (r: Option<(seq<Form>, seq<Byte>)>)
    ensures r.Some? ==> |r.value.1| < |s|
    decreases |s|, 2
  {
    match ReadVarint(s)
    case None => None
    case Some((n, s1)) => ReadFormList(s1, n)
  }

  function ReadFormList(s: seq<Byte>, n: int): (r: Option<(seq<Form>, seq<Byte>)>)
    ensures r.Some? ==> |r.value.1| <= |s|
    decreases |s|, 1
  {
    if n <= 0 then Some(([], s))
    else
      match ReadForm(s)
      case None => None
      case Some((f, s1)) =>
        match ReadFormList(s1, n - 1)
        case None => None
        case Some((fs, rest)) => Some(([f] + fs, rest))
  }

  function ReadImplies(s: seq<Byte>): (r: Option<(Form, seq<Byte>)>)
    ensures r.Some? ==> |r.value.1| < |s|
    decreases |s|, 1
  {
    match ReadForm(s)
    case None => None
    case Some((g, s1)) =>
      match ReadForm(s1)
      case None => None
      case Some((h, rest)) => Some((Implies(g, h), rest))
  }

  function ReadSpeaksfor(s: seq<Byte>): (r: Option<(Form, seq<Byte>)>)
    ensures r.Some? ==> |r.value.1| < |s|
  {
    match ReadTerm(s)
    case None => None
    case Some((d, s1)) =>
      match ReadTerm(s1)
      case None => None
      case Some((g, rest)) => Some((Speaksfor(d, g), rest))
  }

  function ReadSays(s: seq<Byte>): (r: Option<(Form, seq<Byte>)>)
    ensures r.Some? ==> |r.value.1| < |s|
    decreases |s|, 1
  {
    match ReadTerm(s)
    case None => None
    case Some((speaker, s1)) =>
      match ReadTime(s1)
      case None => None
      case Some((time, s2)) =>
        match ReadTime(s2)
        case None => None
        case Some((expiration, s3)) =>
          match ReadForm(s3)
          case None => None
          case Some((message, rest)) => Some((Says(speaker, time, expiration, message), rest))
  }

  function ReadBinder(s: seq<Byte>): (r: Option<(string, Form, seq<Byte>)>)
    ensures r.Some? ==> |r.value.2| < |s|
    decreases |s|, 1
  {
    match ReadString(s)
    case None => None
    case Some((v, s1)) =>
      match ReadForm(s1)
      case None => None
      case Some((g, rest)) => Some((v, g, rest))
  }

  function Marshal(f: Form): seq<Byte> {
    FormBytes(f)
  }

  /** Trailing bytes are refused. */
  function Unmarshal(s: seq<Byte>): Option<Form> {
    match ReadForm(s)
    case None => None
    case Some((f, rest)) => if rest == [] then Some(f) else None
  }

  // ----- what the types of the source can represent

  predicate EncodableTerm(t: Term)
    decreases t
  {
    match t
    case PrinTerm(p) => EncodablePrin(p)
    case TailTerm(es) => EncodableExts(es)
    case Str(s) => ByteString(s)
    case Bytes(b) => |b| < TWO_63
    case Int(i) => FitsInt64(i)
    case Var(n) => ByteString(n)
  }

  predicate EncodablePrin(p: Prin)
    decreases p
  {
    ByteString(p.typ) && EncodableTerm(p.keyHash) && EncodableExts(p.ext)
  }

  predicate EncodableExts(es: seq<PrinExt>)
    decreases es
  {
    |es| < TWO_63 && forall i :: 0 <= i < |es| ==> ByteString(es[i].name) && EncodableTerms(es[i].args)
  }

  predicate EncodableTerms(ts: seq<Term>)
    decreases ts
  {
    |ts| < TWO_63 && forall i :: 0 <= i < |ts| ==> EncodableTerm(ts[i])
  }

  /** Byte strings, sixty-four-bit integers and counts throughout. */
  predicate Encodable(f: Form)
    decreases f
  {
    match f
    case Pred(name, args) => ByteString(name) && EncodableTerms(args)
    case Const(_) => true
    case Not(g) => Encodable(g)
    case And(gs) => |gs| < TWO_63 && forall i :: 0 <= i < |gs| ==> Encodable(gs[i])
    case Or(gs) => |gs| < TWO_63 && forall i :: 0 <= i < |gs| ==> Encodable(gs[i])
    case Implies(g, h) => Encodable(g) && Encodable(h)
    case Speaksfor(d, g) => EncodableTerm(d) && EncodableTerm(g)
    case Says(s, t, e, m) =>
      EncodableTerm(s) && (t.Some? ==> FitsInt64(t.value)) && (e.Some? ==> FitsInt64(e.value)) && Encodable(m)
    case Forall(v, g) => ByteString(v) && Encodable(g)
    case Exists(v, g) => ByteString(v) && Encodable(g)
  }
}
