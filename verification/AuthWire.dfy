/**
 The binary form of terms and formulas byte by byte: tags, order of the fields, the
 digits of a varint, and what the reader makes of input that no writer produces.
 */
module AuthWire {
  import opened Wrappers
  import opened Sequences
  import opened Auth
  import opened AuthCodec
  import opened AuthRoundTrip

  // ----- varints

  /** The number that groups of seven bits stand for, the low group first. */
  function SevenBitGroups(s: seq<Byte>): nat {
    if s == [] then 0 else s[0] % 128 + 128 * SevenBitGroups(s[1..])
  }

  /** Groups of seven bits, low ones first; all bytes but the last have the high bit set, and the last is needed. */
  lemma {:induction false} VarintDigits(u: nat)
    ensures var s := Uvarint(u);
            && SevenBitGroups(s) == u
            && (forall i :: 0 <= i < |s| - 1 ==> s[i] >= 128)
            && s[|s| - 1] < 128 && (|s| > 1 ==> s[|s| - 1] > 0)
  {
    if u >= 128 {
      VarintDigits(u / 128);
      var s := Uvarint(u);
      assert s[1..] == Uvarint(u / 128);
      forall i | 0 <= i < |s| - 1 ensures s[i] >= 128 {
        assert i > 0 ==> s[i] == s[1..][i - 1];
      }
      assert s[|s| - 1] == s[1..][|s| - 2];
    }
  }

  /** Negative integers are written as their two's complement of sixty-four bits. */
  lemma IntegersOnTheWire(i: int)
    requires -0x8000_0000_0000_0000 <= i < 0x8000_0000_0000_0000
    ensures SevenBitGroups(VarintBytes(i)) == if i < 0 then i + 0x1_0000_0000_0000_0000 else i
    ensures 0 <= i < 128 ==> VarintBytes(i) == [i]
  {
    VarintDigits(i % TWO_64);
  }

  lemma {:induction false} ReadUvarintRange(s: seq<Byte>, k: nat)
    requires ReadUvarint(s, k).Some?
    ensures k <= 9 && ReadUvarint(s, k).value.0 < 2 * Pow128(9 - k)
  {
    if s[0] < 128 {
      PowersGrow(9 - k);
    } else {
      ReadUvarintRange(s[1..], k + 1);
      assert Pow128(9 - k) == 128 * Pow128(8 - k);
    }
  }

  lemma {:induction false} PowersGrow(k: nat)
    ensures Pow128(k) >= 1 && (k > 0 ==> Pow128(k) >= 128)
  {
    if k > 0 {
      PowersGrow(k - 1);
    }
  }

  /** Whatever the input, what is read off it is an integer of sixty-four bits. */
  lemma IntegersAreSixtyFourBits(s: seq<Byte>)
    ensures ReadVarint(s).Some? ==> FitsInt64(ReadVarint(s).value.0)
  {
    if ReadVarint(s).Some? {
      ReadUvarintRange(s, 0);
      SixtyFourBits();
    }
  }

  // ----- terms

  function StringBytes(s: string): seq<Byte> {
    VarintBytes(|s|) + seq(|s|, i requires 0 <= i < |s| => s[i] as int % 256)
  }

  lemma StringsOnTheWire(s: string)
    ensures BlobBytes(Raw(s)) == StringBytes(s)
  {
    assert Raw(s) == seq(|s|, i requires 0 <= i < |s| => s[i] as int % 256);
  }

  function EachTerm(ts: seq<Term>): (parts: seq<seq<Byte>>)
    ensures |parts| == |ts|
  {
    seq(|ts|, i requires 0 <= i < |ts| => TermBytes(ts[i]))
  }

  /** A name, the number of arguments, and the arguments one after the other. */
  function CallBytes(name: string, args: seq<Term>): seq<Byte> {
    StringBytes(name) + (VarintBytes(|args|) + Concat(EachTerm(args)))
  }

  function EachExt(es: seq<PrinExt>): (parts: seq<seq<Byte>>)
    ensures |parts| == |es|
  {
    seq(|es|, i requires 0 <= i < |es| => [18] + CallBytes(es[i].name, es[i].args))
  }

  lemma {:induction false} ArgumentsInOrder(ts: seq<Term>)
    ensures TermsBytes(ts) == Concat(EachTerm(ts))
  {
    if ts != [] {
      ArgumentsInOrder(ts[1..]);
      assert EachTerm(ts)[1..] == EachTerm(ts[1..]);
    }
  }

  lemma CallsOnTheWire(name: string, args: seq<Term>)
    ensures NameAndArgsBytes(name, args) == CallBytes(name, args)
  {
    StringsOnTheWire(name);
    ArgumentsInOrder(args);
  }

  lemma {:induction false} ExtensionsInOrder(es: seq<PrinExt>)
    ensures ExtsBytes(es) == Concat(EachExt(es))
  {
    if es != [] {
      ExtensionsInOrder(es[1..]);
      CallsOnTheWire(es[0].name, es[0].args);
      assert EachExt(es)[1..] == EachExt(es[1..]);
      assert VarintBytes(18) == [18];
    }
  }

  /** The extensions of a principal: a tag, their number, and each of them behind a tag of its own. */
  lemma ExtensionsOnTheWire(es: seq<PrinExt>)
    ensures SubPrinBytes(es) == [17] + (VarintBytes(|es|) + Concat(EachExt(es)))
  {
    ExtensionsInOrder(es);
    assert VarintBytes(17) == [17];
  }

  /** Every kind of term, its tag first. */
  lemma TermsOnTheWire(t: Term)
    ensures match t
            case PrinTerm(p) =>
              TermBytes(t) == [1] + (StringBytes(p.typ) + (TermBytes(p.keyHash) + SubPrinBytes(p.ext)))
            case TailTerm(es) => TermBytes(t) == [2] + SubPrinBytes(es)
            case Str(s) => TermBytes(t) == [3] + StringBytes(s)
            case Bytes(b) => TermBytes(t) == [4] + (VarintBytes(|b|) + b)
            case Int(i) => TermBytes(t) == [5] + VarintBytes(i)
            case Var(n) => TermBytes(t) == [6] + StringBytes(n)
  {
    match t {
      case PrinTerm(p) => StringsOnTheWire(p.typ);
      case Str(s) => StringsOnTheWire(s);
      case Var(n) => StringsOnTheWire(n);
      case _ =>
    }
  }

  // ----- formulas

  function EachForm(fs: seq<Form>): (parts: seq<seq<Byte>>)
    ensures |parts| == |fs|
  {
    seq(|fs|, i requires 0 <= i < |fs| => FormBytes(fs[i]))
  }

  lemma {:induction false} FormsInOrder(fs: seq<Form>)
    ensures FormsBytes(fs) == Concat(EachForm(fs))
  {
    if fs != [] {
      FormsInOrder(fs[1..]);
      assert EachForm(fs)[1..] == EachForm(fs[1..]);
    }
  }

  /** One byte for no time; a one and the time otherwise. */
  function TimeOnTheWire(t: Option<int>): seq<Byte> {
    if t.None? then [0] else [1] + VarintBytes(t.value)
  }

  lemma TimesOnTheWire(t: Option<int>)
    ensures TimeBytes(t) == TimeOnTheWire(t)
  {
    SmallVarint(0);
    SmallVarint(1);
  }

  lemma SmallVarint(n: Byte)
    requires n < 128
    ensures VarintBytes(n) == [n]
  {
  }

  lemma FormTagByte(f: Form)
    ensures FormTag(f) == match f
                          case Pred(_, _) => 7
                          case Const(_) => 8
                          case Not(_) => 9
                          case And(_) => 10
                          case Or(_) => 11
                          case Implies(_, _) => 12
                          case Speaksfor(_, _) => 13
                          case Says(_, _, _, _) => 14
                          case Forall(_, _) => 15
                          case Exists(_, _) => 16
    ensures FormBytes(f) == [FormTag(f)] + FormBody(f)
  {
    SmallVarint(FormTag(f));
  }

  /** Every kind of formula, its tag first. */
  lemma FormsOnTheWire(f: Form)
    ensures match f
            case Pred(name, args) => FormBytes(f) == [7] + CallBytes(name, args)
            case Const(b) => FormBytes(f) == [8, if b then 1 else 0]
            case Not(g) => FormBytes(f) == [9] + FormBytes(g)
            case And(gs) => FormBytes(f) == [10] + (VarintBytes(|gs|) + Concat(EachForm(gs)))
            case Or(gs) => FormBytes(f) == [11] + (VarintBytes(|gs|) + Concat(EachForm(gs)))
            case Implies(g, h) => FormBytes(f) == [12] + (FormBytes(g) + FormBytes(h))
            case Speaksfor(d, g) => FormBytes(f) == [13] + (TermBytes(d) + TermBytes(g))
            case Says(s, t, e, m) =>
              FormBytes(f) == [14] + (TermBytes(s) + (TimeOnTheWire(t) + (TimeOnTheWire(e) + FormBytes(m))))
            case Forall(v, g) => FormBytes(f) == [15] + (StringBytes(v) + FormBytes(g))
            case Exists(v, g) => FormBytes(f) == [16] + (StringBytes(v) + FormBytes(g))
  {
    FormTagByte(f);
    match f {
      case Pred(name, args) => CallsOnTheWire(name, args);
      case Const(b) =>
        SmallVarint(if b then 1 else 0);
      case Says(_, t, e, _) =>
        TimesOnTheWire(t);
        TimesOnTheWire(e);
      case And(gs) => FormsInOrder(gs);
      case Or(gs) => FormsInOrder(gs);
      case Forall(v, _) => StringsOnTheWire(v);
      case Exists(v, _) => StringsOnTheWire(v);
      case _ =>
    }
  }

  // ----- input that no writer produces

  /** A formula with anything behind it is refused. */
  lemma TrailingBytesAreRefused(f: Form, more: seq<Byte>)
    requires Encodable(f)
    ensures Unmarshal(Marshal(f) + more) == if more == [] then Some(f) else None
  {
    FormReads(f, more);
  }

  /** A flag other than one reads as false, so that a time behind it is not read. */
  lemma OddFlags(i: int, rest: seq<Byte>)
    requires FitsInt64(i) && i != 1
    ensures ReadBool(VarintBytes(i) + rest) == Some((false, rest))
    ensures ReadTime(VarintBytes(i) + rest) == Some((None, rest))
  {
    VarintReads(i, rest);
  }

  /** A negative number of extensions or conjuncts reads as none; a negative number of arguments is refused. */
  lemma NegativeCounts(i: int, name: string, rest: seq<Byte>)
    requires FitsInt64(i) && i < 0 && ByteString(name)
    ensures ReadSubPrin([17] + (VarintBytes(i) + rest)) == Some(([], rest))
    ensures ReadForms(VarintBytes(i) + rest) == Some(([], rest))
    ensures ReadNameAndArgs(StringBytes(name) + (VarintBytes(i) + rest)) == None
  {
    VarintReads(i, rest);
    VarintReads(17, VarintBytes(i) + rest);
    StringsOnTheWire(name);
    StringReads(name, VarintBytes(i) + rest);
  }

  /** No other tag introduces a term or a formula. */
  lemma UnknownTags(i: int, rest: seq<Byte>)
    requires FitsInt64(i)
    ensures !(1 <= i <= 6) ==> ReadTerm(VarintBytes(i) + rest) == None
    ensures !(7 <= i <= 16) ==> ReadForm(VarintBytes(i) + rest) == None
  {
    VarintReads(i, rest);
  }
}
