/**
 Unmarshalling undoes marshalling, for every formula that the types of the source can
 represent.
 */
module AuthRoundTrip {
  import opened Wrappers
  import opened Sequences
  import opened Auth
  import opened AuthCodec

  /** A leading tag or count is read off, and leaves what it was put in front of. */
  lemma LeadReads(n: int, body: seq<Byte>, rest: seq<Byte>)
    requires FitsInt64(n)
    ensures ReadVarint(VarintBytes(n) + body + rest) == Some((n, body + rest))
  {
    Assoc(VarintBytes(n), body, rest);
    VarintReads(n, body + rest);
  }

  // ----- terms

  lemma {:induction false} TermReads(t: Term, rest: seq<Byte>)
    requires EncodableTerm(t)
    ensures ReadTerm(TermBytes(t) + rest) == Some((t, rest))
    decreases t, 1
  {
    LeadReads(TermTag(t), TermBody(t), rest);
    TermBodyReads(t, rest);
  }

  lemma {:induction false} TermBodyReads(t: Term, rest: seq<Byte>)
    requires EncodableTerm(t)
    ensures ReadTermBody(TermTag(t), TermBody(t) + rest) == Some((t, rest))
    decreases t, 0
  {
    match t {
      case PrinTerm(p) => PrinReads(p, rest);
      case TailTerm(es) => SubPrinReads(es, rest);
      case Str(s) => StringReads(s, rest);
      case Bytes(b) => BlobReads(b, rest);
      case Int(i) => VarintReads(i, rest);
      case Var(n) => StringReads(n, rest);
    }
  }

  lemma {:induction false} PrinReads(p: Prin, rest: seq<Byte>)
    requires EncodablePrin(p)
    ensures ReadPrin(BlobBytes(Raw(p.typ)) + (TermBytes(p.keyHash) + SubPrinBytes(p.ext)) + rest) == Some((p, rest))
    decreases p
  {
    var a, b, c := BlobBytes(Raw(p.typ)), TermBytes(p.keyHash), SubPrinBytes(p.ext);
    Assoc(a, b + c, rest);
    Assoc(b, c, rest);
    StringReads(p.typ, b + (c + rest));
    TermReads(p.keyHash, c + rest);
    SubPrinReads(p.ext, rest);
  }

  lemma {:induction false} SubPrinReads(es: seq<PrinExt>, rest: seq<Byte>)
    requires EncodableExts(es)
    ensures ReadSubPrin(SubPrinBytes(es) + rest) == Some((es, rest))
    decreases es, 1
  {
    LeadReads(TAG_SUB_PRIN, VarintBytes(|es|) + ExtsBytes(es), rest);
    LeadReads(|es|, ExtsBytes(es), rest);
    ExtsRead(es, rest);
  }

  lemma {:induction false} ExtsRead(es: seq<PrinExt>, rest: seq<Byte>)
    requires EncodableExts(es)
    ensures ReadExts(ExtsBytes(es) + rest, |es|) == Some((es, rest))
    decreases es, 0
  {
    if es == [] {
      assert [] + rest == rest;
    } else {
      var e, more := es[0], ExtsBytes(es[1..]);
      var first := VarintBytes(TAG_PRIN_EXT) + NameAndArgsBytes(e.name, e.args);
      Assoc(first, more, rest);
      LeadReads(TAG_PRIN_EXT, NameAndArgsBytes(e.name, e.args), more + rest);
      NameAndArgsRead(e.name, e.args, more + rest);
      assert ReadExt(first + (more + rest)) == Some((e, more + rest));
      ExtsRead(es[1..], rest);
      assert [e] + es[1..] == es;
    }
  }

  lemma {:induction false} NameAndArgsRead(name: string, args: seq<Term>, rest: seq<Byte>)
    requires ByteString(name) && EncodableTerms(args)
    ensures ReadNameAndArgs(NameAndArgsBytes(name, args) + rest) == Some((name, args, rest))
    decreases args, 1
  {
    var a, b := BlobBytes(Raw(name)), VarintBytes(|args|) + TermsBytes(args);
    Assoc(a, b, rest);
    StringReads(name, b + rest);
    LeadReads(|args|, TermsBytes(args), rest);
    TermsRead(args, rest);
  }

  lemma {:induction false} TermsRead(ts: seq<Term>, rest: seq<Byte>)
    requires EncodableTerms(ts)
    ensures ReadTerms(TermsBytes(ts) + rest, |ts|) == Some((ts, rest))
    decreases ts, 0
  {
    if ts == [] {
      assert [] + rest == rest;
    } else {
      var first, more := TermBytes(ts[0]), TermsBytes(ts[1..]);
      Assoc(first, more, rest);
      TermReads(ts[0], more + rest);
      TermsRead(ts[1..], rest);
      assert [ts[0]] + ts[1..] == ts;
    }
  }

  // ----- formulas

  lemma BoolReads(b: bool, rest: seq<Byte>)
    ensures ReadBool(BoolBytes(b) + rest) == Some((b, rest))
  {
    VarintReads(if b then 1 else 0, rest);
  }

  lemma TimeReads(t: Option<int>, rest: seq<Byte>)
    requires t.Some? ==> FitsInt64(t.value)
    ensures ReadTime(TimeBytes(t) + rest) == Some((t, rest))
  {
    if t.None? {
      BoolReads(false, rest);
    } else {
      Assoc(BoolBytes(true), VarintBytes(t.value), rest);
      BoolReads(true, VarintBytes(t.value) + rest);
      VarintReads(t.value, rest);
    }
  }

  lemma {:induction false} FormReads(f: Form, rest: seq<Byte>)
    requires Encodable(f)
    ensures ReadForm(FormBytes(f) + rest) == Some((f, rest))
    decreases f, 1
  {
    LeadReads(FormTag(f), FormBody(f), rest);
    FormBodyReads(f, rest);
  }

  lemma {:induction false} FormBodyReads(f: Form, rest: seq<Byte>)
    requires Encodable(f)
    ensures ReadFormBody(FormTag(f), FormBody(f) + rest) == Some((f, rest))
    decreases f, 0, 2
  {
    if f.Pred? || f.Const? || f.Speaksfor? {
      LeafReads(f, rest);
    } else if f.Not? || f.And? || f.Or? || f.Implies? {
      ConnectiveReads(f, rest);
    } else if f.Says? {
      SaysReads(f.speaker, f.time, f.expiration, f.message, rest);
    } else {
      QuantifierReads(f, rest);
    }
  }

  lemma LeafReads(f: Form, rest: seq<Byte>)
    requires Encodable(f) && (f.Pred? || f.Const? || f.Speaksfor?)
    ensures ReadFormBody(FormTag(f), FormBody(f) + rest) == Some((f, rest))
  {
    match f {
      case Pred(name, args) => NameAndArgsRead(name, args, rest);
      case Const(b) => BoolReads(b, rest);
      case Speaksfor(d, g) => SpeaksforReads(d, g, rest);
    }
  }

  lemma {:induction false} ConnectiveReads(f: Form, rest: seq<Byte>)
    requires Encodable(f) && (f.Not? || f.And? || f.Or? || f.Implies?)
    ensures ReadFormBody(FormTag(f), FormBody(f) + rest) == Some((f, rest))
    decreases f, 0, 1
  {
    match f {
      case Not(g) => FormReads(g, rest);
      case And(gs) => CountedFormsRead(gs, rest);
      case Or(gs) => CountedFormsRead(gs, rest);
      case Implies(g, h) => ImpliesReads(g, h, rest);
    }
  }

  lemma {:induction false} QuantifierReads(f: Form, rest: seq<Byte>)
    requires Encodable(f) && (f.Forall? || f.Exists?)
    ensures ReadFormBody(FormTag(f), FormBody(f) + rest) == Some((f, rest))
    decreases f, 0, 1
  {
    match f {
      case Forall(v, g) => BinderReads(v, g, rest);
      case Exists(v, g) => BinderReads(v, g, rest);
    }
  }

  lemma {:induction false} CountedFormsRead(gs: seq<Form>, rest: seq<Byte>)
    requires |gs| < TWO_63 && forall i :: 0 <= i < |gs| ==> Encodable(gs[i])
    ensures ReadForms(VarintBytes(|gs|) + FormsBytes(gs) + rest) == Some((gs, rest))
    decreases gs, 1
  {
    LeadReads(|gs|, FormsBytes(gs), rest);
    FormsRead(gs, rest);
  }

  lemma {:induction false} ImpliesReads(g: Form, h: Form, rest: seq<Byte>)
    requires Encodable(g) && Encodable(h)
    ensures ReadImplies(FormBytes(g) + FormBytes(h) + rest) == Some((Implies(g, h), rest))
    decreases Implies(g, h), 0, 0
  {
    Assoc(FormBytes(g), FormBytes(h), rest);
    FormReads(g, FormBytes(h) + rest);
    FormReads(h, rest);
  }

  lemma SpeaksforReads(d: Term, g: Term, rest: seq<Byte>)
    requires EncodableTerm(d) && EncodableTerm(g)
    ensures ReadSpeaksfor(TermBytes(d) + TermBytes(g) + rest) == Some((Speaksfor(d, g), rest))
  {
    Assoc(TermBytes(d), TermBytes(g), rest);
    TermReads(d, TermBytes(g) + rest);
    TermReads(g, rest);
  }

  lemma {:induction false} BinderReads(v: string, g: Form, rest: seq<Byte>)
    requires ByteString(v) && Encodable(g)
    ensures ReadBinder(BlobBytes(Raw(v)) + FormBytes(g) + rest) == Some((v, g, rest))
    decreases g, 2
  {
    Assoc(BlobBytes(Raw(v)), FormBytes(g), rest);
    StringReads(v, FormBytes(g) + rest);
    FormReads(g, rest);
  }

  lemma {:induction false} SaysReads(s: Term, t: Option<int>, e: Option<int>, m: Form, rest: seq<Byte>)
    requires EncodableTerm(s) && (t.Some? ==> FitsInt64(t.value)) && (e.Some? ==> FitsInt64(e.value)) && Encodable(m)
    ensures ReadSays(TermBytes(s) + (TimeBytes(t) + (TimeBytes(e) + FormBytes(m))) + rest) ==
              Some((Says(s, t, e, m), rest))
    decreases m, 2
  {
    var b0, b1, b2, b3 := TermBytes(s), TimeBytes(t), TimeBytes(e), FormBytes(m);
    Assoc(b0, b1 + (b2 + b3), rest);
    Assoc(b1, b2 + b3, rest);
    Assoc(b2, b3, rest);
    TermReads(s, b1 + (b2 + (b3 + rest)));
    TimeReads(t, b2 + (b3 + rest));
    TimeReads(e, b3 + rest);
    FormReads(m, rest);
  }

  lemma {:induction false} FormsRead(fs: seq<Form>, rest: seq<Byte>)
    requires forall i :: 0 <= i < |fs| ==> Encodable(fs[i])
    ensures ReadFormList(FormsBytes(fs) + rest, |fs|) == Some((fs, rest))
    decreases fs, 0
  {
    if fs == [] {
      assert [] + rest == rest;
    } else {
      var first, more := FormBytes(fs[0]), FormsBytes(fs[1..]);
      Assoc(first, more, rest);
      FormReads(fs[0], more + rest);
      FormsRead(fs[1..], rest);
      assert [fs[0]] + fs[1..] == fs;
    }
  }

  /** Every formula the source can represent is unmarshalled from what it was marshalled to. */
  lemma UnmarshalInvertsMarshal(f: Form)
    requires Encodable(f)
    ensures Unmarshal(Marshal(f)) == Some(f)
  {
    FormReads(f, []);
    assert FormBytes(f) + [] == FormBytes(f);
  }

  /** No two formulas share their binary form, and none is the beginning of another's. */
  lemma MarshalIsPrefixFree(f: Form, g: Form)
    requires Encodable(f) && Encodable(g) && Marshal(f) <= Marshal(g)
    ensures f == g
  {
    var more := Marshal(g)[|Marshal(f)|..];
    assert Marshal(g) == Marshal(f) + more;
    FormReads(f, more);
    UnmarshalInvertsMarshal(g);
  }
}
