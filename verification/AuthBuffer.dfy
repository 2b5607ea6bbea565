/**
 The buffer that elements are marshalled into and unmarshalled from.  Marshalling
 appends to it, unmarshalling takes bytes off its front.
 */
module AuthBuffer {
  import opened Wrappers
  import opened Sequences
  import opened Auth
  import opened AuthCodec

  class Buffer {
    var buf: seq<Byte>

    constructor (buf: seq<Byte>)
      ensures this.buf == buf
    {
      this.buf := buf;
    }

    // ----- marshalling

    method EncodeVarint(i: int)
      modifies this
      ensures buf == old(buf) + VarintBytes(i)
    {
      var b := Uvarint(i % TWO_64);
      buf := buf + b;
    }

    method EncodeBool(b: bool)
      modifies this
      ensures buf == old(buf) + BoolBytes(b)
    {
      EncodeVarint(if b then 1 else 0);
    }

    method EncodeString(b: seq<Byte>)
      modifies this
      ensures buf == old(buf) + BlobBytes(b)
    {
      EncodeVarint(|b|);
      buf := buf + b;
      Assoc(old(buf), VarintBytes(|b|), b);
    }

    method MarshalTerm(t: Term)
      modifies this
      ensures buf == old(buf) + TermBytes(t)
      decreases t
    {
      EncodeVarint(TermTag(t));
      ghost var tag, body := VarintBytes(TermTag(t)), TermBody(t);
      match t {
        case PrinTerm(p) =>
          EncodeString(Raw(p.typ));
          MarshalTerm(p.keyHash);
          MarshalSubPrin(p.ext);
          Assoc(old(buf) + tag + BlobBytes(Raw(p.typ)), TermBytes(p.keyHash), SubPrinBytes(p.ext));
          Assoc(old(buf) + tag, BlobBytes(Raw(p.typ)), TermBytes(p.keyHash) + SubPrinBytes(p.ext));
        case TailTerm(es) => MarshalSubPrin(es);
        case Str(s) => EncodeString(Raw(s));
        case Bytes(b) => EncodeString(b);
        case Int(i) => EncodeVarint(i);
        case Var(n) => EncodeString(Raw(n));
      }
      assert buf == old(buf) + tag + body;
      Assoc(old(buf), tag, body);
    }

    method MarshalSubPrin(es: seq<PrinExt>)
      modifies this
      ensures buf == old(buf) + SubPrinBytes(es)
      decreases es
    {
      EncodeVarint(TAG_SUB_PRIN);
      EncodeVarint(|es|);
      ghost var a, b := VarintBytes(TAG_SUB_PRIN), VarintBytes(|es|);
      ghost var start := old(buf) + a + b;
      for i := 0 to |es|
        invariant buf + ExtsBytes(es[i..]) == start + ExtsBytes(es)
      {
        ghost var before := buf;
        EncodeVarint(TAG_PRIN_EXT);
        MarshalNameAndArgs(es[i].name, es[i].args);
        ghost var tag, body := VarintBytes(TAG_PRIN_EXT), NameAndArgsBytes(es[i].name, es[i].args);
        assert es[i..][0] == es[i] && es[i..][1..] == es[i + 1..];
        Assoc(before, tag, body);
        Assoc(before, tag + body, ExtsBytes(es[i + 1..]));
      }
      assert buf + [] == buf;
      Assoc(old(buf) + a, b, ExtsBytes(es));
      Assoc(old(buf), a, b + ExtsBytes(es));
    }

    method MarshalNameAndArgs(name: string, args: seq<Term>)
      modifies this
      ensures buf == old(buf) + NameAndArgsBytes(name, args)
      decreases args
    {
      EncodeString(Raw(name));
      EncodeVarint(|args|);
      ghost var a, b := BlobBytes(Raw(name)), VarintBytes(|args|);
      ghost var start := old(buf) + a + b;
      for i := 0 to |args|
        invariant buf + TermsBytes(args[i..]) == start + TermsBytes(args)
      {
        ghost var before := buf;
        MarshalTerm(args[i]);
        assert args[i..][0] == args[i] && args[i..][1..] == args[i + 1..];
        Assoc(before, TermBytes(args[i]), TermsBytes(args[i + 1..]));
      }
      assert buf + [] == buf;
      Assoc(old(buf) + a, b, TermsBytes(args));
      Assoc(old(buf), a, b + TermsBytes(args));
    }

    method MarshalForm(f: Form)
      modifies this
      ensures buf == old(buf) + FormBytes(f)
      decreases f, 1
    {
      EncodeVarint(FormTag(f));
      MarshalFormBody(f);
      Assoc(old(buf), VarintBytes(FormTag(f)), FormBody(f));
    }

    method MarshalFormBody(f: Form)
      modifies this
      ensures buf == old(buf) + FormBody(f)
      decreases f, 0
    {
      match f {
        case Pred(name, args) => MarshalNameAndArgs(name, args);
        case Const(b) => EncodeBool(b);
        case Not(g) => MarshalForm(g);
        case And(gs) => MarshalForms(gs);
        case Or(gs) => MarshalForms(gs);
        case Implies(g, h) =>
          MarshalForm(g);
          MarshalForm(h);
          Assoc(old(buf), FormBytes(g), FormBytes(h));
        case Speaksfor(d, g) =>
          MarshalTerm(d);
          MarshalTerm(g);
          Assoc(old(buf), TermBytes(d), TermBytes(g));
        case Says(s, t, e, m) =>
          MarshalTerm(s);
          EncodeTime(t);
          EncodeTime(e);
          MarshalForm(m);
          Assoc(old(buf) + TermBytes(s) + TimeBytes(t), TimeBytes(e), FormBytes(m));
          Assoc(old(buf) + TermBytes(s), TimeBytes(t), TimeBytes(e) + FormBytes(m));
          Assoc(old(buf), TermBytes(s), TimeBytes(t) + (TimeBytes(e) + FormBytes(m)));
        case Forall(v, g) =>
          EncodeString(Raw(v));
          MarshalForm(g);
          Assoc(old(buf), BlobBytes(Raw(v)), FormBytes(g));
        case Exists(v, g) =>
          EncodeString(Raw(v));
          MarshalForm(g);
          Assoc(old(buf), BlobBytes(Raw(v)), FormBytes(g));
      }
    }

    method EncodeTime(t: Option<int>)
      modifies this
      ensures buf == old(buf) + TimeBytes(t)
    {
      EncodeBool(t.Some?);
      if t.Some? {
        EncodeVarint(t.value);
        Assoc(old(buf), BoolBytes(true), VarintBytes(t.value));
      }
    }

    method MarshalForms(gs: seq<Form>)
      modifies this
      ensures buf == old(buf) + (VarintBytes(|gs|) + FormsBytes(gs))
      decreases gs
    {
      EncodeVarint(|gs|);
      ghost var start := old(buf) + VarintBytes(|gs|);
      for i := 0 to |gs|
        invariant buf + FormsBytes(gs[i..]) == start + FormsBytes(gs)
      {
        ghost var before := buf;
        MarshalForm(gs[i]);
        assert gs[i..][0] == gs[i] && gs[i..][1..] == gs[i + 1..];
        Assoc(before, FormBytes(gs[i]), FormsBytes(gs[i + 1..]));
      }
      assert buf + [] == buf;
      Assoc(old(buf), VarintBytes(|gs|), FormsBytes(gs));
    }

    // ----- unmarshalling

    method DecodeVarint() returns (r: Option<int>)
      modifies this
      ensures match ReadVarint(old(buf))
              case None => r == None
              case Some((i, rest)) => r == Some(i) && buf == rest
    {
      var u := ReadUvarint(buf, 0);
      if u.None? {
        return None;
      }
      buf := u.value.1;
      r := Some(AsInt64(u.value.0));
    }

    method DecodeBool() returns (r: Option<bool>)
      modifies this
      ensures match ReadBool(old(buf))
              case None => r == None
              case Some((b, rest)) => r == Some(b) && buf == rest
    {
      var i := DecodeVarint();
      r := if i.None? then None else Some(i.value == 1);
    }

    method DecodeBlob() returns (r: Option<seq<Byte>>)
      modifies this
      ensures match ReadBlob(old(buf))
              case None => r == None
              case Some((b, rest)) => r == Some(b) && buf == rest
    {
      var n := DecodeVarint();
      if n.None? || n.value < 0 || n.value > |buf| {
        return None;
      }
      r := Some(buf[..n.value]);
      buf := buf[n.value..];
    }

    method DecodeString() returns (r: Option<string>)
      modifies this
      ensures match ReadString(old(buf))
              case None => r == None
              case Some((x, rest)) => r == Some(x) && buf == rest
    {
      var b := DecodeBlob();
      r := if b.None? then None else Some(Text(b.value));
    }

    method DecodeTime() returns (r: Option<Option<int>>)
      modifies this
      ensures match ReadTime(old(buf))
              case None => r == None
              case Some((t, rest)) => r == Some(t) && buf == rest
    {
      var present := DecodeBool();
      if present.None? {
        return None;
      }
      if !present.value {
        return Some(None);
      }
      var i := DecodeVarint();
      r := if i.None? then None else Some(Some(i.value));
    }

    method UnmarshalTerm() returns (r: Option<Term>)
      modifies this
      ensures match ReadTerm(old(buf))
              case None => r == None
              case Some((t, rest)) => r == Some(t) && buf == rest
      decreases |buf|, 0
    {
      var tag := DecodeVarint();
      if tag.None? {
        return None;
      }
      r := DecodeTermBody(tag.value);
    }

    method DecodeTermBody(tag: int) returns (r: Option<Term>)
      modifies this
      ensures match ReadTermBody(tag, old(buf))
              case None => r == None
              case Some((t, rest)) => r == Some(t) && buf == rest
      decreases |buf|, 4
    {
      if tag == TAG_STR {
        var x := DecodeString();
        r := if x.None? then None else Some(Str(x.value));
      } else if tag == TAG_BYTES {
        var b := DecodeBlob();
        r := if b.None? then None else Some(Bytes(b.value));
      } else if tag == TAG_INT {
        var i := DecodeVarint();
        r := if i.None? then None else Some(Int(i.value));
      } else if tag == TAG_PRIN {
        var p := DecodePrin();
        r := if p.None? then None else Some(PrinTerm(p.value));
      } else if tag == TAG_PRIN_TAIL {
        var es := UnmarshalSubPrin();
        r := if es.None? then None else Some(TailTerm(es.value));
      } else if tag == TAG_TERM_VAR {
        var x := DecodeString();
        r := if x.None? then None else Some(Var(x.value));
      } else {
        r := None;
      }
    }

    method DecodePrin() returns (r: Option<Prin>)
      modifies this
      ensures match ReadPrin(old(buf))
              case None => r == None
              case Some((p, rest)) => r == Some(p) && buf == rest
      decreases |buf|, 1
    {
      var typ := DecodeString();
      if typ.None? {
        return None;
      }
      var keyHash := UnmarshalTerm();
      if keyHash.None? {
        return None;
      }
      var ext := UnmarshalSubPrin();
      r := if ext.None? then None else Some(Prin(typ.value, keyHash.value, ext.value));
    }

    method UnmarshalSubPrin() returns (r: Option<seq<PrinExt>>)
      modifies this
      ensures match ReadSubPrin(old(buf))
              case None => r == None
              case Some((es, rest)) => r == Some(es) && buf == rest
      decreases |buf|, 3
    {
      var tag := DecodeVarint();
      if tag.None? || tag.value != TAG_SUB_PRIN {
        return None;
      }
      var n := DecodeVarint();
      if n.None? {
        return None;
      }
      r := DecodeExts(n.value);
    }

    method DecodeExts(n: int) returns (r: Option<seq<PrinExt>>)
      modifies this
      ensures match ReadExts(old(buf), n)
              case None => r == None
              case Some((es, rest)) => r == Some(es) && buf == rest
      decreases |buf|, 2
    {
      var es: seq<PrinExt> := [];
      assert forall more: seq<PrinExt> :: [] + more == more;
      var i := 0;
      while i < n
        invariant 0 <= i && (i <= n || i == 0) && |buf| <= |old(buf)|
        invariant match ReadExts(buf, n - i)
                  case None => ReadExts(old(buf), n) == None
                  case Some((more, rest)) => ReadExts(old(buf), n) == Some((es + more, rest))
      {
        var e := DecodePrinExt();
        if e.None? {
          return None;
        }
        assert forall more: seq<PrinExt> :: es + ([e.value] + more) == (es + [e.value]) + more;
        es := es + [e.value];
        i := i + 1;
      }
      assert es + [] == es;
      r := Some(es);
    }

    method DecodePrinExt() returns (r: Option<PrinExt>)
      modifies this
      ensures match ReadExt(old(buf))
              case None => r == None
              case Some((e, rest)) => r == Some(e) && buf == rest
      decreases |buf|, 1
    {
      var tag := DecodeVarint();
      if tag.None? || tag.value != TAG_PRIN_EXT {
        return None;
      }
      var name, args := DecodeNameAndArgs();
      r := if name.None? then None else Some(PrinExt(name.value, args));
    }

    method DecodeNameAndArgs() returns (name: Option<string>, args: seq<Term>)
      modifies this
      ensures match ReadNameAndArgs(old(buf))
              case None => name == None
              case Some((x, ts, rest)) => name == Some(x) && args == ts && buf == rest
      decreases |buf|, 2
    {
      args := [];
      name := DecodeString();
      if name.None? {
        return;
      }
      var n := DecodeVarint();
      if n.None? || n.value < 0 {
        return None, [];
      }
      ghost var s := buf;
      assert forall more: seq<Term> :: [] + more == more;
      var i := 0;
      while i < n.value
        invariant 0 <= i <= n.value && |buf| <= |s|
        invariant match ReadTerms(buf, n.value - i)
                  case None => ReadTerms(s, n.value) == None
                  case Some((more, rest)) => ReadTerms(s, n.value) == Some((args + more, rest))
      {
        var t := UnmarshalTerm();
        if t.None? {
          return None, [];
        }
        assert forall more: seq<Term> :: args + ([t.value] + more) == (args + [t.value]) + more;
        args := args + [t.value];
        i := i + 1;
      }
      assert args + [] == args;
    }

    method UnmarshalForm() returns (r: Option<Form>)
      modifies this
      ensures match ReadForm(old(buf))
              case None => r == None
              case Some((f, rest)) => r == Some(f) && buf == rest
      decreases |buf|, 0
    {
      var tag := DecodeVarint();
      if tag.None? {
        return None;
      }
      r := DecodeFormBody(tag.value);
    }

    method DecodeFormBody(tag: int) returns (r: Option<Form>)
      modifies this
      ensures match ReadFormBody(tag, old(buf))
              case None => r == None
              case Some((f, rest)) => r == Some(f) && buf == rest
      decreases |buf|, 3
    {
      if tag == TAG_PRED {
        var name, args := DecodeNameAndArgs();
        r := if name.None? then None else Some(Pred(name.value, args));
      } else if tag == TAG_CONST {
        var b := DecodeBool();
        r := if b.None? then None else Some(Const(b.value));
      } else if tag == TAG_NOT {
        var g := UnmarshalForm();
        r := if g.None? then None else Some(Not(g.value));
      } else if tag == TAG_AND {
        var gs := DecodeForms();
        r := if gs.None? then None else Some(And(gs.value));
      } else if tag == TAG_OR {
        var gs := DecodeForms();
        r := if gs.None? then None else Some(Or(gs.value));
      } else if tag == TAG_IMPLIES {
        r := DecodeImplies();
      } else if tag == TAG_SPEAKSFOR {
        r := DecodeSpeaksfor();
      } else if tag == TAG_SAYS {
        r := DecodeSays();
      } else if tag == TAG_FORALL {
        var v, g := DecodeBinder();
        r := if g.None? then None else Some(Forall(v, g.value));
      } else if tag == TAG_EXISTS {
        var v, g := DecodeBinder();
        r := if g.None? then None else Some(Exists(v, g.value));
      } else {
        r := None;
      }
    }

    method DecodeForms() returns (r: Option<seq<Form>>)
      modifies this
      ensures match ReadForms(old(buf))
              case None => r == None
              case Some((fs, rest)) => r == Some(fs) && buf == rest
      decreases |buf|, 2
    {
      var n := DecodeVarint();
      if n.None? {
        return None;
      }
      ghost var s := buf;
      var fs: seq<Form> := [];
      assert forall more: seq<Form> :: [] + more == more;
      var i := 0;
      while i < n.value
        invariant 0 <= i && (i <= n.value || i == 0) && |buf| <= |s|
        invariant match ReadFormList(buf, n.value - i)
                  case None => ReadFormList(s, n.value) == None
                  case Some((more, rest)) => ReadFormList(s, n.value) == Some((fs + more, rest))
      {
        var f := UnmarshalForm();
        if f.None? {
          return None;
        }
        assert forall more: seq<Form> :: fs + ([f.value] + more) == (fs + [f.value]) + more;
        fs := fs + [f.value];
        i := i + 1;
      }
      assert fs + [] == fs;
      r := Some(fs);
    }

    method DecodeImplies() returns (r: Option<Form>)
      modifies this
      ensures match ReadImplies(old(buf))
              case None => r == None
              case Some((f, rest)) => r == Some(f) && buf == rest
      decreases |buf|, 1
    {
      var g := UnmarshalForm();
      if g.None? {
        return None;
      }
      var h := UnmarshalForm();
      r := if h.None? then None else Some(Implies(g.value, h.value));
    }

    method DecodeSpeaksfor() returns (r: Option<Form>)
      modifies this
      ensures match ReadSpeaksfor(old(buf))
              case None => r == None
              case Some((f, rest)) => r == Some(f) && buf == rest
    {
      var d := UnmarshalTerm();
      if d.None? {
        return None;
      }
      var g := UnmarshalTerm();
      r := if g.None? then None else Some(Speaksfor(d.value, g.value));
    }

    method DecodeSays() returns (r: Option<Form>)
      modifies this
      ensures match ReadSays(old(buf))
              case None => r == None
              case Some((f, rest)) => r == Some(f) && buf == rest
      decreases |buf|, 1
    {
      var speaker := UnmarshalTerm();
      if speaker.None? {
        return None;
      }
      var time := DecodeTime();
      if time.None? {
        return None;
      }
      var expiration := DecodeTime();
      if expiration.None? {
        return None;
      }
      var message := UnmarshalForm();
      r := if message.None? then None else Some(Says(speaker.value, time.value, expiration.value, message.value));
    }

    method DecodeBinder() returns (v: string, g: Option<Form>)
      modifies this
      ensures match ReadBinder(old(buf))
              case None => g == None
              case Some((x, f, rest)) => v == x && g == Some(f) && buf == rest
      decreases |buf|, 1
    {
      var name := DecodeString();
      if name.None? {
        return "", None;
      }
      v := name.value;
      g := UnmarshalForm();
    }
  }

  method MarshalElement(f: Form) returns (s: seq<Byte>)
    ensures s == Marshal(f)
  {
    var b := new Buffer([]);
    b.MarshalForm(f);
    assert [] + FormBytes(f) == FormBytes(f);
    s := b.buf;
  }

  method UnmarshalElement(s: seq<Byte>) returns (r: Option<Form>)
    ensures r == Unmarshal(s)
  {
    var b := new Buffer(s);
    r := b.UnmarshalForm();
    if r.Some? && b.buf != [] {
      r := None;
    }
  }
}
