/**
 The abstract syntax of the Tao authorization logic: terms, principals and
 formulas.  `Identical` in the source is structural equality, so `==` plays its
 part here.
 */
module Auth {
  import opened Wrappers

  datatype Term =
    | PrinTerm(prin: Prin)
    | TailTerm(tail: seq<PrinExt>)
    | Str(s: string)
    | Bytes(b: seq<Byte>)
    | Int(i: int)
    | Var(name: string)

  datatype Prin = Prin(typ: string, keyHash: Term, ext: seq<PrinExt>)

  datatype PrinExt = PrinExt(name: string, args: seq<Term>)

  datatype Form =
    | Pred(name: string, args: seq<Term>)
    | Const(value: bool)
    | Not(negand: Form)
    | And(conjuncts: seq<Form>)
    | Or(disjuncts: seq<Form>)
    | Implies(antecedent: Form, consequent: Form)
    | Speaksfor(delegate: Term, delegator: Term)
    | Says(speaker: Term, time: Option<int>, expiration: Option<int>, message: Form)
    | Forall(v: string, body: Form)
    | Exists(v: string, body: Form)

  /** Child is parent, or parent followed by further extensions. */
  predicate SubprinOrIdentical(child: Term, parent: Term) {
    && child.PrinTerm? && parent.PrinTerm?
    && child.prin.typ == parent.prin.typ
    && child.prin.keyHash == parent.prin.keyHash
    && parent.prin.ext <= child.prin.ext
  }

  function MakeSubprincipal(p: Prin, e: seq<PrinExt>): Prin {
    p.(ext := p.ext + e)
  }

  lemma SubprinTransitive(a: Term, b: Term, c: Term)
    requires SubprinOrIdentical(a, b) && SubprinOrIdentical(b, c)
    ensures SubprinOrIdentical(a, c)
  {
  }

  /** The child is the parent's name with further extensions behind it. */
  ghost predicate Extends(child: Term, parent: Term) {
    parent.PrinTerm? &&
    exists e :: child == PrinTerm(Prin(parent.prin.typ, parent.prin.keyHash, parent.prin.ext + e))
  }

  lemma SubprinIsExtension(child: Term, parent: Term)
    ensures SubprinOrIdentical(child, parent) <==> Extends(child, parent)
  {
    if SubprinOrIdentical(child, parent) {
      var n := |parent.prin.ext|;
      assert child.prin.ext == parent.prin.ext + child.prin.ext[n..];
    }
  }

  /** Compares the extensions one by one. */
  method CheckSubprin(child: Term, parent: Term) returns (ok: bool)
    ensures ok <==> Extends(child, parent)
  {
    SubprinIsExtension(child, parent);
    if !child.PrinTerm? || !parent.PrinTerm? {
      return false;
    }
    var c, p := child.prin, parent.prin;
    if p.typ != c.typ || p.keyHash != c.keyHash || |p.ext| > |c.ext| {
      return false;
    }
    for i := 0 to |p.ext|
      invariant p.ext[..i] == c.ext[..i]
    {
      if p.ext[i] != c.ext[i] {
        return false;
      }
    }
    ok := true;
  }
}
