/**
 The custom datalog predicate `subprin(P, O, E)`: principal `P` is `O` followed by
 the extensions of the tail `E`.  It is searched in three modes, depending on
 which arguments are bound.
 */
module Subprin {
  import opened Wrappers
  import opened Auth
  import opened DatalogTranslation

  /** A principal with at least one extension, if that is what the constant prints. */
  function ParseComposite(a: Arg): Option<Prin> {
    if a.DConst? && a.term.PrinTerm? && |a.term.prin.ext| >= 1 then Some(a.term.prin) else None
  }

  /** A rooted principal and a tail; the text of a tail has at least one extension. */
  function ParseRootExt(o: Arg, e: Arg): Option<(Prin, seq<PrinExt>)> {
    if o.DConst? && o.term.PrinTerm? && e.DConst? && e.term.TailTerm? && |e.term.tail| >= 1
    then Some((o.term.prin, e.term.tail))
    else None
  }

  datatype Fact = Fact(p: Arg, o: Arg, e: Arg)

  /** The fact a search discovers for the given pattern, if any. */
  function Search(pattern: Fact, max: int): Option<Fact> {
    var Fact(p, o, e) := pattern;
    if p.DConst? && o.DVar? && e.DVar? then
      match ParseComposite(p)
      case None => None
      case Some(prin) =>
        var k := |prin.ext| - 1;
        Some(Fact(p, DConst(PrinTerm(prin.(ext := prin.ext[..k]))), DConst(TailTerm([prin.ext[k]]))))
    else if p.DVar? && o.DConst? && e.DConst? then
      match ParseRootExt(o, e)
      case None => None
      case Some((oprin, ext)) =>
        var joined := oprin.(ext := oprin.ext + ext);
        if |joined.ext| + 1 <= max then Some(Fact(DConst(PrinTerm(joined)), o, e)) else None
    else if p.DConst? && o.DConst? && e.DConst? then
      match (ParseComposite(p), ParseRootExt(o, e))
      case (Some(prin), Some((oprin, ext))) =>
        if prin == oprin.(ext := oprin.ext + ext) then Some(pattern) else None
      case _ => None
    else None
  }

  /** The relation the predicate stands for: P is O followed by a non-empty E. */
  predicate IsSubprin(f: Fact) {
    && f.p.DConst? && f.p.term.PrinTerm?
    && f.o.DConst? && f.o.term.PrinTerm?
    && f.e.DConst? && f.e.term.TailTerm?
    && f.e.term.tail != []
    && f.p.term.prin == MakeSubprincipal(f.o.term.prin, f.e.term.tail)
  }

  /** The pattern can become the fact by binding its variables. */
  predicate Fits(pattern: Fact, f: Fact) {
    && (pattern.p.DConst? ==> pattern.p == f.p)
    && (pattern.o.DConst? ==> pattern.o == f.o)
    && (pattern.e.DConst? ==> pattern.e == f.e)
  }

  /** In every mode, what is discovered is true and answers the question asked. */
  lemma SearchIsSound(pattern: Fact, max: int)
    ensures Search(pattern, max).Some? ==>
              IsSubprin(Search(pattern, max).value) && Fits(pattern, Search(pattern, max).value)
  {
    var Fact(p, o, e) := pattern;
    if p.DConst? && o.DVar? && ParseComposite(p).Some? {
      var prin := ParseComposite(p).value;
      var k := |prin.ext| - 1;
      assert prin.ext == prin.ext[..k] + [prin.ext[k]];
    }
  }

  /**
   What each mode finds of the facts that hold: the check finds all of them, the
   decomposition those that split off one extension, the composition those whose
   principal stays within the length bound.
   */
  lemma SearchModesAgree(f: Fact, x: string, y: string, max: int)
    ensures Search(f, max) == Some(f) <==> IsSubprin(f)
    ensures IsSubprin(f) && |f.e.term.tail| == 1 <==> Search(Fact(f.p, DVar(x), DVar(y)), max) == Some(f)
    ensures IsSubprin(f) && |f.p.term.prin.ext| + 1 <= max <==> Search(Fact(DVar(x), f.o, f.e), max) == Some(f)
  {
    SearchIsSound(f, max);
    SearchIsSound(Fact(f.p, DVar(x), DVar(y)), max);
    SearchIsSound(Fact(DVar(x), f.o, f.e), max);
    if IsSubprin(f) && |f.e.term.tail| == 1 {
      LastExtension(f.p.term.prin, f.o.term.prin, f.e.term.tail);
    }
  }

  lemma LastExtension(p: Prin, o: Prin, tail: seq<PrinExt>)
    requires |tail| == 1 && p == MakeSubprincipal(o, tail)
    ensures |p.ext| >= 1 && p.(ext := p.ext[..|p.ext| - 1]) == o && [p.ext[|p.ext| - 1]] == tail
  {
    assert p.ext[..|p.ext| - 1] == o.ext;
  }

  // ----- the length bound

  function Max(x: int, y: int): int {
    if x > y then x else y
  }

  /** The length of a principal is one more than the number of its extensions. */
  function TermLength(t: Term): int {
    match t
    case PrinTerm(p) => 1 + |p.ext|
    case TailTerm(es) => |es|
    case _ => 0
  }

  function TermsLength(ts: seq<Term>): int {
    if ts == [] then 0 else Max(TermLength(ts[0]), TermsLength(ts[1..]))
  }

  function FormLength(f: Form): int
    decreases f
  {
    match f
    case Pred(_, args) => TermsLength(args)
    case Const(_) => 0
    case Not(g) => FormLength(g)
    case And(gs) => FormsLength(gs)
    case Or(gs) => FormsLength(gs)
    case Implies(g, h) => Max(FormLength(g), FormLength(h))
    case Speaksfor(d, g) => Max(TermLength(d), TermLength(g))
    case Says(s, _, _, m) => Max(TermLength(s), FormLength(m))
    case Forall(_, g) => FormLength(g)
    case Exists(_, g) => FormLength(g)
  }

  function FormsLength(fs: seq<Form>): int
    decreases fs
  {
    if fs == [] then 0 else Max(FormLength(fs[0]), FormsLength(fs[1..]))
  }

  /** The terms written directly in a formula. */
  function TermsOf(f: Form): set<Term>
    decreases f
  {
    match f
    case Pred(_, args) => set t | t in args
    case Const(_) => {}
    case Not(g) => TermsOf(g)
    case And(gs) => TermsOfAll(gs)
    case Or(gs) => TermsOfAll(gs)
    case Implies(g, h) => TermsOf(g) + TermsOf(h)
    case Speaksfor(d, g) => {d, g}
    case Says(s, _, _, m) => {s} + TermsOf(m)
    case Forall(_, g) => TermsOf(g)
    case Exists(_, g) => TermsOf(g)
  }

  function TermsOfAll(fs: seq<Form>): set<Term>
    decreases fs
  {
    set i, t | 0 <= i < |fs| && t in TermsOf(fs[i]) :: t
  }

  /** `n` bounds the lengths of all the terms, and is reached unless it is zero. */
  ghost predicate IsMaxLength(n: int, ts: set<Term>) {
    && (forall t :: t in ts ==> TermLength(t) <= n)
    && (n == 0 || exists t :: t in ts && TermLength(t) == n)
  }

  lemma MaxOfUnion(m: int, s: set<Term>, n: int, t: set<Term>)
    requires IsMaxLength(m, s) && IsMaxLength(n, t) && m >= 0 && n >= 0
    ensures IsMaxLength(Max(m, n), s + t)
  {
    if m > n {
      var x :| x in s && TermLength(x) == m;
      assert x in s + t;
    } else if n > 0 {
      var x :| x in t && TermLength(x) == n;
      assert x in s + t;
    }
  }

  lemma {:induction false} TermsLengthIsMax(ts: seq<Term>)
    ensures TermsLength(ts) >= 0 && IsMaxLength(TermsLength(ts), set t | t in ts)
  {
    if ts != [] {
      TermsLengthIsMax(ts[1..]);
      SingleTerm(ts[0]);
      MaxOfUnion(TermLength(ts[0]), {ts[0]}, TermsLength(ts[1..]), set t | t in ts[1..]);
      assert (set t | t in ts) == {ts[0]} + set t | t in ts[1..];
    }
  }

  lemma SingleTerm(t: Term)
    ensures TermLength(t) >= 0 && IsMaxLength(TermLength(t), {t})
  {
    assert t in {t};
  }

  /** The bound of a query is the length of the longest principal or tail written in it. */
  lemma {:induction false} FormLengthIsMax(f: Form)
    ensures FormLength(f) >= 0 && IsMaxLength(FormLength(f), TermsOf(f))
    decreases f
  {
    match f {
      case Pred(_, args) => TermsLengthIsMax(args);
      case Const(_) =>
      case Not(g) => FormLengthIsMax(g);
      case And(gs) => FormsLengthIsMax(gs);
      case Or(gs) => FormsLengthIsMax(gs);
      case Implies(g, h) =>
        FormLengthIsMax(g);
        FormLengthIsMax(h);
        MaxOfUnion(FormLength(g), TermsOf(g), FormLength(h), TermsOf(h));
      case Speaksfor(d, g) =>
        SingleTerm(d);
        SingleTerm(g);
        MaxOfUnion(TermLength(d), {d}, TermLength(g), {g});
        assert {d} + {g} == {d, g};
      case Says(s, _, _, m) =>
        SingleTerm(s);
        FormLengthIsMax(m);
        MaxOfUnion(TermLength(s), {s}, FormLength(m), TermsOf(m));
      case Forall(_, g) => FormLengthIsMax(g);
      case Exists(_, g) => FormLengthIsMax(g);
    }
  }

  lemma {:induction false} FormsLengthIsMax(fs: seq<Form>)
    ensures FormsLength(fs) >= 0 && IsMaxLength(FormsLength(fs), TermsOfAll(fs))
    decreases fs
  {
    if fs != [] {
      FormLengthIsMax(fs[0]);
      FormsLengthIsMax(fs[1..]);
      MaxOfUnion(FormLength(fs[0]), TermsOf(fs[0]), FormsLength(fs[1..]), TermsOfAll(fs[1..]));
      TermsOfAllSplits(fs);
    }
  }

  lemma TermsOfAllSplits(fs: seq<Form>)
    requires fs != []
    ensures TermsOfAll(fs) == TermsOf(fs[0]) + TermsOfAll(fs[1..])
  {
    forall t | t in TermsOfAll(fs[1..]) ensures t in TermsOfAll(fs) {
      var i :| 0 <= i < |fs[1..]| && t in TermsOf(fs[1..][i]);
      assert fs[1..][i] == fs[i + 1];
    }
    forall t | t in TermsOfAll(fs) ensures t in TermsOf(fs[0]) || t in TermsOfAll(fs[1..]) {
      var i :| 0 <= i < |fs| && t in TermsOf(fs[i]);
      if i > 0 {
        assert fs[1..][i - 1] == fs[i];
      }
    }
  }

  /** The term has a principal's length of at least `n` extensions. */
  predicate AsLongAs(t: Term, n: nat) {
    if t.PrinTerm? then |t.prin.ext| >= n else t.TailTerm? && |t.tail| >= n + 1
  }

  ghost predicate Reaches(query: Form, n: nat) {
    exists t :: t in TermsOf(query) && AsLongAs(t, n)
  }

  /**
   While a query runs, a principal is composed with a tail exactly if some principal
   of the query has as many extensions as the result, or some tail has more.
   */
  lemma CompositionIsBoundedByTheQuery(query: Form, x: string, o: Prin, tail: seq<PrinExt>)
    requires tail != []
    ensures var pattern := Fact(DVar(x), DConst(PrinTerm(o)), DConst(TailTerm(tail)));
            var joined := Prin(o.typ, o.keyHash, o.ext + tail);
            Search(pattern, FormLength(query)) ==
              if Reaches(query, |o.ext| + |tail|)
              then Some(Fact(DConst(PrinTerm(joined)), DConst(PrinTerm(o)), DConst(TailTerm(tail))))
              else None
  {
    FormLengthIsMax(query);
    var n := |o.ext| + |tail|;
    forall t | t in TermsOf(query) ensures AsLongAs(t, n) <==> TermLength(t) >= n + 1 {
    }
    if FormLength(query) >= n + 1 {
      var t :| t in TermsOf(query) && TermLength(t) == FormLength(query);
      assert AsLongAs(t, n);
      assert Reaches(query, n);
    }
  }

  /** While a query runs, no composed principal is longer than the longest term of the query. */
  lemma ComposedPrincipalsAreBounded(query: Form, x: string, o: Arg, e: Arg)
    ensures var r := Search(Fact(DVar(x), o, e), FormLength(query));
            r.Some? ==>
              && r.value.p.DConst?
              && exists t :: t in TermsOf(query) && TermLength(r.value.p.term) <= TermLength(t)
  {
    FormLengthIsMax(query);
  }
}
