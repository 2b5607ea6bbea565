/**
 The compiler inside the datalog guard: policy formulas of the form
 `forall X... : F1 and F2 and ... implies G` become Horn clauses.
 */
module DatalogTranslation {
  import opened Wrappers
  import opened Auth

  /** An argument of a datalog atom: an unquoted variable or a quoted, printed term. */
  datatype Arg = DVar(name: string) | DConst(term: Term)

  datatype Atom =
    | SaysAtom(speaker: string, pred: string, args: seq<Arg>)
    | SubprinAtom(args: seq<Arg>)

  datatype Clause = Clause(head: Atom, body: seq<Atom>)

  datatype RuleError = IllegalQuantifier | IllegalVariable | Unsupported | UnsafeVariables

  // ----- variables of terms, as the usage check sees them

  function TermVars(t: Term): set<string>
    decreases t
  {
    match t
    case Var(n) => {n}
    case PrinTerm(p) => TermVars(p.keyHash) + ExtVars(p.ext)
    case _ => {}
  }

  function ExtVars(es: seq<PrinExt>): set<string>
    decreases es
  {
    set i, x | 0 <= i < |es| && x in TermsVars(es[i].args) :: x
  }

  function TermsVars(ts: seq<Term>): set<string>
    decreases ts
  {
    set i, x | 0 <= i < |ts| && x in TermVars(ts[i]) :: x
  }

  // ----- setRemove and the usage check, in place

  class VarList {
    var items: seq<string>

    constructor (vars: seq<string>)
      ensures items == vars
    {
      items := vars;
    }
  }

  /** The two lists hold every entry other than `v` equally often. */
  ghost predicate SameExcept(s: seq<string>, before: seq<string>, v: string) {
    forall x :: x != v ==> multiset(s)[x] == multiset(before)[x]
  }

  /** `s` with its last entry moved into position `i`. */
  function FillGap(s: seq<string>, i: nat): seq<string>
    requires i < |s|
  {
    s[i := s[|s| - 1]][..|s| - 1]
  }

  lemma FillGapDropsOne(s: seq<string>, i: nat)
    requires i < |s|
    ensures multiset(FillGap(s, i)) == multiset(s) - multiset{s[i]}
  {
    var n := |s| - 1;
    if i == n {
      assert s == s[..n] + [s[n]];
      assert FillGap(s, i) == s[..n];
    } else {
      assert s == s[..i] + [s[i]] + s[i + 1..n] + [s[n]];
      assert FillGap(s, i) == s[..i] + [s[n]] + s[i + 1..n];
      RegroupParts(s[..i], s[i], s[i + 1..n], s[n]);
    }
  }

  lemma RegroupParts(a: seq<string>, x: string, m: seq<string>, last: string)
    ensures multiset(a + [last] + m) == multiset(a + [x] + m + [last]) - multiset{x}
  {
    assert multiset(a + [last] + m) == multiset(a) + multiset{last} + multiset(m);
    assert multiset(a + [x] + m + [last]) == multiset(a) + multiset{x} + multiset(m) + multiset{last};
  }

  /** Deletes all and only the entries equal to `v`, filling each gap with the last entry. */
  method SetRemove(vars: VarList?, v: string)
    modifies vars
    ensures vars != null ==> v !in vars.items && SameExcept(vars.items, old(vars.items), v)
  {
    if vars == null {
      return;
    }
    var i := 0;
    while i < |vars.items|
      invariant 0 <= i <= |vars.items|
      invariant forall j :: 0 <= j < i ==> vars.items[j] != v
      invariant SameExcept(vars.items, old(vars.items), v)
      decreases |vars.items| - i
    {
      if vars.items[i] == v {
        FillGapDropsOne(vars.items, i);
        var last := |vars.items| - 1;
        ghost var s := vars.items;
        vars.items := vars.items[i := vars.items[last]];
        vars.items := vars.items[..last];
        assert vars.items == FillGap(s, i);
      } else {
        i := i + 1;
      }
    }
  }

  /** `now` is `before` without the variables in `used`. */
  ghost predicate Without(now: seq<string>, before: seq<string>, used: set<string>) {
    forall x :: x in now <==> x in before && x !in used
  }

  lemma SameExceptMembers(s: seq<string>, before: seq<string>, v: string)
    requires v !in s && SameExcept(s, before, v)
    ensures Without(s, before, {v})
  {
    forall x ensures x in s <==> x in before && x !in {v} {
      assert x in s <==> multiset(s)[x] > 0;
      assert x in before <==> multiset(before)[x] > 0;
    }
  }

  lemma TermsVarsStep(ts: seq<Term>, i: nat)
    requires i < |ts|
    ensures TermsVars(ts[..i + 1]) == TermsVars(ts[..i]) + TermVars(ts[i])
  {
    var u, w := ts[..i + 1], ts[..i];
    forall x ensures x in TermsVars(u) <==> x in TermsVars(w) || x in TermVars(ts[i]) {
      if x in TermsVars(u) {
        var j :| 0 <= j < |u| && x in TermVars(u[j]);
        assert j < i ==> w[j] == u[j];
      }
      if x in TermsVars(w) {
        var j :| 0 <= j < |w| && x in TermVars(w[j]);
        assert u[j] == w[j];
      }
      if x in TermVars(ts[i]) {
        assert u[i] == ts[i];
      }
    }
  }

  lemma ExtVarsStep(es: seq<PrinExt>, i: nat)
    requires i < |es|
    ensures ExtVars(es[..i + 1]) == ExtVars(es[..i]) + TermsVars(es[i].args)
  {
    var u, w := es[..i + 1], es[..i];
    forall x ensures x in ExtVars(u) <==> x in ExtVars(w) || x in TermsVars(es[i].args) {
      if x in ExtVars(u) {
        var j :| 0 <= j < |u| && x in TermsVars(u[j].args);
        assert j < i ==> w[j] == u[j];
      }
      if x in ExtVars(w) {
        var j :| 0 <= j < |w| && x in TermsVars(w[j].args);
        assert u[j] == w[j];
      }
      if x in TermsVars(es[i].args) {
        assert u[i] == es[i];
      }
    }
  }

  method CheckOneTerm(vars: seq<string>, unused: VarList?, t: Term) returns (ok: bool)
    modifies unused
    ensures ok <==> forall x :: x in TermVars(t) ==> x in vars
    ensures ok && unused != null ==> Without(unused.items, old(unused.items), TermVars(t))
    decreases t
  {
    match t {
      case Var(n) =>
        ok := n in vars;
        if ok {
          SetRemove(unused, n);
          if unused != null {
            SameExceptMembers(unused.items, old(unused.items), n);
          }
        }
      case PrinTerm(p) =>
        ok := CheckOneTerm(vars, unused, p.keyHash);
        if ok {
          ok := CheckExtensions(vars, unused, p.ext);
        }
      case _ =>
        ok := true;
    }
  }

  method CheckExtensions(vars: seq<string>, unused: VarList?, es: seq<PrinExt>) returns (ok: bool)
    modifies unused
    ensures ok <==> forall x :: x in ExtVars(es) ==> x in vars
    ensures ok && unused != null ==> Without(unused.items, old(unused.items), ExtVars(es))
    decreases es
  {
    for i := 0 to |es|
      invariant forall x :: x in ExtVars(es[..i]) ==> x in vars
      invariant unused != null ==> Without(unused.items, old(unused.items), ExtVars(es[..i]))
    {
      ok := CheckTermVarUsage(vars, unused, es[i].args);
      ExtVarsStep(es, i);
      if !ok {
        return;
      }
    }
    assert es[..|es|] == es;
    ok := true;
  }

  /** Accepts exactly the terms whose variables are all quantified, and marks those variables as used. */
  method CheckTermVarUsage(vars: seq<string>, unused: VarList?, ts: seq<Term>) returns (ok: bool)
    modifies unused
    ensures ok <==> forall x :: x in TermsVars(ts) ==> x in vars
    ensures ok && unused != null ==> Without(unused.items, old(unused.items), TermsVars(ts))
    decreases ts
  {
    for i := 0 to |ts|
      invariant forall x :: x in TermsVars(ts[..i]) ==> x in vars
      invariant unused != null ==> Without(unused.items, old(unused.items), TermsVars(ts[..i]))
    {
      ok := CheckOneTerm(vars, unused, ts[i]);
      TermsVarsStep(ts, i);
      if !ok {
        return;
      }
    }
    assert ts[..|ts|] == ts;
    ok := true;
  }

  // ----- stripping and flattening

  /** Removes the quantifier prefix, collecting each variable once, outermost first. */
  function StripQuantifiers(f: Form, vars: seq<string>): (r: (Form, seq<string>))
    ensures !r.0.Forall?
  {
    if f.Forall? then StripQuantifiers(f.body, if f.v in vars then vars else vars + [f.v]) else (f, vars)
  }

  function FlattenConjuncts(fs: seq<Form>): seq<Form> {
    if fs == [] then []
    else (if fs[0].And? then FlattenConjuncts(fs[0].conjuncts) else [fs[0]]) + FlattenConjuncts(fs[1..])
  }

  function StripConditions(f: Form): (seq<Form>, Form) {
    if f.Implies? then (FlattenConjuncts([f.antecedent]), f.consequent)
    else ([], f)
  }

  // ----- translation

  function TranslateArg(t: Term): Arg {
    if t.Var? then DVar(t.name) else DConst(t)
  }

  function TranslateArgs(ts: seq<Term>): seq<Arg> {
    seq(|ts|, i requires 0 <= i < |ts| => TranslateArg(ts[i]))
  }

  function AtomOf(speaker: string, pred: string, args: seq<Arg>): Atom {
    if pred == "Subprin" then SubprinAtom(args) else SaysAtom(speaker, pred, args)
  }

  /** The variables a statement uses, as far as the usage check looks. */
  function StatementVars(f: Form): set<string> {
    if f.Pred? then TermsVars(f.args) else if f.Says? then TermVars(f.speaker) else {}
  }

  function StatementsVars(fs: seq<Form>): set<string> {
    set i, x | 0 <= i < |fs| && x in StatementVars(fs[i]) :: x
  }

  predicate AllIn(used: set<string>, vars: seq<string>) {
    forall x :: x in used ==> x in vars
  }

  function TranslateStatement(speaker: string, vars: seq<string>, f: Form): Result<Atom, RuleError> {
    if !AllIn(StatementVars(f), vars) then Err(IllegalVariable)
    else if !f.Pred? then Err(Unsupported)
    else Ok(AtomOf(speaker, f.name, TranslateArgs(f.args)))
  }

  function TranslateAll(speaker: string, vars: seq<string>, fs: seq<Form>): (r: Result<seq<Atom>, RuleError>)
    ensures r.Ok? ==> |r.value| == |fs|
  {
    if fs == [] then Ok([])
    else
      var k := |fs| - 1;
      match TranslateAll(speaker, vars, fs[..k])
      case Err(e) => Err(e)
      case Ok(atoms) =>
        match TranslateStatement(speaker, vars, fs[k])
        case Err(e) => Err(e)
        case Ok(a) => Ok(atoms + [a])
  }

  predicate UpperCase(v: string) {
    |v| > 0 && 'A' <= v[0] <= 'Z'
  }

  function Translate(speaker: string, f: Form): Result<Clause, RuleError> {
    var (matrix, vars) := StripQuantifiers(f, []);
    var (conditions, consequent) := StripConditions(matrix);
    if exists i :: 0 <= i < |vars| && !UpperCase(vars[i]) then Err(IllegalQuantifier)
    else
      match TranslateAll(speaker, vars, conditions)
      case Err(e) => Err(e)
      case Ok(body) =>
        if exists i :: 0 <= i < |vars| && vars[i] !in StatementsVars(conditions) then Err(UnsafeVariables)
        else
          match TranslateStatement(speaker, vars, consequent)
          case Err(e) => Err(e)
          case Ok(head) => Ok(Clause(head, body))
  }

  // ----- the translation as the guard runs it, marking used variables in place

  method StmtToDatalog(speaker: string, f: Form, vars: seq<string>, unused: VarList?)
    returns (r: Result<Atom, RuleError>)
    modifies unused
    ensures r == TranslateStatement(speaker, vars, f)
    ensures r.Ok? && unused != null ==> Without(unused.items, old(unused.items), StatementVars(f))
  {
    if f.Says? {
      var ok := CheckOneTerm(vars, unused, f.speaker);
      return Err(if ok then Unsupported else IllegalVariable);
    }
    if !f.Pred? {
      return Err(Unsupported);
    }
    var ok := CheckTermVarUsage(vars, unused, f.args);
    if !ok {
      return Err(IllegalVariable);
    }
    var args: seq<Arg> := [];
    for i := 0 to |f.args|
      invariant args == TranslateArgs(f.args)[..i]
    {
      args := args + [TranslateArg(f.args[i])];
    }
    assert args == TranslateArgs(f.args);
    r := Ok(AtomOf(speaker, f.name, args));
  }

  lemma StatementsVarsStep(fs: seq<Form>, i: nat)
    requires i < |fs|
    ensures StatementsVars(fs[..i + 1]) == StatementsVars(fs[..i]) + StatementVars(fs[i])
  {
    var u, w := fs[..i + 1], fs[..i];
    assert u == w + [fs[i]];
    assert forall j :: 0 <= j < |w| ==> u[j] == w[j];
  }

  /**
   Translates the conditions of a rule.  On success `unused` holds exactly the
   quantified variables that occur in no condition.
   */
  method ConditionsToDatalog(speaker: string, conditions: seq<Form>, vars: seq<string>)
    returns (r: Result<seq<Atom>, RuleError>, unused: seq<string>)
    ensures r == TranslateAll(speaker, vars, conditions)
    ensures r.Ok? ==> Without(unused, vars, StatementsVars(conditions))
  {
    var body: seq<Atom> := [];
    var unusedVars := new VarList(vars);
    for i := 0 to |conditions|
      invariant TranslateAll(speaker, vars, conditions[..i]) == Ok(body)
      invariant Without(unusedVars.items, vars, StatementsVars(conditions[..i]))
    {
      var atom := StmtToDatalog(speaker, conditions[i], vars, unusedVars);
      assert conditions[..i + 1][..i] == conditions[..i];
      StatementsVarsStep(conditions, i);
      if atom.Err? {
        TranslateAllFailsEarly(speaker, vars, conditions, i + 1);
        return Err(atom.error), unusedVars.items;
      }
      body := body + [atom.value];
    }
    assert conditions[..|conditions|] == conditions;
    return Ok(body), unusedVars.items;
  }

  method FormToDatalogRule(speaker: string, f: Form) returns (r: Result<Clause, RuleError>)
    ensures r == Translate(speaker, f)
  {
    var (matrix, vars) := StripQuantifiers(f, []);
    var (conditions, consequent) := StripConditions(matrix);
    for i := 0 to |vars|
      invariant forall j :: 0 <= j < i ==> UpperCase(vars[j])
    {
      if !UpperCase(vars[i]) {
        return Err(IllegalQuantifier);
      }
    }
    var body, unused := ConditionsToDatalog(speaker, conditions, vars);
    if body.Err? {
      return Err(body.error);
    }
    if |unused| > 0 {
      assert unused[0] in unused;
      return Err(UnsafeVariables);
    }
    assert forall i :: 0 <= i < |vars| ==> vars[i] in StatementsVars(conditions);
    var goal := StmtToDatalog(speaker, consequent, vars, null);
    if goal.Err? {
      return Err(goal.error);
    }
    r := Ok(Clause(goal.value, body.value));
  }

  lemma {:induction false} TranslateAllFailsEarly(speaker: string, vars: seq<string>, fs: seq<Form>, k: nat)
    requires k <= |fs| && TranslateAll(speaker, vars, fs[..k]).Err?
    ensures TranslateAll(speaker, vars, fs) == TranslateAll(speaker, vars, fs[..k])
  {
    if k == |fs| {
      assert fs[..k] == fs;
    } else {
      var n := |fs| - 1;
      assert fs[..n][..k] == fs[..k];
      TranslateAllFailsEarly(speaker, vars, fs[..n], k);
    }
  }
}
