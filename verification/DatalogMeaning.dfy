/**
 What policy formulas and Horn clauses mean, and the proof that translating one
 into the other keeps the meaning.
 */
module DatalogMeaning {
  import opened Wrappers
  import opened Auth
  import opened DatalogTranslation
  import opened Substitution

  /**
   Who says which predicate of which terms, and which terms the custom predicate
   relates; modal formulas are outside datalog and stay uninterpreted.
   */
  datatype Model = Model(
    says: (string, string, seq<Term>) -> bool,
    subprin: seq<Term> -> bool,
    modal: (Form, Env) -> bool)

  // ----- the meaning of formulas

  /** Truth of a formula in the world of one speaker; quantifiers range over closed terms. */
  ghost predicate Holds(m: Model, speaker: string, f: Form, env: Env) {
    match f
    case Pred(name, args) =>
      if name == "Subprin" then m.subprin(SubstAll(args, env)) else m.says(speaker, name, SubstAll(args, env))
    case Const(b) => b
    case Not(g) => !Holds(m, speaker, g, env)
    case And(gs) => forall i :: 0 <= i < |gs| ==> Holds(m, speaker, gs[i], env)
    case Or(gs) => exists i :: 0 <= i < |gs| && Holds(m, speaker, gs[i], env)
    case Implies(g, h) => Holds(m, speaker, g, env) ==> Holds(m, speaker, h, env)
    case Speaksfor(_, _) => m.modal(f, env)
    case Says(_, _, _, _) => m.modal(f, env)
    case Forall(v, g) => forall t :: ClosedTerm(t) ==> Holds(m, speaker, g, env[v := t])
    case Exists(v, g) => exists t :: ClosedTerm(t) && Holds(m, speaker, g, env[v := t])
  }

  // ----- the meaning of clauses

  function ArgVars(args: seq<Arg>): set<string> {
    set i | 0 <= i < |args| && args[i].DVar? :: args[i].name
  }

  function BodyVars(body: seq<Atom>): set<string> {
    set i, x | 0 <= i < |body| && x in ArgVars(body[i].args) :: x
  }

  function ClauseVars(cl: Clause): set<string> {
    ArgVars(cl.head.args) + BodyVars(cl.body)
  }

  function InstantiateArg(a: Arg, env: Env): Arg {
    if a.DVar? && a.name in env then DConst(env[a.name]) else a
  }

  function Instantiate(a: Atom, env: Env): Atom {
    a.(args := seq(|a.args|, i requires 0 <= i < |a.args| => InstantiateArg(a.args[i], env)))
  }

  function ArgTerms(args: seq<Arg>): (ts: seq<Term>)
    ensures |ts| == |args|
  {
    seq(|args|, i requires 0 <= i < |args| => if args[i].DConst? then args[i].term else Var(args[i].name))
  }

  /** Truth of a ground atom. */
  predicate AtomHolds(m: Model, a: Atom) {
    match a
    case SaysAtom(speaker, pred, args) => m.says(speaker, pred, ArgTerms(args))
    case SubprinAtom(args) => m.subprin(ArgTerms(args))
  }

  ghost predicate AtomsHold(m: Model, atoms: seq<Atom>, env: Env) {
    forall i :: 0 <= i < |atoms| ==> AtomHolds(m, Instantiate(atoms[i], env))
  }

  /** An assignment of closed terms to exactly the given variables. */
  ghost predicate Assigns(env: Env, vars: set<string>) {
    env.Keys == vars && ClosedEnv(env)
  }

  /** Whenever all of an instance's body holds, so does its head. */
  ghost predicate ClosedUnder(m: Model, cl: Clause) {
    forall env :: Assigns(env, ClauseVars(cl)) ==>
      AtomsHold(m, cl.body, env) ==> AtomHolds(m, Instantiate(cl.head, env))
  }

  // ----- statements in which the given variables appear only as whole arguments

  predicate PlainTerms(ts: seq<Term>, vs: set<string>) {
    forall i :: 0 <= i < |ts| ==> ts[i].Var? || !Mentions(ts[i], vs)
  }

  predicate PlainStatement(g: Form, vs: set<string>) {
    g.Pred? ==> PlainTerms(g.args, vs)
  }

  predicate PlainStatements(fs: seq<Form>, vs: set<string>) {
    forall i :: 0 <= i < |fs| ==> PlainStatement(fs[i], vs)
  }

  // ----- quantifier prefixes

  function PrefixVars(f: Form): set<string> {
    if f.Forall? then {f.v} + PrefixVars(f.body) else {}
  }

  function Matrix(f: Form): Form {
    if f.Forall? then Matrix(f.body) else f
  }

  lemma {:induction false} StripQuantifiersSplits(f: Form, vars: seq<string>)
    ensures var (g, ws) := StripQuantifiers(f, vars);
            g == Matrix(f) && forall x :: x in ws <==> x in vars || x in PrefixVars(f)
  {
    if f.Forall? {
      StripQuantifiersSplits(f.body, if f.v in vars then vars else vars + [f.v]);
    }
  }

  /** `wide` differs from `env` only in giving the variables of `vars` some closed terms. */
  ghost predicate Reassigns(wide: Env, env: Env, vars: set<string>) {
    && wide.Keys == env.Keys + vars
    && (forall x :: x in vars ==> ClosedTerm(wide[x]))
    && (forall x :: x in env && x !in vars ==> wide[x] == env[x])
  }

  /** `f` holds however the variables of `vars` are assigned. */
  ghost predicate HoldsForAll(m: Model, speaker: string, vars: set<string>, f: Form, env: Env) {
    forall wide :: Reassigns(wide, env, vars) ==> Holds(m, speaker, f, wide)
  }

  lemma NothingToReassign(m: Model, speaker: string, f: Form, env: Env)
    ensures HoldsForAll(m, speaker, {}, f, env) <==> Holds(m, speaker, f, env)
  {
    assert Reassigns(env, env, {});
    forall wide | Reassigns(wide, env, {}) ensures wide == env {
      assert wide.Keys == env.Keys;
    }
  }

  /**
   A quantified formula holds iff its matrix holds however the bound variables are
   assigned, repeated ones included.
   */
  lemma {:induction false} PrefixMeaning(m: Model, speaker: string, f: Form, env: Env)
    ensures Holds(m, speaker, f, env) <==> HoldsForAll(m, speaker, PrefixVars(f), Matrix(f), env)
  {
    if !f.Forall? {
      NothingToReassign(m, speaker, f, env);
    } else if Holds(m, speaker, f, env) {
      forall wide | Reassigns(wide, env, PrefixVars(f))
        ensures Holds(m, speaker, Matrix(f), wide)
      {
        var env' := env[f.v := wide[f.v]];
        assert f.v in PrefixVars(f);
        assert Holds(m, speaker, f.body, env');
        PrefixMeaning(m, speaker, f.body, env');
        assert Reassigns(wide, env', PrefixVars(f.body));
      }
    } else {
      var t :| ClosedTerm(t) && !Holds(m, speaker, f.body, env[f.v := t]);
      var env' := env[f.v := t];
      PrefixMeaning(m, speaker, f.body, env');
      var wide :| Reassigns(wide, env', PrefixVars(f.body)) && !Holds(m, speaker, Matrix(f.body), wide);
      assert Reassigns(wide, env, PrefixVars(f));
    }
  }

  // ----- conjunctions

  ghost predicate AllHold(m: Model, speaker: string, fs: seq<Form>, env: Env) {
    forall i :: 0 <= i < |fs| ==> Holds(m, speaker, fs[i], env)
  }

  lemma AllHoldAppend(m: Model, speaker: string, fs: seq<Form>, gs: seq<Form>, env: Env)
    ensures AllHold(m, speaker, fs + gs, env) <==> AllHold(m, speaker, fs, env) && AllHold(m, speaker, gs, env)
  {
    var hs := fs + gs;
    assert forall i :: 0 <= i < |fs| ==> hs[i] == fs[i];
    assert forall i :: 0 <= i < |gs| ==> hs[|fs| + i] == gs[i];
  }

  /** Flattening nested conjunctions, empty ones included, keeps their meaning. */
  lemma {:induction false} FlattenMeaning(m: Model, speaker: string, fs: seq<Form>, env: Env)
    ensures AllHold(m, speaker, FlattenConjuncts(fs), env) <==> AllHold(m, speaker, fs, env)
    decreases fs
  {
    if fs != [] {
      var first := if fs[0].And? then FlattenConjuncts(fs[0].conjuncts) else [fs[0]];
      FlattenMeaning(m, speaker, fs[1..], env);
      AllHoldAppend(m, speaker, first, FlattenConjuncts(fs[1..]), env);
      AllHoldAppend(m, speaker, [fs[0]], fs[1..], env);
      assert fs == [fs[0]] + fs[1..];
      if fs[0].And? {
        FlattenMeaning(m, speaker, fs[0].conjuncts, env);
        assert AllHold(m, speaker, [fs[0]], env) <==> AllHold(m, speaker, fs[0].conjuncts, env);
      }
    }
  }

  lemma ConditionsMeaning(m: Model, speaker: string, f: Form, env: Env)
    ensures var (conds, goal) := StripConditions(f);
            Holds(m, speaker, f, env) <==> (AllHold(m, speaker, conds, env) ==> Holds(m, speaker, goal, env))
  {
    if f.Implies? {
      FlattenMeaning(m, speaker, [f.antecedent], env);
      assert AllHold(m, speaker, [f.antecedent], env) <==> Holds(m, speaker, f.antecedent, env);
    }
  }

  // ----- single statements

  /** In plain terms the usage check and the translation see the same variables. */
  lemma PlainVars(ts: seq<Term>, vs: set<string>)
    requires PlainTerms(ts, vs) && TermsVars(ts) <= vs
    ensures TermsVars(ts) == ArgVars(TranslateArgs(ts))
  {
    var args := TranslateArgs(ts);
    forall x ensures x in TermsVars(ts) <==> x in ArgVars(args) {
      if x in TermsVars(ts) {
        var i :| 0 <= i < |ts| && x in TermVars(ts[i]);
        if !ts[i].Var? {
          UnmentionedHasNoVars(ts[i], vs);
        }
        assert args[i] == DVar(x);
      }
      if x in ArgVars(args) {
        var i :| 0 <= i < |args| && args[i].DVar? && args[i].name == x;
        assert x in TermVars(ts[i]);
      }
    }
  }

  lemma {:induction false} UnmentionedHasNoVars(t: Term, vs: set<string>)
    requires !Mentions(t, vs)
    ensures TermVars(t) !! vs
    decreases t
  {
    if t.PrinTerm? {
      UnmentionedHasNoVars(t.prin.keyHash, vs);
      UnmentionedExtsHaveNoVars(t.prin.ext, vs);
    }
  }

  lemma {:induction false} UnmentionedExtsHaveNoVars(es: seq<PrinExt>, vs: set<string>)
    requires !ExtsMention(es, vs)
    ensures ExtVars(es) !! vs
    decreases es
  {
    forall i | 0 <= i < |es| ensures TermsVars(es[i].args) !! vs {
      UnmentionedTermsHaveNoVars(es[i].args, vs);
    }
  }

  lemma {:induction false} UnmentionedTermsHaveNoVars(ts: seq<Term>, vs: set<string>)
    requires !TermsMention(ts, vs)
    ensures TermsVars(ts) !! vs
    decreases ts
  {
    forall i | 0 <= i < |ts| ensures TermVars(ts[i]) !! vs {
      UnmentionedHasNoVars(ts[i], vs);
    }
  }

  /** A translated statement holds in an instance iff the formula holds under the same assignment. */
  lemma StatementMeaning(m: Model, speaker: string, vars: seq<string>, f: Form, env: Env)
    requires TranslateStatement(speaker, vars, f).Ok? && PlainStatement(f, env.Keys)
    requires forall x :: x in vars ==> x in env
    ensures Holds(m, speaker, f, env) <==> AtomHolds(m, Instantiate(TranslateStatement(speaker, vars, f).value, env))
    ensures ArgVars(TranslateStatement(speaker, vars, f).value.args) == StatementVars(f)
  {
    PlainVars(f.args, env.Keys);
    var atom := TranslateStatement(speaker, vars, f).value;
    var inst := Instantiate(atom, env).args;
    var terms := SubstAll(f.args, env);
    forall i | 0 <= i < |f.args| ensures ArgTerms(inst)[i] == terms[i] {
      assert atom.args[i] == TranslateArg(f.args[i]);
      assert terms[i] == Subst(f.args[i], env);
      if f.args[i].Var? {
        assert f.args[i].name in TermVars(f.args[i]);
        assert f.args[i].name in TermsVars(f.args);
      } else {
        SubstIgnores(f.args[i], env);
      }
    }
    assert ArgTerms(inst) == terms;
  }

  lemma {:induction false} StatementsMeaning(m: Model, speaker: string, vars: seq<string>, fs: seq<Form>, env: Env)
    requires TranslateAll(speaker, vars, fs).Ok? && PlainStatements(fs, env.Keys)
    requires forall x :: x in vars ==> x in env
    ensures AllHold(m, speaker, fs, env) <==> AtomsHold(m, TranslateAll(speaker, vars, fs).value, env)
  {
    forall i | 0 <= i < |fs|
      ensures Holds(m, speaker, fs[i], env) <==>
                AtomHolds(m, Instantiate(TranslateAll(speaker, vars, fs).value[i], env))
    {
      TranslateAllAt(speaker, vars, fs, i);
      StatementMeaning(m, speaker, vars, fs[i], env);
    }
  }

  lemma {:induction false} TranslateAllAt(speaker: string, vars: seq<string>, fs: seq<Form>, i: nat)
    requires TranslateAll(speaker, vars, fs).Ok? && i < |fs|
    ensures TranslateStatement(speaker, vars, fs[i]) == Ok(TranslateAll(speaker, vars, fs).value[i])
  {
    if i < |fs| - 1 {
      TranslateAllAt(speaker, vars, fs[..|fs| - 1], i);
    }
  }

  // ----- whole rules

  /** The pieces of an accepted rule. */
  lemma AcceptedPieces(speaker: string, f: Form)
    requires Translate(speaker, f).Ok?
    ensures var cl := Translate(speaker, f).value;
            var vars := StripQuantifiers(f, []).1;
            var (conds, goal) := StripConditions(Matrix(f));
            && TranslateAll(speaker, vars, conds) == Ok(cl.body)
            && TranslateStatement(speaker, vars, goal) == Ok(cl.head)
            && (forall x :: x in vars <==> x in PrefixVars(f))
            && (forall x :: x in vars ==> x in StatementsVars(conds))
  {
    StripQuantifiersSplits(f, []);
  }

  lemma BodyVarsOf(speaker: string, vars: seq<string>, fs: seq<Form>, vs: set<string>)
    requires TranslateAll(speaker, vars, fs).Ok? && PlainStatements(fs, vs)
    requires forall x :: x in vars ==> x in vs
    ensures BodyVars(TranslateAll(speaker, vars, fs).value) == StatementsVars(fs)
    ensures forall x :: x in StatementsVars(fs) ==> x in vars
  {
    var body := TranslateAll(speaker, vars, fs).value;
    forall i | 0 <= i < |fs|
      ensures ArgVars(body[i].args) == StatementVars(fs[i]) && AllIn(StatementVars(fs[i]), vars)
    {
      TranslateAllAt(speaker, vars, fs, i);
      PlainVars(fs[i].args, vs);
    }
  }

  // ----- which formulas are accepted

  /** The formula is one of the conjuncts under a nest of conjunctions. */
  ghost predicate IsConjunct(g: Form, f: Form) {
    if f.And? then exists i :: 0 <= i < |f.conjuncts| && IsConjunct(g, f.conjuncts[i]) else g == f
  }

  /** A predicate all of whose variables are bound by the prefix of the rule. */
  predicate GoodStatement(g: Form, bound: set<string>) {
    g.Pred? && TermsVars(g.args) <= bound
  }

  function Goal(f: Form): Form {
    if Matrix(f).Implies? then Matrix(f).consequent else Matrix(f)
  }

  ghost predicate IsCondition(g: Form, f: Form) {
    Matrix(f).Implies? && IsConjunct(g, Matrix(f).antecedent)
  }

  ghost predicate UsedByCondition(x: string, f: Form) {
    exists g :: IsCondition(g, f) && g.Pred? && x in TermsVars(g.args)
  }

  /**
   The rules the guard supports: upper-case variables, predicates only, no variable
   that is not bound, and every bound variable used by some condition.
   */
  ghost predicate Supported(f: Form) {
    && (forall x :: x in PrefixVars(f) ==> |x| > 0 && 'A' <= x[0] <= 'Z')
    && GoodStatement(Goal(f), PrefixVars(f))
    && (forall g :: IsCondition(g, f) ==> GoodStatement(g, PrefixVars(f)))
    && (forall x :: x in PrefixVars(f) ==> UsedByCondition(x, f))
  }

  lemma {:induction false} FlattenedAreConjuncts(fs: seq<Form>, g: Form)
    ensures g in FlattenConjuncts(fs) <==> exists i :: 0 <= i < |fs| && IsConjunct(g, fs[i])
    decreases fs
  {
    if fs != [] {
      FlattenedAreConjuncts(fs[1..], g);
      if fs[0].And? {
        FlattenedAreConjuncts(fs[0].conjuncts, g);
      }
      assert forall i :: 0 <= i < |fs[1..]| ==> fs[1..][i] == fs[i + 1];
      assert IsConjunct(g, fs[0]) <==> g in (if fs[0].And? then FlattenConjuncts(fs[0].conjuncts) else [fs[0]]);
    }
  }

  lemma ConditionsAreFlattened(f: Form, g: Form)
    ensures g in StripConditions(Matrix(f)).0 <==> IsCondition(g, f)
    ensures StripConditions(Matrix(f)).1 == Goal(f)
  {
    if Matrix(f).Implies? {
      var a := Matrix(f).antecedent;
      FlattenedAreConjuncts([a], g);
      assert (exists i :: 0 <= i < |[a]| && IsConjunct(g, [a][i])) <==> IsConjunct(g, a);
    }
  }

  lemma {:induction false} TranslateAllAccepts(speaker: string, vars: seq<string>, fs: seq<Form>)
    ensures TranslateAll(speaker, vars, fs).Ok? <==>
              forall i :: 0 <= i < |fs| ==> fs[i].Pred? && AllIn(TermsVars(fs[i].args), vars)
  {
    if fs != [] {
      TranslateAllAccepts(speaker, vars, fs[..|fs| - 1]);
    }
  }

  /** Exactly the supported rules are accepted. */
  lemma TranslateAcceptsSupportedRules(speaker: string, f: Form)
    ensures Translate(speaker, f).Ok? <==> Supported(f)
  {
    StripQuantifiersSplits(f, []);
    var vars, conds := StripQuantifiers(f, []).1, StripConditions(Matrix(f)).0;
    forall g ensures g in conds <==> IsCondition(g, f) {
      ConditionsAreFlattened(f, g);
    }
    SupportedByLists(f, vars, conds);
    TranslateAcceptsLists(speaker, f);
  }

  lemma TranslateAcceptsLists(speaker: string, f: Form)
    ensures var vars, conds := StripQuantifiers(f, []).1, StripConditions(Matrix(f)).0;
            Translate(speaker, f).Ok? <==> ListsSupported(vars, conds, Goal(f))
  {
    StripQuantifiersSplits(f, []);
    var (conds, goal) := StripConditions(Matrix(f));
    TranslateAllAccepts(speaker, StripQuantifiers(f, []).1, conds);
    ConditionsAreFlattened(f, goal);
  }

  /** The same requirements, over the lists that the translation works with. */
  predicate ListsSupported(vars: seq<string>, conds: seq<Form>, goal: Form) {
    && (forall i :: 0 <= i < |vars| ==> UpperCase(vars[i]))
    && goal.Pred? && AllIn(TermsVars(goal.args), vars)
    && (forall i :: 0 <= i < |conds| ==> conds[i].Pred? && AllIn(TermsVars(conds[i].args), vars))
    && (forall i :: 0 <= i < |vars| ==> vars[i] in StatementsVars(conds))
  }

  lemma SupportedByLists(f: Form, vars: seq<string>, conds: seq<Form>)
    requires forall x :: x in vars <==> x in PrefixVars(f)
    requires forall g :: g in conds <==> IsCondition(g, f)
    ensures Supported(f) <==> ListsSupported(vars, conds, Goal(f))
  {
    if Supported(f) {
      forall i | 0 <= i < |vars| ensures vars[i] in StatementsVars(conds) {
        assert UsedByCondition(vars[i], f);
        var g :| IsCondition(g, f) && g.Pred? && vars[i] in TermsVars(g.args);
        var j :| 0 <= j < |conds| && conds[j] == g;
        assert vars[i] in StatementVars(conds[j]);
      }
      forall i | 0 <= i < |conds| ensures GoodStatement(conds[i], PrefixVars(f)) {
        assert IsCondition(conds[i], f);
      }
    }
    if ListsSupported(vars, conds, Goal(f)) {
      forall x | x in PrefixVars(f) ensures UpperCase(x) && UsedByCondition(x, f) {
        var i :| 0 <= i < |vars| && vars[i] == x;
        var j :| 0 <= j < |conds| && x in StatementVars(conds[j]);
        assert IsCondition(conds[j], f);
      }
      forall g | IsCondition(g, f) ensures GoodStatement(g, PrefixVars(f)) {
        var j :| 0 <= j < |conds| && conds[j] == g;
      }
    }
  }

  // ----- the usage check and tails

  /** The term with its tails blanked out. */
  function BlankTails(t: Term): Term
    decreases t
  {
    match t
    case PrinTerm(p) => PrinTerm(Prin(p.typ, BlankTails(p.keyHash), BlankExts(p.ext)))
    case TailTerm(_) => Str("")
    case _ => t
  }

  function BlankExts(es: seq<PrinExt>): (r: seq<PrinExt>)
    ensures |r| == |es|
    decreases es
  {
    seq(|es|, i requires 0 <= i < |es| => PrinExt(es[i].name, BlankAll(es[i].args)))
  }

  function BlankAll(ts: seq<Term>): (r: seq<Term>)
    ensures |r| == |ts|
    decreases ts
  {
    seq(|ts|, i requires 0 <= i < |ts| => BlankTails(ts[i]))
  }

  /** The usage check sees exactly the variables outside tails, at any depth. */
  lemma {:induction false} UsageCheckOverlooksTails(t: Term, x: string)
    ensures x in TermVars(t) <==> Mentions(BlankTails(t), {x})
    decreases t
  {
    if t.PrinTerm? {
      UsageCheckOverlooksTails(t.prin.keyHash, x);
      forall i | 0 <= i < |t.prin.ext|
        ensures x in TermsVars(t.prin.ext[i].args) <==> TermsMention(BlankExts(t.prin.ext)[i].args, {x})
      {
        ArgumentsOverlookTails(t.prin.ext[i].args, x);
      }
    }
  }

  lemma {:induction false} ArgumentsOverlookTails(ts: seq<Term>, x: string)
    ensures x in TermsVars(ts) <==> TermsMention(BlankAll(ts), {x})
    decreases ts
  {
    forall i | 0 <= i < |ts| ensures x in TermVars(ts[i]) <==> Mentions(BlankAll(ts)[i], {x}) {
      UsageCheckOverlooksTails(ts[i], x);
    }
  }

  // ----- why a rule is refused

  /** A statement of the rule, condition or goal. */
  ghost predicate IsStatement(g: Form, f: Form) {
    IsCondition(g, f) || g == Goal(f)
  }

  /** The variable occurs outside tails among the arguments, or in the speaker of a `says`. */
  predicate UsesVariable(g: Form, x: string) {
    if g.Pred? then TermsMention(BlankAll(g.args), {x}) else g.Says? && Mentions(BlankTails(g.speaker), {x})
  }

  /** A statement complains of a variable that is not bound, or is no predicate. */
  lemma StatementComplains(speaker: string, vars: seq<string>, g: Form)
    ensures var r := TranslateStatement(speaker, vars, g);
            && (r == Err(IllegalVariable) ==>
                  exists x :: x !in vars && UsesVariable(g, x))
            && (r == Err(Unsupported) ==> !g.Pred?)
            && (r.Err? ==> r.error.IllegalVariable? || r.error.Unsupported?)
  {
    forall x ensures x in StatementVars(g) <==> UsesVariable(g, x) {
      if g.Pred? {
        ArgumentsOverlookTails(g.args, x);
      } else if g.Says? {
        UsageCheckOverlooksTails(g.speaker, x);
      }
    }
  }

  /** A list of statements fails with the complaint of its first failing statement. */
  lemma {:induction false} FirstComplaint(speaker: string, vars: seq<string>, fs: seq<Form>)
    requires TranslateAll(speaker, vars, fs).Err?
    ensures exists i :: 0 <= i < |fs| && TranslateStatement(speaker, vars, fs[i]).Err? &&
                        TranslateAll(speaker, vars, fs).error == TranslateStatement(speaker, vars, fs[i]).error &&
                        forall j :: 0 <= j < i ==> TranslateStatement(speaker, vars, fs[j]).Ok?
  {
    var k := |fs| - 1;
    if fs != [] && TranslateAll(speaker, vars, fs[..k]).Err? {
      FirstComplaint(speaker, vars, fs[..k]);
      var i :| 0 <= i < k && TranslateStatement(speaker, vars, fs[..k][i]).Err? &&
               TranslateAll(speaker, vars, fs[..k]).error == TranslateStatement(speaker, vars, fs[..k][i]).error &&
               forall j :: 0 <= j < i ==> TranslateStatement(speaker, vars, fs[..k][j]).Ok?;
      assert fs[..k][i] == fs[i];
      assert forall j :: 0 <= j < i ==> fs[..k][j] == fs[j];
    } else {
      forall j | 0 <= j < k ensures TranslateStatement(speaker, vars, fs[j]).Ok? {
        TranslateAllAt(speaker, vars, fs[..k], j);
        assert fs[..k][j] == fs[j];
      }
    }
  }

  /** The variable is quantified but no condition uses it. */
  lemma UnusedByLists(f: Form, vars: seq<string>, conds: seq<Form>)
    requires forall x :: x in vars <==> x in PrefixVars(f)
    requires forall g :: g in conds <==> IsCondition(g, f)
    requires forall i :: 0 <= i < |conds| ==> conds[i].Pred?
    ensures (exists i :: 0 <= i < |vars| && vars[i] !in StatementsVars(conds)) <==>
              exists x :: x in PrefixVars(f) && !UsedByCondition(x, f)
  {
    forall x ensures x in StatementsVars(conds) <==> UsedByCondition(x, f) {
      if x in StatementsVars(conds) {
        var j :| 0 <= j < |conds| && x in StatementVars(conds[j]);
        assert IsCondition(conds[j], f);
      }
      if UsedByCondition(x, f) {
        var g :| IsCondition(g, f) && g.Pred? && x in TermsVars(g.args);
        var j :| 0 <= j < |conds| && conds[j] == g;
        assert x in StatementVars(conds[j]);
      }
    }
    if x :| x in PrefixVars(f) && !UsedByCondition(x, f) {
      var i :| 0 <= i < |vars| && vars[i] == x;
    }
  }

  /** The condition that makes the translation fail, and what is wrong with it. */
  lemma ComplaintOf(speaker: string, vars: seq<string>, conds: seq<Form>) returns (i: nat)
    requires TranslateAll(speaker, vars, conds).Err?
    ensures i < |conds|
    ensures var e := TranslateAll(speaker, vars, conds).error;
            && (e.IllegalVariable? || e.Unsupported?)
            && (e.IllegalVariable? ==> exists x :: x !in vars && UsesVariable(conds[i], x))
            && (e.Unsupported? ==> !conds[i].Pred?)
  {
    FirstComplaint(speaker, vars, conds);
    var k :| 0 <= k < |conds| && TranslateStatement(speaker, vars, conds[k]).Err? &&
             TranslateAll(speaker, vars, conds).error == TranslateStatement(speaker, vars, conds[k]).error;
    StatementComplains(speaker, vars, conds[k]);
    i := k;
  }

  predicate OneOf(g: Form, conds: seq<Form>, goal: Form) {
    g in conds || g == goal
  }

  /** Why a rule is refused, over the lists that the translation works with. */
  lemma RefusedByLists(speaker: string, f: Form)
    ensures var r, vars := Translate(speaker, f), StripQuantifiers(f, []).1;
            var (conds, goal) := StripConditions(StripQuantifiers(f, []).0);
            && (r == Err(IllegalQuantifier) ==> exists i :: 0 <= i < |vars| && !UpperCase(vars[i]))
            && (r == Err(IllegalVariable) ==>
                  exists g, x :: OneOf(g, conds, goal) && x !in vars && UsesVariable(g, x))
            && (r == Err(Unsupported) ==> exists g :: OneOf(g, conds, goal) && !g.Pred?)
            && (r == Err(UnsafeVariables) ==>
                  && TranslateAll(speaker, vars, conds).Ok?
                  && exists i :: 0 <= i < |vars| && vars[i] !in StatementsVars(conds))
  {
    var vars := StripQuantifiers(f, []).1;
    var (conds, goal) := StripConditions(StripQuantifiers(f, []).0);
    StatementComplains(speaker, vars, goal);
    if TranslateAll(speaker, vars, conds).Err? {
      var i := ComplaintOf(speaker, vars, conds);
      assert OneOf(conds[i], conds, goal);
    } else {
      assert OneOf(goal, conds, goal);
    }
  }

  /** Why a rule is refused. */
  lemma RefusalsHaveTheirReason(speaker: string, f: Form)
    ensures var r, bound := Translate(speaker, f), PrefixVars(f);
            && (r == Err(IllegalQuantifier) ==> exists x :: x in bound && !(|x| > 0 && 'A' <= x[0] <= 'Z'))
            && (r == Err(IllegalVariable) ==>
                  exists g, x :: IsStatement(g, f) && x !in bound && UsesVariable(g, x))
            && (r == Err(Unsupported) ==> exists g :: IsStatement(g, f) && !g.Pred?)
            && (r == Err(UnsafeVariables) ==> exists x :: x in bound && !UsedByCondition(x, f))
  {
    RefusedByLists(speaker, f);
    StripQuantifiersSplits(f, []);
    var vars, conds := StripQuantifiers(f, []).1, StripConditions(Matrix(f)).0;
    forall g ensures g in conds <==> IsCondition(g, f) {
      ConditionsAreFlattened(f, g);
    }
    ConditionsAreFlattened(f, Goal(f));
    assert forall g :: OneOf(g, conds, Goal(f)) ==> IsStatement(g, f);
    if Translate(speaker, f) == Err(UnsafeVariables) {
      TranslateAllAccepts(speaker, vars, conds);
      UnusedByLists(f, vars, conds);
    }
  }

  // ----- rules that bury no variable

  /** No variable of the prefix occurs inside a principal or a tail. */
  ghost predicate NothingBuried(f: Form) {
    && PlainStatement(Goal(f), PrefixVars(f))
    && forall g :: IsCondition(g, f) ==> PlainStatement(g, PrefixVars(f))
  }

  lemma PiecesPlain(f: Form)
    requires NothingBuried(f)
    ensures PlainStatements(StripConditions(Matrix(f)).0, PrefixVars(f))
  {
    var conds := StripConditions(Matrix(f)).0;
    forall i | 0 <= i < |conds| ensures PlainStatement(conds[i], PrefixVars(f)) {
      ConditionsAreFlattened(f, conds[i]);
    }
  }

  /** In an accepted rule that buries no variable the body uses exactly the quantified variables. */
  lemma BodyUsesPrefix(speaker: string, f: Form)
    requires Translate(speaker, f).Ok? && NothingBuried(f)
    ensures BodyVars(Translate(speaker, f).value.body) == PrefixVars(f)
    ensures ClauseVars(Translate(speaker, f).value) == PrefixVars(f)
  {
    AcceptedPieces(speaker, f);
    PiecesPlain(f);
    var vars := StripQuantifiers(f, []).1;
    var (conds, goal) := StripConditions(Matrix(f));
    ConditionsAreFlattened(f, goal);
    BodyVarsOf(speaker, vars, conds, PrefixVars(f));
    PlainVars(goal.args, PrefixVars(f));
  }

  lemma InstanceMeaning(m: Model, speaker: string, f: Form, env: Env)
    requires Translate(speaker, f).Ok? && NothingBuried(f)
    requires env.Keys == PrefixVars(f)
    ensures var cl := Translate(speaker, f).value;
            Holds(m, speaker, Matrix(f), env) <==>
              (AtomsHold(m, cl.body, env) ==> AtomHolds(m, Instantiate(cl.head, env)))
  {
    AcceptedPieces(speaker, f);
    PiecesPlain(f);
    var vars := StripQuantifiers(f, []).1;
    var (conds, goal) := StripConditions(Matrix(f));
    ConditionsAreFlattened(f, goal);
    ConditionsMeaning(m, speaker, Matrix(f), env);
    StatementsMeaning(m, speaker, vars, conds, env);
    StatementMeaning(m, speaker, vars, goal, env);
  }

  /** An instance of the clause means what the matrix of the formula means under the same assignment. */
  ghost predicate InstanceAgrees(m: Model, speaker: string, matrix: Form, cl: Clause, env: Env) {
    Holds(m, speaker, matrix, env) <==> (AtomsHold(m, cl.body, env) ==> AtomHolds(m, Instantiate(cl.head, env)))
  }

  lemma FreshAssignment(env: Env, vars: set<string>)
    ensures Assigns(env, vars) <==> Reassigns(env, map[], vars)
  {
  }

  lemma InstancesAgree(m: Model, speaker: string, matrix: Form, cl: Clause)
    requires forall env :: Assigns(env, ClauseVars(cl)) ==> InstanceAgrees(m, speaker, matrix, cl, env)
    ensures HoldsForAll(m, speaker, ClauseVars(cl), matrix, map[]) <==> ClosedUnder(m, cl)
  {
    forall env: Env ensures Assigns(env, ClauseVars(cl)) <==> Reassigns(env, map[], ClauseVars(cl)) {
      FreshAssignment(env, ClauseVars(cl));
    }
    if HoldsForAll(m, speaker, ClauseVars(cl), matrix, map[]) {
      forall env | Assigns(env, ClauseVars(cl)) ensures AtomsHold(m, cl.body, env) ==>
                                                        AtomHolds(m, Instantiate(cl.head, env)) {
        assert InstanceAgrees(m, speaker, matrix, cl, env);
      }
    }
    if ClosedUnder(m, cl) {
      forall env | Reassigns(env, map[], ClauseVars(cl)) ensures Holds(m, speaker, matrix, env) {
        assert InstanceAgrees(m, speaker, matrix, cl, env);
      }
    }
  }

  lemma UnburiedMeaning(m: Model, speaker: string, f: Form)
    requires Translate(speaker, f).Ok? && NothingBuried(f)
    ensures Holds(m, speaker, f, map[]) <==> ClosedUnder(m, Translate(speaker, f).value)
  {
    var cl := Translate(speaker, f).value;
    BodyUsesPrefix(speaker, f);
    PrefixMeaning(m, speaker, f, map[]);
    forall env | Assigns(env, ClauseVars(cl)) ensures InstanceAgrees(m, speaker, Matrix(f), cl, env) {
      InstanceMeaning(m, speaker, f, env);
    }
    InstancesAgree(m, speaker, Matrix(f), cl);
  }
}
