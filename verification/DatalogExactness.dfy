/**
 Exactly when the translation of a policy formula is safe, and exactly when it
 keeps the meaning of the formula.  The usage check counts variables inside
 principals and overlooks those inside tails, but the translation prints both
 kinds of term as constants.
 */
module DatalogExactness {
  import opened Wrappers
  import opened Auth
  import opened Substitution
  import opened DatalogTranslation
  import opened DatalogMeaning

  // ----- safety

  /** The variable is a whole argument of some condition. */
  ghost predicate ArgumentOfCondition(x: string, f: Form) {
    exists g :: IsCondition(g, f) && g.Pred? && Var(x) in g.args
  }

  /** Every variable that is a whole argument of the goal is one of some condition. */
  ghost predicate GoalCovered(f: Form) {
    forall x :: Goal(f).Pred? && Var(x) in Goal(f).args ==> ArgumentOfCondition(x, f)
  }

  lemma ArgVarsAreArguments(ts: seq<Term>, x: string)
    ensures x in ArgVars(TranslateArgs(ts)) <==> Var(x) in ts
  {
    var args := TranslateArgs(ts);
    if x in ArgVars(args) {
      var i :| 0 <= i < |args| && args[i].DVar? && args[i].name == x;
      assert ts[i] == Var(x);
    }
    if Var(x) in ts {
      var i :| 0 <= i < |ts| && ts[i] == Var(x);
      assert args[i] == DVar(x);
    }
  }

  lemma BodyVarsAreArguments(speaker: string, f: Form, x: string)
    requires Translate(speaker, f).Ok?
    ensures x in BodyVars(Translate(speaker, f).value.body) <==> ArgumentOfCondition(x, f)
  {
    AcceptedPieces(speaker, f);
    var body := Translate(speaker, f).value.body;
    var vars, conds := StripQuantifiers(f, []).1, StripConditions(Matrix(f)).0;
    forall i | 0 <= i < |conds|
      ensures IsCondition(conds[i], f) && conds[i].Pred? && (x in ArgVars(body[i].args) <==> Var(x) in conds[i].args)
    {
      TranslateAllAt(speaker, vars, conds, i);
      ConditionsAreFlattened(f, conds[i]);
      ArgVarsAreArguments(conds[i].args, x);
    }
    if ArgumentOfCondition(x, f) {
      var g :| IsCondition(g, f) && g.Pred? && Var(x) in g.args;
      ConditionsAreFlattened(f, g);
      var i :| 0 <= i < |conds| && conds[i] == g;
      assert x in ArgVars(body[i].args);
    }
  }

  /** An accepted rule is safe, its body covering its head, iff the conditions cover the goal. */
  lemma SafetyIsExact(speaker: string, f: Form)
    requires Translate(speaker, f).Ok?
    ensures var cl := Translate(speaker, f).value;
            Goal(f).Pred? && (ArgVars(cl.head.args) <= BodyVars(cl.body) <==> GoalCovered(f))
  {
    AcceptedPieces(speaker, f);
    ConditionsAreFlattened(f, Goal(f));
    var cl := Translate(speaker, f).value;
    forall x
      ensures x in ArgVars(cl.head.args) <==> Var(x) in Goal(f).args
      ensures x in BodyVars(cl.body) <==> ArgumentOfCondition(x, f)
    {
      ArgVarsAreArguments(Goal(f).args, x);
      BodyVarsAreArguments(speaker, f, x);
    }
  }

  // ----- meaning

  /** Formula and clause agree in every model. */
  ghost predicate KeepsMeaning(speaker: string, f: Form)
    requires Translate(speaker, f).Ok?
  {
    forall m :: Holds(m, speaker, f, map[]) <==> ClosedUnder(m, Translate(speaker, f).value)
  }

  /**
   The condition for that: no variable of the prefix is buried in a term, or the goal
   is among the conditions anyway.
   */
  ghost predicate Faithful(f: Form) {
    NothingBuried(f) || IsCondition(Goal(f), f)
  }

  lemma TranslationPreservesMeaning(m: Model, speaker: string, f: Form)
    requires Translate(speaker, f).Ok? && Faithful(f)
    ensures Holds(m, speaker, f, map[]) <==> ClosedUnder(m, Translate(speaker, f).value)
  {
    if NothingBuried(f) {
      UnburiedMeaning(m, speaker, f);
    } else {
      GoalAmongConditions(m, speaker, f);
    }
  }

  /** A rule whose goal is one of its conditions says nothing, and neither does its clause. */
  lemma GoalAmongConditions(m: Model, speaker: string, f: Form)
    requires Translate(speaker, f).Ok? && IsCondition(Goal(f), f)
    ensures Holds(m, speaker, f, map[]) && ClosedUnder(m, Translate(speaker, f).value)
  {
    AcceptedPieces(speaker, f);
    var vars, conds := StripQuantifiers(f, []).1, StripConditions(Matrix(f)).0;
    ConditionsAreFlattened(f, Goal(f));
    var i :| 0 <= i < |conds| && conds[i] == Goal(f);
    TranslateAllAt(speaker, vars, conds, i);
    PrefixMeaning(m, speaker, f, map[]);
    forall env: Env ensures Holds(m, speaker, Matrix(f), env) {
      ConditionsMeaning(m, speaker, Matrix(f), env);
    }
  }

  // ----- the models that tell formula and clause apart

  predicate AllPreds(fs: seq<Form>) {
    forall i :: 0 <= i < |fs| ==> fs[i].Pred?
  }

  /** One of the statements, under the assignment, is this predicate of these terms. */
  predicate IsInstance(name: string, ts: seq<Term>, fs: seq<Form>, env: Env)
    requires AllPreds(fs)
  {
    exists i :: 0 <= i < |fs| && fs[i].name == name && SubstAll(fs[i].args, env) == ts
  }

  /** An instance of a statement or, if so wanted, anything that still mentions one of the variables. */
  predicate Separates(name: string, ts: seq<Term>, fs: seq<Form>, env: Env, withTainted: bool)
    requires AllPreds(fs)
  {
    IsInstance(name, ts, fs, env) || (withTainted && TermsMention(ts, env.Keys))
  }

  /** The model in which exactly that holds. */
  ghost function Separator(speaker: string, fs: seq<Form>, env: Env, withTainted: bool): Model
    requires AllPreds(fs)
  {
    Model((s: string, name: string, ts: seq<Term>) =>
            s == speaker && name != "Subprin" && Separates(name, ts, fs, env, withTainted),
          (ts: seq<Term>) => Separates("Subprin", ts, fs, env, withTainted),
          (f: Form, e: Env) => false)
  }

  lemma SeparatorHolds(speaker: string, fs: seq<Form>, env: Env, withTainted: bool, g: Form, e: Env)
    requires AllPreds(fs) && g.Pred?
    ensures Holds(Separator(speaker, fs, env, withTainted), speaker, g, e) <==>
              Separates(g.name, SubstAll(g.args, e), fs, env, withTainted)
  {
  }

  lemma SeparatorHoldsAtom(speaker: string, fs: seq<Form>, env: Env, withTainted: bool, vars: seq<string>, g: Form,
                           e: Env)
    requires AllPreds(fs) && TranslateStatement(speaker, vars, g).Ok?
    ensures var inst := Instantiate(TranslateStatement(speaker, vars, g).value, e);
            AtomHolds(Separator(speaker, fs, env, withTainted), inst) <==>
              Separates(g.name, ArgTerms(inst.args), fs, env, withTainted)
  {
  }

  /** However a clause is instantiated, a buried variable stays behind in its atom. */
  lemma BuriedStays(speaker: string, vars: seq<string>, g: Form, vs: set<string>, env: Env)
    requires TranslateStatement(speaker, vars, g).Ok? && !PlainStatement(g, vs)
    ensures TermsMention(ArgTerms(Instantiate(TranslateStatement(speaker, vars, g).value, env).args), vs)
  {
    var i :| 0 <= i < |g.args| && !g.args[i].Var? && Mentions(g.args[i], vs);
    var atom := TranslateStatement(speaker, vars, g).value;
    assert atom.args[i] == DConst(g.args[i]);
    assert ArgTerms(Instantiate(atom, env).args)[i] == g.args[i];
  }

  /** A length beyond all strings in the statements. */
  function FormsBound(fs: seq<Form>): nat
    requires AllPreds(fs)
  {
    if fs == [] then 0 else TermsBound(fs[0].args) + FormsBound(fs[1..])
  }

  lemma {:induction false} FormsBoundHolds(fs: seq<Form>, n: nat, i: nat)
    requires AllPreds(fs) && FormsBound(fs) <= n && i < |fs|
    ensures ShortTerms(fs[i].args, n)
  {
    if i == 0 {
      TermsBoundHolds(fs[0].args, n);
    } else {
      FormsBoundHolds(fs[1..], n, i - 1);
    }
  }

  /** In the separating model all conditions hold under the fresh assignment, and the goal does not. */
  lemma SeparatorFalsifies(speaker: string, f: Form, conds: seq<Form>, n: nat, withTainted: bool)
    requires Goal(f).Pred? && StripConditions(Matrix(f)) == (conds, Goal(f)) && AllPreds(conds) && Goal(f) !in conds
    requires FormsBound(conds) + TermsBound(Goal(f).args) <= n
    ensures !Holds(Separator(speaker, conds, FreshEnv(PrefixVars(f), n), withTainted), speaker, f, map[])
  {
    var env := FreshEnv(PrefixVars(f), n);
    var m := Separator(speaker, conds, env, withTainted);
    forall i | 0 <= i < |conds| ensures Holds(m, speaker, conds[i], env) {
      assert IsInstance(conds[i].name, SubstAll(conds[i].args, env), conds, env);
      SeparatorHolds(speaker, conds, env, withTainted, conds[i], env);
    }
    GoalIsNoInstance(Goal(f), conds, PrefixVars(f), n);
    SubstClearsTerms(Goal(f).args, env);
    SeparatorHolds(speaker, conds, env, withTainted, Goal(f), env);
    ConditionsMeaning(m, speaker, Matrix(f), env);
    PrefixMeaning(m, speaker, f, map[]);
    assert Reassigns(env, map[], PrefixVars(f));
  }

  lemma GoalIsNoInstance(goal: Form, fs: seq<Form>, vs: set<string>, n: nat)
    requires goal.Pred? && AllPreds(fs) && goal !in fs && FormsBound(fs) + TermsBound(goal.args) <= n
    ensures !IsInstance(goal.name, SubstAll(goal.args, FreshEnv(vs, n)), fs, FreshEnv(vs, n))
  {
    var env := FreshEnv(vs, n);
    TermsBoundHolds(goal.args, n);
    forall i | 0 <= i < |fs| && fs[i].name == goal.name ensures SubstAll(fs[i].args, env) != SubstAll(goal.args, env) {
      FormsBoundHolds(fs, n, i);
      if SubstAll(fs[i].args, env) == SubstAll(goal.args, env) {
        FreshSubstInjectiveTerms(fs[i].args, goal.args, vs, n);
        assert false;
      }
    }
  }

  /** A clause with a buried variable in its head is satisfied if everything tainted holds. */
  lemma TaintedHeadHolds(m: Model, speaker: string, vars: seq<string>, cl: Clause, goal: Form, fs: seq<Form>, env: Env)
    requires AllPreds(fs) && m == Separator(speaker, fs, env, true)
    requires TranslateStatement(speaker, vars, goal) == Ok(cl.head) && !PlainStatement(goal, env.Keys)
    ensures ClosedUnder(m, cl)
  {
    forall e: Env ensures AtomHolds(m, Instantiate(cl.head, e)) {
      BuriedStays(speaker, vars, goal, env.Keys, e);
      SeparatorHoldsAtom(speaker, fs, env, true, vars, goal, e);
    }
  }

  /** A clause with a buried variable in its body is satisfied if nothing tainted holds. */
  lemma TaintedBodyFails(m: Model, speaker: string, vars: seq<string>, cl: Clause, g: Form, fs: seq<Form>,
                         env: Env, j: nat)
    requires AllPreds(fs) && ClosedEnv(env) && m == Separator(speaker, fs, env, false) && j < |cl.body|
    requires TranslateStatement(speaker, vars, g) == Ok(cl.body[j]) && !PlainStatement(g, env.Keys)
    ensures ClosedUnder(m, cl)
  {
    forall e: Env ensures !AtomHolds(m, Instantiate(cl.body[j], e)) {
      BuriedStays(speaker, vars, g, env.Keys, e);
      SeparatorHoldsAtom(speaker, fs, env, false, vars, g, e);
      forall i | 0 <= i < |fs| ensures SubstAll(fs[i].args, env) != ArgTerms(Instantiate(cl.body[j], e).args) {
        SubstClearsTerms(fs[i].args, env);
      }
    }
  }

  /** The pieces of an accepted rule, condition by condition. */
  lemma AcceptedConditions(speaker: string, f: Form)
    requires Translate(speaker, f).Ok?
    ensures var cl, vars := Translate(speaker, f).value, StripQuantifiers(f, []).1;
            var conds := StripConditions(Matrix(f)).0;
            && StripConditions(Matrix(f)).1 == Goal(f) && TranslateStatement(speaker, vars, Goal(f)) == Ok(cl.head)
            && |conds| == |cl.body|
            && (forall g :: g in conds <==> IsCondition(g, f))
            && (forall i :: 0 <= i < |conds| ==> TranslateStatement(speaker, vars, conds[i]) == Ok(cl.body[i]))
  {
    AcceptedPieces(speaker, f);
    var conds := StripConditions(Matrix(f)).0;
    forall g ensures g in conds <==> IsCondition(g, f) {
      ConditionsAreFlattened(f, g);
    }
    ConditionsAreFlattened(f, Goal(f));
    forall i | 0 <= i < |conds|
      ensures TranslateStatement(speaker, StripQuantifiers(f, []).1, conds[i]) ==
                Ok(Translate(speaker, f).value.body[i])
    {
      TranslateAllAt(speaker, StripQuantifiers(f, []).1, conds, i);
    }
  }

  /** A rule that buries a variable, and whose goal is not among its conditions, changes its meaning. */
  lemma BuryingLosesMeaning(speaker: string, f: Form)
    requires Translate(speaker, f).Ok? && !Faithful(f)
    ensures exists m :: !Holds(m, speaker, f, map[]) && ClosedUnder(m, Translate(speaker, f).value)
  {
    AcceptedConditions(speaker, f);
    var cl, vars := Translate(speaker, f).value, StripQuantifiers(f, []).1;
    var conds, goal := StripConditions(Matrix(f)).0, Goal(f);
    var n := FormsBound(conds) + TermsBound(goal.args);
    var env, buriedGoal := FreshEnv(PrefixVars(f), n), !PlainStatement(goal, PrefixVars(f));
    var m := Separator(speaker, conds, env, buriedGoal);
    SeparatorFalsifies(speaker, f, conds, n, buriedGoal);
    if buriedGoal {
      TaintedHeadHolds(m, speaker, vars, cl, goal, conds, env);
    } else {
      var g :| IsCondition(g, f) && !PlainStatement(g, PrefixVars(f));
      var j :| 0 <= j < |conds| && conds[j] == g;
      TaintedBodyFails(m, speaker, vars, cl, g, conds, env, j);
    }
  }

  /**
   Exactness: formula and clause of an accepted rule agree in all models if and only
   if the rule buries no variable of its prefix or its goal is one of its conditions.
   */
  lemma TranslationIsExact(speaker: string, f: Form)
    requires Translate(speaker, f).Ok?
    ensures KeepsMeaning(speaker, f) <==> Faithful(f)
  {
    if Faithful(f) {
      forall m ensures Holds(m, speaker, f, map[]) <==> ClosedUnder(m, Translate(speaker, f).value) {
        TranslationPreservesMeaning(m, speaker, f);
      }
    } else {
      BuryingLosesMeaning(speaker, f);
    }
  }

  // ----- rules of either kind

  /** The rule `forall X: P(t) implies Q(u)`. */
  function OneVariable(t: Term, u: Term): Form {
    Forall("X", Implies(Pred("P", [t]), Pred("Q", [u])))
  }

  lemma OneVariableRules(t: Term, u: Term)
    ensures var f := OneVariable(t, u);
            && Matrix(f) == Implies(Pred("P", [t]), Pred("Q", [u])) && PrefixVars(f) == {"X"}
            && (forall g :: IsCondition(g, f) <==> g == Pred("P", [t]))
            && TermsVars([t]) == TermVars(t) && TermsVars([u]) == TermVars(u)
  {
    assert [t][0] == t && [u][0] == u;
  }

  lemma OneVariableSupported(t: Term, u: Term)
    requires TermVars(t) == {"X"} && TermVars(u) <= {"X"}
    ensures Supported(OneVariable(t, u))
  {
    var f := OneVariable(t, u);
    OneVariableRules(t, u);
    assert IsCondition(Pred("P", [t]), f) && "X" in TermsVars([t]);
    assert UsedByCondition("X", f);
  }

  /** A variable that the conditions use only inside a principal makes an accepted rule unsafe. */
  lemma VariableInsidePrincipalIsLost(speaker: string)
    ensures var f := OneVariable(PrinTerm(Prin("key", Var("X"), [])), Var("X"));
            && Translate(speaker, f).Ok?
            && !GoalCovered(f)
            && !KeepsMeaning(speaker, f)
  {
    var t := PrinTerm(Prin("key", Var("X"), []));
    var f := OneVariable(t, Var("X"));
    OneVariableRules(t, Var("X"));
    assert TermVars(t) == {"X"};
    OneVariableSupported(t, Var("X"));
    TranslateAcceptsSupportedRules(speaker, f);
    assert Var("X") in Goal(f).args && Var("X") !in [t];
    assert [t][0] == t;
    assert !PlainStatement(Pred("P", [t]), PrefixVars(f));
    TranslationIsExact(speaker, f);
  }

  /** A variable inside a tail escapes the usage check: such a rule is safe and accepted, but means something else. */
  lemma VariableInsideTailIsLost(speaker: string)
    ensures var f := OneVariable(Var("X"), TailTerm([PrinExt("A", [Var("X")])]));
            && Translate(speaker, f).Ok?
            && GoalCovered(f)
            && !KeepsMeaning(speaker, f)
  {
    var x: Term := Var("X");
    var u := TailTerm([PrinExt("A", [x])]);
    var f := OneVariable(x, u);
    OneVariableRules(x, u);
    OneVariableSupported(x, u);
    TranslateAcceptsSupportedRules(speaker, f);
    assert [x][0] == x && u.tail[0].args == [x];
    assert Mentions(x, {"X"});
    assert TermsMention([x], {"X"});
    assert TermsMention(u.tail[0].args, {"X"});
    assert ExtsMention(u.tail, {"X"});
    assert [u][0] == u;
    assert !PlainStatement(Goal(f), PrefixVars(f));
    TranslationIsExact(speaker, f);
  }

  /** Only variables of the prefix matter: without quantifiers every accepted rule keeps its meaning. */
  lemma UnquantifiedRulesAreKept(speaker: string, f: Form)
    requires Translate(speaker, f).Ok? && !f.Forall?
    ensures KeepsMeaning(speaker, f)
  {
    forall g: Form ensures PlainStatement(g, {}) {
      if g.Pred? {
        forall i | 0 <= i < |g.args| ensures !Mentions(g.args[i], {}) {
          NothingMentioned(g.args[i]);
        }
      }
    }
    assert NothingBuried(f);
    TranslationIsExact(speaker, f);
  }

  lemma {:induction false} NothingMentioned(t: Term)
    ensures !Mentions(t, {})
    decreases t
  {
    match t {
      case PrinTerm(p) =>
        NothingMentioned(p.keyHash);
        NothingMentionedIn(p.ext);
      case TailTerm(es) => NothingMentionedIn(es);
      case _ =>
    }
  }

  lemma {:induction false} NothingMentionedIn(es: seq<PrinExt>)
    ensures !ExtsMention(es, {})
    decreases es
  {
    forall i, j | 0 <= i < |es| && 0 <= j < |es[i].args| ensures !Mentions(es[i].args[j], {}) {
      NothingMentioned(es[i].args[j]);
    }
  }
}
