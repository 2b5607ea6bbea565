/**
 Policy rules with `Subprin` conditions.  The engine decides such a condition by the
 custom predicate, so a rule constrains exactly the subprincipals.
 */
module SubprinRules {
  import opened Wrappers
  import opened Auth
  import opened Substitution
  import opened DatalogTranslation
  import opened DatalogMeaning
  import opened DatalogExactness
  import Subprin

  /** The model reads the custom predicate as the engine searches it. */
  ghost predicate UsesCustomPredicate(m: Model) {
    forall ts :: m.subprin(ts) <==>
      |ts| == 3 && Subprin.IsSubprin(Subprin.Fact(DConst(ts[0]), DConst(ts[1]), DConst(ts[2])))
  }

  /** A principal, a prefix of it, and the non-empty tail that is left. */
  ghost predicate SplitsPrincipal(ts: seq<Term>) {
    exists o: Prin, tail: seq<PrinExt> ::
      tail != [] && ts == [PrinTerm(Prin(o.typ, o.keyHash, o.ext + tail)), PrinTerm(o), TailTerm(tail)]
  }

  lemma CustomPredicateSplits(m: Model, ts: seq<Term>)
    requires UsesCustomPredicate(m)
    ensures m.subprin(ts) <==> SplitsPrincipal(ts)
  {
    if m.subprin(ts) {
      var o, tail := ts[1].prin, ts[2].tail;
      assert ts[0].prin == Prin(o.typ, o.keyHash, o.ext + tail);
      assert ts == [PrinTerm(Prin(o.typ, o.keyHash, o.ext + tail)), PrinTerm(o), TailTerm(tail)];
    } else if SplitsPrincipal(ts) {
      var o: Prin, tail: seq<PrinExt> :|
        tail != [] && ts == [PrinTerm(Prin(o.typ, o.keyHash, o.ext + tail)), PrinTerm(o), TailTerm(tail)];
      assert Subprin.IsSubprin(Subprin.Fact(DConst(ts[0]), DConst(ts[1]), DConst(ts[2])));
      assert false;
    }
  }

  /** A statement of a rule under an assignment, with `Subprin` spelled out. */
  ghost predicate StatementHolds(m: Model, speaker: string, g: Form, env: Env)
    requires g.Pred?
  {
    if g.name == "Subprin" then SplitsPrincipal(SubstAll(g.args, env))
    else m.says(speaker, g.name, SubstAll(g.args, env))
  }

  ghost predicate ConditionsHold(m: Model, speaker: string, f: Form, env: Env) {
    forall g :: IsCondition(g, f) ==> g.Pred? && StatementHolds(m, speaker, g, env)
  }

  ghost predicate GoalHolds(m: Model, speaker: string, f: Form, env: Env) {
    Goal(f).Pred? && StatementHolds(m, speaker, Goal(f), env)
  }

  /** Whenever all conditions of the rule hold, so does its goal. */
  ghost predicate RuleHolds(m: Model, speaker: string, f: Form) {
    forall env :: Assigns(env, PrefixVars(f)) ==> ConditionsHold(m, speaker, f, env) ==> GoalHolds(m, speaker, f, env)
  }

  lemma StatementHoldsAsFormula(m: Model, speaker: string, g: Form, env: Env)
    requires UsesCustomPredicate(m) && g.Pred?
    ensures Holds(m, speaker, g, env) <==> StatementHolds(m, speaker, g, env)
  {
    CustomPredicateSplits(m, SubstAll(g.args, env));
  }

  lemma MatrixHolds(m: Model, speaker: string, f: Form, env: Env)
    requires Translate(speaker, f).Ok? && UsesCustomPredicate(m)
    ensures Holds(m, speaker, Matrix(f), env) <==>
              (ConditionsHold(m, speaker, f, env) ==> GoalHolds(m, speaker, f, env))
  {
    AcceptedConditions(speaker, f);
    ConditionsMeaning(m, speaker, Matrix(f), env);
    var conds := StripConditions(Matrix(f)).0;
    StatementHoldsAsFormula(m, speaker, Goal(f), env);
    forall i | 0 <= i < |conds|
      ensures conds[i].Pred? && (Holds(m, speaker, conds[i], env) <==> StatementHolds(m, speaker, conds[i], env))
    {
      StatementHoldsAsFormula(m, speaker, conds[i], env);
    }
    ConditionsInTurn(m, speaker, f, conds, env);
  }

  lemma ConditionsInTurn(m: Model, speaker: string, f: Form, conds: seq<Form>, env: Env)
    requires forall g :: g in conds <==> IsCondition(g, f)
    requires forall i :: 0 <= i < |conds| ==>
               conds[i].Pred? && (Holds(m, speaker, conds[i], env) <==> StatementHolds(m, speaker, conds[i], env))
    ensures AllHold(m, speaker, conds, env) <==> ConditionsHold(m, speaker, f, env)
  {
    if ConditionsHold(m, speaker, f, env) {
      forall i | 0 <= i < |conds| ensures Holds(m, speaker, conds[i], env) {
        assert IsCondition(conds[i], f);
      }
    }
    if AllHold(m, speaker, conds, env) {
      forall g | IsCondition(g, f) ensures g.Pred? && StatementHolds(m, speaker, g, env) {
        var i :| 0 <= i < |conds| && conds[i] == g;
      }
    }
  }

  /**
   The clause the engine gets for a faithful rule is satisfied exactly if the rule
   holds with its `Subprin` statements read as splits of principals.
   */
  lemma ClausesConstrainSubprincipals(m: Model, speaker: string, f: Form)
    requires Translate(speaker, f).Ok? && Faithful(f) && UsesCustomPredicate(m)
    ensures ClosedUnder(m, Translate(speaker, f).value) <==> RuleHolds(m, speaker, f)
  {
    TranslationPreservesMeaning(m, speaker, f);
    PrefixMeaning(m, speaker, f, map[]);
    forall env: Env
      ensures Reassigns(env, map[], PrefixVars(f)) ==> Holds(m, speaker, Matrix(f), env) <==>
              Assigns(env, PrefixVars(f)) ==> ConditionsHold(m, speaker, f, env) ==> GoalHolds(m, speaker, f, env)
    {
      FreshAssignment(env, PrefixVars(f));
      MatrixHolds(m, speaker, f, env);
    }
  }

  // ----- the rule that hands a predicate down to subprincipals

  /** `forall P: forall O: forall E: Subprin(P, O, E) and q(O) implies r(P)`. */
  function Inheritance(q: string, r: string): Form {
    Forall("P", Forall("O", Forall("E",
      Implies(And([Pred("Subprin", [Var("P"), Var("O"), Var("E")]), Pred(q, [Var("O")])]), Pred(r, [Var("P")])))))
  }

  lemma InheritanceParts(q: string, r: string)
    ensures var f := Inheritance(q, r);
            && PrefixVars(f) == {"P", "O", "E"} && Goal(f) == Pred(r, [Var("P")])
            && Matrix(f) == f.body.body.body
  {
    var f := Inheritance(q, r);
    var inner := f.body.body;
    assert PrefixVars(inner.body) == {} && Matrix(inner.body) == inner.body;
    assert PrefixVars(inner) == {"E"} && Matrix(inner) == inner.body;
    assert PrefixVars(f.body) == {"O"} + PrefixVars(inner) && Matrix(f.body) == Matrix(inner);
    assert PrefixVars(f) == {"P"} + PrefixVars(f.body) && Matrix(f) == Matrix(f.body);
  }

  lemma InheritanceConditions(q: string, r: string, g: Form)
    ensures IsCondition(g, Inheritance(q, r)) <==>
              g == Pred("Subprin", [Var("P"), Var("O"), Var("E")]) || g == Pred(q, [Var("O")])
  {
    var f := Inheritance(q, r);
    InheritanceParts(q, r);
    var parts := f.body.body.body.antecedent.conjuncts;
    assert parts[0] == Pred("Subprin", [Var("P"), Var("O"), Var("E")]) && parts[1] == Pred(q, [Var("O")]);
    assert IsConjunct(g, parts[0]) <==> g == parts[0];
    assert IsConjunct(g, parts[1]) <==> g == parts[1];
  }

  lemma WholeArguments(vs: set<string>, ts: seq<Term>)
    requires forall i :: 0 <= i < |ts| ==> ts[i].Var? && ts[i].name in vs
    ensures TermsVars(ts) <= vs && forall bound :: PlainTerms(ts, bound)
  {
  }

  lemma ConditionsAreGood(q: string, r: string, g: Form)
    requires IsCondition(g, Inheritance(q, r)) || g == Goal(Inheritance(q, r))
    ensures GoodStatement(g, {"P", "O", "E"}) && PlainStatement(g, {"P", "O", "E"})
  {
    InheritanceParts(q, r);
    InheritanceConditions(q, r, g);
    WholeArguments({"P", "O", "E"}, g.args);
  }

  lemma VariablesAreUsed(q: string, r: string, x: string)
    requires x in {"P", "O", "E"}
    ensures UsedByCondition(x, Inheritance(q, r))
  {
    var g := Pred("Subprin", [Var("P"), Var("O"), Var("E")]);
    InheritanceConditions(q, r, g);
    assert g.args[0] == Var("P") && g.args[1] == Var("O") && g.args[2] == Var("E");
    assert x in TermVars(Var(x)) && Var(x) in g.args;
    assert x in TermsVars(g.args);
  }

  lemma InheritanceIsAccepted(speaker: string, q: string, r: string)
    ensures Translate(speaker, Inheritance(q, r)).Ok? && Faithful(Inheritance(q, r))
  {
    var f := Inheritance(q, r);
    InheritanceParts(q, r);
    forall g | IsCondition(g, f) || g == Goal(f)
      ensures GoodStatement(g, PrefixVars(f)) && PlainStatement(g, PrefixVars(f))
    {
      ConditionsAreGood(q, r, g);
    }
    forall x | x in PrefixVars(f) ensures UpperCase(x) && UsedByCondition(x, f) {
      VariablesAreUsed(q, r, x);
    }
    TranslateAcceptsSupportedRules(speaker, f);
  }

  /** The predicate is handed down from every closed principal to all its subprincipals. */
  ghost predicate HandedDown(m: Model, speaker: string, q: string, r: string) {
    forall o: Prin, tail: seq<PrinExt> :: ClosedTerm(PrinTerm(o)) && ClosedExts(tail) && tail != [] ==>
      m.says(speaker, q, [PrinTerm(o)]) ==>
      m.says(speaker, r, [PrinTerm(Prin(o.typ, o.keyHash, o.ext + tail))])
  }

  function SplitEnv(o: Prin, tail: seq<PrinExt>): Env {
    map["P" := PrinTerm(Prin(o.typ, o.keyHash, o.ext + tail)), "O" := PrinTerm(o), "E" := TailTerm(tail)]
  }

  lemma SplitEnvAssigns(o: Prin, tail: seq<PrinExt>)
    requires ClosedTerm(PrinTerm(o)) && ClosedExts(tail)
    ensures Assigns(SplitEnv(o, tail), {"P", "O", "E"})
  {
    var exts := o.ext + tail;
    forall i | 0 <= i < |exts| ensures ClosedTerms(exts[i].args) {
      assert exts[i] == if i < |o.ext| then o.ext[i] else tail[i - |o.ext|];
    }
    assert ClosedExts(exts);
    assert ClosedTerm(PrinTerm(Prin(o.typ, o.keyHash, exts)));
    assert ClosedTerm(TailTerm(tail));
    assert SplitEnv(o, tail).Keys == {"P", "O", "E"};
  }

  /** One instance of the rule, condition by condition. */
  lemma InheritanceInstance(m: Model, speaker: string, q: string, r: string, env: Env)
    requires q != "Subprin" && r != "Subprin" && env.Keys == {"P", "O", "E"}
    ensures ConditionsHold(m, speaker, Inheritance(q, r), env) <==>
              SplitsPrincipal([env["P"], env["O"], env["E"]]) && m.says(speaker, q, [env["O"]])
    ensures GoalHolds(m, speaker, Inheritance(q, r), env) <==> m.says(speaker, r, [env["P"]])
  {
    InheritanceParts(q, r);
    var split: Form, holds: Form := Pred("Subprin", [Var("P"), Var("O"), Var("E")]), Pred(q, [Var("O")]);
    forall g ensures IsCondition(g, Inheritance(q, r)) <==> g == split || g == holds {
      InheritanceConditions(q, r, g);
    }
    assert SubstAll([Var("P"), Var("O"), Var("E")], env) == [env["P"], env["O"], env["E"]];
    assert SubstAll([Var("O")], env) == [env["O"]];
    assert SubstAll([Var("P")], env) == [env["P"]];
    assert IsCondition(split, Inheritance(q, r)) && IsCondition(holds, Inheritance(q, r));
  }

  lemma RuleHandsDown(m: Model, speaker: string, q: string, r: string, o: Prin, tail: seq<PrinExt>)
    requires q != "Subprin" && r != "Subprin" && RuleHolds(m, speaker, Inheritance(q, r))
    requires ClosedTerm(PrinTerm(o)) && ClosedExts(tail) && tail != [] && m.says(speaker, q, [PrinTerm(o)])
    ensures m.says(speaker, r, [PrinTerm(Prin(o.typ, o.keyHash, o.ext + tail))])
  {
    var env := SplitEnv(o, tail);
    SplitEnvAssigns(o, tail);
    InheritanceParts(q, r);
    InheritanceInstance(m, speaker, q, r, env);
    assert [env["P"], env["O"], env["E"]] ==
           [PrinTerm(Prin(o.typ, o.keyHash, o.ext + tail)), PrinTerm(o), TailTerm(tail)];
  }

  lemma HandedDownInstance(m: Model, speaker: string, q: string, r: string, env: Env)
    requires q != "Subprin" && r != "Subprin" && HandedDown(m, speaker, q, r)
    requires Assigns(env, {"P", "O", "E"}) && ConditionsHold(m, speaker, Inheritance(q, r), env)
    ensures GoalHolds(m, speaker, Inheritance(q, r), env)
  {
    InheritanceInstance(m, speaker, q, r, env);
    var ts := [env["P"], env["O"], env["E"]];
    assert ts[0] == env["P"] && ts[1] == env["O"] && ts[2] == env["E"];
    var o: Prin, tail: seq<PrinExt> :|
      tail != [] && ts == [PrinTerm(Prin(o.typ, o.keyHash, o.ext + tail)), PrinTerm(o), TailTerm(tail)];
    assert env["O"] == PrinTerm(o) && env["E"] == TailTerm(tail);
    assert ClosedTerm(PrinTerm(o)) && ClosedTerm(TailTerm(tail)) && ClosedExts(tail);
    assert [env["O"]] == [PrinTerm(o)];
    assert m.says(speaker, r, [PrinTerm(Prin(o.typ, o.keyHash, o.ext + tail))]);
    assert [env["P"]] == [PrinTerm(Prin(o.typ, o.keyHash, o.ext + tail))];
  }

  /** The engine's clause for the rule holds exactly if the predicate is handed down. */
  lemma SubprincipalsInherit(m: Model, speaker: string, q: string, r: string)
    requires q != "Subprin" && r != "Subprin" && UsesCustomPredicate(m)
    ensures Translate(speaker, Inheritance(q, r)).Ok?
    ensures ClosedUnder(m, Translate(speaker, Inheritance(q, r)).value) <==> HandedDown(m, speaker, q, r)
  {
    InheritanceIsAccepted(speaker, q, r);
    ClausesConstrainSubprincipals(m, speaker, Inheritance(q, r));
    if RuleHolds(m, speaker, Inheritance(q, r)) {
      forall o: Prin, tail: seq<PrinExt> | ClosedTerm(PrinTerm(o)) && ClosedExts(tail) && tail != [] &&
                                           m.says(speaker, q, [PrinTerm(o)])
        ensures m.says(speaker, r, [PrinTerm(Prin(o.typ, o.keyHash, o.ext + tail))])
      {
        RuleHandsDown(m, speaker, q, r, o, tail);
      }
    }
    if HandedDown(m, speaker, q, r) {
      InheritanceParts(q, r);
      forall env | Assigns(env, {"P", "O", "E"}) && ConditionsHold(m, speaker, Inheritance(q, r), env)
        ensures GoalHolds(m, speaker, Inheritance(q, r), env)
      {
        HandedDownInstance(m, speaker, q, r, env);
      }
    }
  }
}
