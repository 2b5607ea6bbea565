/**
 The datalog guard: a list of policy rules that is kept in step with the clauses
 loaded into a datalog engine.
 */
module DatalogGuard {
  import opened Wrappers
  import opened Auth
  import opened DatalogTranslation
  import opened DatalogMeaning
  import opened DatalogExactness

  datatype GuardError = BadRule(error: RuleError) | NoSuchRule | CustomPredicate | BadEncoding

  /**
   The rule list, the engine's clauses, and whether the engine still has the
   custom `subprin/3` predicate, which admits no clauses of its own.
   */
  datatype State = State(rules: seq<Form>, clauses: set<Clause>, custom: bool)

  const EMPTY_STATE := State([], {}, true)

  datatype Search = Found(clause: Clause, index: nat) | Missing(clause: Clause) | Invalid(error: RuleError)

  predicate Matches(speaker: string, f: Form, cl: Clause) {
    Translate(speaker, f) == Ok(cl)
  }

  function IndexOf(speaker: string, rules: seq<Form>, cl: Clause): (r: Option<nat>)
    ensures r.Some? ==> r.value < |rules| && Matches(speaker, rules[r.value], cl)
    ensures r.None? ==> forall i :: 0 <= i < |rules| ==> !Matches(speaker, rules[i], cl)
  {
    if rules == [] then None
    else if Matches(speaker, rules[0], cl) then Some(0)
    else
      match IndexOf(speaker, rules[1..], cl)
      case None => None
      case Some(i) => Some(i + 1)
  }

  function FindRule(speaker: string, rules: seq<Form>, f: Form): Search {
    match Translate(speaker, f)
    case Err(e) => Invalid(e)
    case Ok(cl) =>
      match IndexOf(speaker, rules, cl)
      case None => Missing(cl)
      case Some(i) => Found(cl, i)
  }

  /** Clauses for the custom predicate are refused while it is installed. */
  predicate Refused(s: State, cl: Clause) {
    s.custom && cl.head.SubprinAtom? && |cl.head.args| == 3
  }

  function AssertStep(speaker: string, s: State, f: Form): (State, Option<GuardError>) {
    match FindRule(speaker, s.rules, f)
    case Invalid(e) => (s, Some(BadRule(e)))
    case Found(_, _) => (s, None)
    case Missing(cl) =>
      if Refused(s, cl) then (s, Some(CustomPredicate))
      else (s.(rules := s.rules + [f], clauses := s.clauses + {cl}), None)
  }

  function RetractStep(speaker: string, s: State, f: Form): (State, Option<GuardError>) {
    match FindRule(speaker, s.rules, f)
    case Invalid(e) => (s, Some(BadRule(e)))
    case Missing(_) => (s, Some(NoSuchRule))
    case Found(cl, i) =>
      if Refused(s, cl) then (s, Some(CustomPredicate))
      else (s.(rules := s.rules[..i] + s.rules[i + 1..], clauses := s.clauses - {cl}), None)
  }

  /** Asserts the rules of a file in order, stopping at the first failure; `None` is an entry that does not parse. */
  function AssertAll(speaker: string, s: State, fs: seq<Option<Form>>): (State, Option<GuardError>)
    decreases fs
  {
    if fs == [] then (s, None)
    else if fs[0].None? then (s, Some(BadEncoding))
    else
      var (s', e) := AssertStep(speaker, s, fs[0].value);
      if e.Some? then (s', e) else AssertAll(speaker, s', fs[1..])
  }

  class Guard {
    const speaker: string
    var rules: seq<Form>
    var clauses: set<Clause>
    var custom: bool

    function Snapshot(): State
      reads this
    {
      State(rules, clauses, custom)
    }

    constructor (speaker: string)
      ensures this.speaker == speaker && Snapshot() == EMPTY_STATE
    {
      this.speaker := speaker;
      rules, clauses, custom := [], {}, true;
    }

    /** Looks for a listed rule with the same translation. */
    method Find(f: Form) returns (r: Search)
      ensures r == FindRule(speaker, rules, f)
    {
      var rule := FormToDatalogRule(speaker, f);
      if rule.Err? {
        return Invalid(rule.error);
      }
      var cl := rule.value;
      for i := 0 to |rules|
        invariant forall j :: 0 <= j < i ==> !Matches(speaker, rules[j], cl)
      {
        var rule2 := FormToDatalogRule(speaker, rules[i]);
        if rule2 == Ok(cl) {
          FirstIndex(speaker, rules, cl, i);
          return Found(cl, i);
        }
      }
      r := Missing(cl);
    }

    method Assert(f: Form) returns (e: Option<GuardError>)
      modifies this
      ensures (Snapshot(), e) == old(AssertStep(speaker, Snapshot(), f))
    {
      var found := Find(f);
      match found {
        case Invalid(error) => e := Some(BadRule(error));
        case Found(_, _) => e := None;
        case Missing(cl) =>
          if Refused(Snapshot(), cl) {
            return Some(CustomPredicate);
          }
          clauses := clauses + {cl};
          rules := rules + [f];
          e := None;
      }
    }

    method Retract(f: Form) returns (e: Option<GuardError>)
      modifies this
      ensures (Snapshot(), e) == old(RetractStep(speaker, Snapshot(), f))
    {
      var found := Find(f);
      match found {
        case Invalid(error) => e := Some(BadRule(error));
        case Missing(_) => e := Some(NoSuchRule);
        case Found(cl, i) =>
          if Refused(Snapshot(), cl) {
            return Some(CustomPredicate);
          }
          clauses := clauses - {cl};
          rules := rules[..i] + rules[i + 1..];
          e := None;
      }
    }

    /** Starts over with a new engine, which lacks the custom predicate. */
    method Clear()
      modifies this
      ensures Snapshot() == State([], {}, false)
    {
      rules := [];
      clauses := {};
      custom := false;
    }

    /** Reloads a modified rule file: the rule list is dropped, the engine is not. */
    method Reload(fs: seq<Option<Form>>) returns (e: Option<GuardError>)
      modifies this
      ensures (Snapshot(), e) == old(AssertAll(speaker, Snapshot().(rules := []), fs))
    {
      rules := [];
      e := None;
      ghost var start := Snapshot();
      for i := 0 to |fs|
        invariant AssertAll(speaker, start, fs) == AssertAll(speaker, Snapshot(), fs[i..])
      {
        assert fs[i..][0] == fs[i] && fs[i..][1..] == fs[i + 1..];
        if fs[i].None? {
          return Some(BadEncoding);
        }
        e := Assert(fs[i].value);
        if e.Some? {
          return;
        }
      }
      assert fs[|fs|..] == [];
      e := None;
    }
  }

  lemma {:induction false} FirstIndex(speaker: string, rules: seq<Form>, cl: Clause, i: nat)
    requires i < |rules| && Matches(speaker, rules[i], cl)
    requires forall j :: 0 <= j < i ==> !Matches(speaker, rules[j], cl)
    ensures IndexOf(speaker, rules, cl) == Some(i)
  {
    if i > 0 {
      assert !Matches(speaker, rules[0], cl);
      FirstIndex(speaker, rules[1..], cl, i - 1);
    }
  }

  // ----- what every run keeps

  datatype Op = Assert(f: Form) | Retract(f: Form) | Clear | Reload(fs: seq<Option<Form>>)

  function Step(speaker: string, s: State, op: Op): State {
    match op
    case Assert(f) => AssertStep(speaker, s, f).0
    case Retract(f) => RetractStep(speaker, s, f).0
    case Clear => State([], {}, false)
    case Reload(fs) => AssertAll(speaker, s.(rules := []), fs).0
  }

  function Run(speaker: string, s: State, ops: seq<Op>): State {
    if ops == [] then s else Step(speaker, Run(speaker, s, ops[..|ops| - 1]), ops[|ops| - 1])
  }

  function Translations(speaker: string, rules: seq<Form>): (ts: seq<Result<Clause, RuleError>>)
    ensures |ts| == |rules|
  {
    seq(|rules|, i requires 0 <= i < |rules| => Translate(speaker, rules[i]))
  }

  ghost predicate NoDuplicates<T>(s: seq<T>) {
    forall i, j :: 0 <= i < j < |s| ==> s[i] != s[j]
  }

  /** Every listed rule translates, and no two translate alike. */
  ghost predicate Distinct(speaker: string, rules: seq<Form>) {
    var ts := Translations(speaker, rules);
    NoDuplicates(ts) && forall i :: 0 <= i < |ts| ==> ts[i].Ok?
  }

  predicate IsListed(speaker: string, rules: seq<Form>, cl: Clause) {
    Ok(cl) in Translations(speaker, rules)
  }

  /** The engine holds every listed rule. */
  ghost predicate Covers(speaker: string, s: State) {
    forall cl :: IsListed(speaker, s.rules, cl) ==> cl in s.clauses
  }

  /** The engine holds the listed rules and nothing else. */
  ghost predicate Agrees(speaker: string, s: State) {
    forall cl :: IsListed(speaker, s.rules, cl) <==> cl in s.clauses
  }

  /** Exactly `more` and the listed rules are in the engine. */
  ghost predicate HoldsListedAnd(speaker: string, s: State, more: set<Clause>) {
    forall cl :: cl in s.clauses <==> IsListed(speaker, s.rules, cl) || cl in more
  }

  lemma RemovalFromDistinct<T(!new)>(s: seq<T>, k: nat)
    requires k < |s| && NoDuplicates(s)
    ensures var left := s[..k] + s[k + 1..];
            NoDuplicates(left) && forall x :: x in left <==> x in s && x != s[k]
  {
    var left := s[..k] + s[k + 1..];
    assert forall i :: 0 <= i < |left| ==> left[i] == s[if i < k then i else i + 1];
    forall x | x in s && x != s[k] ensures x in left {
      var j :| 0 <= j < |s| && s[j] == x;
      assert left[if j < k then j else j - 1] == x;
    }
  }

  /** A clause has a listed rule iff the search finds it. */
  lemma IndexOfFindsListed(speaker: string, rules: seq<Form>, cl: Clause)
    ensures IndexOf(speaker, rules, cl).Some? <==> IsListed(speaker, rules, cl)
    ensures IndexOf(speaker, rules, cl).Some? ==>
              Translations(speaker, rules)[IndexOf(speaker, rules, cl).value] == Ok(cl)
  {
    var ts, found := Translations(speaker, rules), IndexOf(speaker, rules, cl);
    match found {
      case Some(i) =>
        assert Matches(speaker, rules[i], cl);
        assert ts[i] == Ok(cl);
      case None =>
        forall i | 0 <= i < |ts| ensures ts[i] != Ok(cl) {
          assert !Matches(speaker, rules[i], cl);
        }
    }
  }

  lemma TranslationsAfterRemoval(speaker: string, rules: seq<Form>, k: nat)
    requires k < |rules|
    ensures var ts := Translations(speaker, rules);
            Translations(speaker, rules[..k] + rules[k + 1..]) == ts[..k] + ts[k + 1..]
  {
  }

  lemma AssertKeeps(speaker: string, s: State, f: Form, more: set<Clause>)
    requires Distinct(speaker, s.rules) && HoldsListedAnd(speaker, s, more)
    ensures var s' := AssertStep(speaker, s, f).0; Distinct(speaker, s'.rules) && HoldsListedAnd(speaker, s', more)
  {
    var s', found := AssertStep(speaker, s, f).0, FindRule(speaker, s.rules, f);
    if s' != s {
      IndexOfFindsListed(speaker, s.rules, found.clause);
      assert Translations(speaker, s'.rules) == Translations(speaker, s.rules) + [Ok(found.clause)];
    }
  }

  lemma RulesAfterRemoval(speaker: string, rules: seq<Form>, k: nat, cl: Clause)
    requires Distinct(speaker, rules) && k < |rules| && Translations(speaker, rules)[k] == Ok(cl)
    ensures var left := rules[..k] + rules[k + 1..];
            && Distinct(speaker, left)
            && forall other :: IsListed(speaker, left, other) <==> IsListed(speaker, rules, other) && other != cl
  {
    TranslationsAfterRemoval(speaker, rules, k);
    RemovalFromDistinct(Translations(speaker, rules), k);
  }

  lemma RemovalKeeps(speaker: string, s: State, k: nat, cl: Clause)
    requires Distinct(speaker, s.rules) && k < |s.rules| && Translations(speaker, s.rules)[k] == Ok(cl)
    ensures var s' := s.(rules := s.rules[..k] + s.rules[k + 1..], clauses := s.clauses - {cl});
            && Distinct(speaker, s'.rules)
            && (Covers(speaker, s) ==> Covers(speaker, s'))
            && (Agrees(speaker, s) ==> Agrees(speaker, s'))
  {
    RulesAfterRemoval(speaker, s.rules, k, cl);
  }

  lemma RetractKeeps(speaker: string, s: State, f: Form)
    requires Distinct(speaker, s.rules)
    ensures var s' := RetractStep(speaker, s, f).0;
            && Distinct(speaker, s'.rules)
            && (Covers(speaker, s) ==> Covers(speaker, s'))
            && (Agrees(speaker, s) ==> Agrees(speaker, s'))
  {
    var s', found := RetractStep(speaker, s, f).0, FindRule(speaker, s.rules, f);
    if s' != s {
      IndexOfFindsListed(speaker, s.rules, found.clause);
      RemovalKeeps(speaker, s, found.index, found.clause);
    }
  }

  /** The rule translates, and is on the list already or does not define the custom predicate. */
  predicate Assertable(speaker: string, s: State, f: Form) {
    && Translate(speaker, f).Ok?
    && (IsListed(speaker, s.rules, Translate(speaker, f).value) || !Refused(s, Translate(speaker, f).value))
  }

  /**
   An accepted rule is in force and on the list; a rule is refused iff it does not
   translate or redefines the custom predicate.
   */
  lemma AssertTakesEffect(speaker: string, s: State, f: Form)
    requires Covers(speaker, s)
    ensures var (s', e) := AssertStep(speaker, s, f);
            && (e.None? <==> Assertable(speaker, s, f))
            && (e.None? ==>
                  && IsListed(speaker, s'.rules, Translate(speaker, f).value)
                  && Translate(speaker, f).value in s'.clauses)
            && s.rules <= s'.rules && s.clauses <= s'.clauses
            && (e.Some? ==> s' == s)
  {
    if Translate(speaker, f).Ok? {
      var cl := Translate(speaker, f).value;
      IndexOfFindsListed(speaker, s.rules, cl);
      var rules' := AssertStep(speaker, s, f).0.rules;
      if rules' != s.rules {
        assert Translations(speaker, rules')[|s.rules|] == Ok(cl);
      }
    }
  }

  /** Retracting a rule just added restores the guard to what it was. */
  lemma RetractUndoesAssert(speaker: string, s: State, f: Form)
    requires Distinct(speaker, s.rules) && Agrees(speaker, s)
    requires AssertStep(speaker, s, f).1.None? && AssertStep(speaker, s, f).0 != s
    ensures RetractStep(speaker, AssertStep(speaker, s, f).0, f) == (s, None)
  {
    var s', cl := AssertStep(speaker, s, f).0, Translate(speaker, f).value;
    IndexOfFindsListed(speaker, s.rules, cl);
    assert s'.rules == s.rules + [f];
    forall j | 0 <= j < |s.rules| ensures !Matches(speaker, s'.rules[j], cl) {
      assert !Matches(speaker, s.rules[j], cl);
    }
    FirstIndex(speaker, s'.rules, cl, |s.rules|);
    assert s'.rules[..|s.rules|] + s'.rules[|s.rules| + 1..] == s.rules;
    assert s'.clauses - {cl} == s.clauses;
  }

  predicate Retractable(speaker: string, s: State, f: Form) {
    && Translate(speaker, f).Ok?
    && IsListed(speaker, s.rules, Translate(speaker, f).value)
    && !Refused(s, Translate(speaker, f).value)
  }

  /**
   A retraction succeeds iff the rule is listed and does not define the custom
   predicate.  Then it is neither listed nor in force, and all other clauses are
   as before; a failing one changes nothing.
   */
  lemma RetractTakesEffect(speaker: string, s: State, f: Form)
    requires Distinct(speaker, s.rules)
    ensures var (s', e) := RetractStep(speaker, s, f);
            && (e.None? <==> Retractable(speaker, s, f))
            && (e.None? ==> !IsListed(speaker, s'.rules, Translate(speaker, f).value)
                            && s'.clauses == s.clauses - {Translate(speaker, f).value})
            && (e.Some? ==> s' == s)
  {
    if Translate(speaker, f).Ok? {
      var cl := Translate(speaker, f).value;
      IndexOfFindsListed(speaker, s.rules, cl);
      if IsListed(speaker, s.rules, cl) {
        RulesAfterRemoval(speaker, s.rules, IndexOf(speaker, s.rules, cl).value, cl);
      }
    }
  }

  lemma {:induction false} AssertAllKeeps(speaker: string, s: State, fs: seq<Option<Form>>, more: set<Clause>)
    requires Distinct(speaker, s.rules) && HoldsListedAnd(speaker, s, more)
    ensures var s' := AssertAll(speaker, s, fs).0; Distinct(speaker, s'.rules) && HoldsListedAnd(speaker, s', more)
    decreases fs
  {
    if fs != [] && fs[0].Some? {
      AssertKeeps(speaker, s, fs[0].value, more);
      var (s', e) := AssertStep(speaker, s, fs[0].value);
      if e.None? {
        AssertAllKeeps(speaker, s', fs[1..], more);
      }
    }
  }

  /** The entry parses, translates and does not define the custom predicate. */
  predicate Loadable(speaker: string, s: State, entry: Option<Form>) {
    entry.Some? && Translate(speaker, entry.value).Ok? && !Refused(s, Translate(speaker, entry.value).value)
  }

  /** The rules of the longest prefix of the file that can be loaded. */
  function LoadablePrefix(speaker: string, s: State, fs: seq<Option<Form>>): (r: seq<Form>)
    ensures |r| <= |fs|
    decreases fs
  {
    if fs == [] || !Loadable(speaker, s, fs[0]) then []
    else [fs[0].value] + LoadablePrefix(speaker, s, fs[1..])
  }

  ghost predicate NoneRefused(speaker: string, s: State) {
    forall cl :: IsListed(speaker, s.rules, cl) ==> !Refused(s, cl)
  }

  lemma IsListedSplits(speaker: string, rules: seq<Form>, more: seq<Form>, cl: Clause)
    ensures IsListed(speaker, rules + more, cl) <==> IsListed(speaker, rules, cl) || IsListed(speaker, more, cl)
  {
    assert Translations(speaker, rules + more) == Translations(speaker, rules) + Translations(speaker, more);
  }

  lemma IsListedSingle(speaker: string, f: Form, cl: Clause)
    ensures IsListed(speaker, [f], cl) <==> Translate(speaker, f) == Ok(cl)
  {
    assert Translations(speaker, [f]) == [Translate(speaker, f)];
  }

  /** The list `after` has the clauses of `before` and those of `added`. */
  ghost predicate Adds(speaker: string, after: seq<Form>, before: seq<Form>, added: seq<Form>) {
    forall cl :: IsListed(speaker, after, cl) <==> IsListed(speaker, before, cl) || IsListed(speaker, added, cl)
  }

  lemma AddsNothing(speaker: string, rules: seq<Form>)
    ensures Adds(speaker, rules, rules, [])
  {
  }

  lemma AddsInTurn(speaker: string, r0: seq<Form>, r1: seq<Form>, r2: seq<Form>, f: Form, more: seq<Form>)
    requires Adds(speaker, r1, r0, [f]) && Adds(speaker, r2, r1, more)
    ensures Adds(speaker, r2, r0, [f] + more)
  {
    forall cl ensures IsListed(speaker, r2, cl) <==> IsListed(speaker, r0, cl) || IsListed(speaker, [f] + more, cl) {
      IsListedSplits(speaker, [f], more, cl);
    }
  }

  /** One entry of a file: it is listed afterwards iff it can be loaded, and nothing else changes. */
  lemma AssertStepLists(speaker: string, s: State, f: Form)
    requires NoneRefused(speaker, s)
    ensures var (s', e) := AssertStep(speaker, s, f);
            && s'.custom == s.custom && NoneRefused(speaker, s')
            && (e.None? <==> Loadable(speaker, s, Some(f)))
            && Adds(speaker, s'.rules, s.rules, if e.None? then [f] else [])
  {
    var (s', e) := AssertStep(speaker, s, f);
    AddsNothing(speaker, s.rules);
    if Translate(speaker, f).Ok? {
      IndexOfFindsListed(speaker, s.rules, Translate(speaker, f).value);
    }
    forall cl
      ensures IsListed(speaker, s.rules + [f], cl) <==> IsListed(speaker, s.rules, cl) || IsListed(speaker, [f], cl)
      ensures IsListed(speaker, [f], cl) <==> Translate(speaker, f) == Ok(cl)
    {
      IsListedSplits(speaker, s.rules, [f], cl);
      IsListedSingle(speaker, f, cl);
    }
  }

  /** Loading a file lists exactly its longest loadable prefix, on top of what was listed before. */
  lemma {:induction false} AssertAllLists(speaker: string, s: State, fs: seq<Option<Form>>)
    requires NoneRefused(speaker, s)
    ensures var (s', e) := AssertAll(speaker, s, fs);
            && (e.None? <==> |LoadablePrefix(speaker, s, fs)| == |fs|)
            && Adds(speaker, s'.rules, s.rules, LoadablePrefix(speaker, s, fs))
    decreases fs
  {
    AddsNothing(speaker, s.rules);
    if fs != [] && fs[0].Some? {
      AssertStepLists(speaker, s, fs[0].value);
      var (s1, e) := AssertStep(speaker, s, fs[0].value);
      if e.None? {
        AssertAllLists(speaker, s1, fs[1..]);
        SamePrefix(speaker, s, s1, fs[1..]);
        var s2 := AssertAll(speaker, s1, fs[1..]).0;
        AddsInTurn(speaker, s.rules, s1.rules, s2.rules, fs[0].value, LoadablePrefix(speaker, s, fs[1..]));
      }
    }
  }

  lemma {:induction false} SamePrefix(speaker: string, s: State, t: State, fs: seq<Option<Form>>)
    requires s.custom == t.custom
    ensures LoadablePrefix(speaker, s, fs) == LoadablePrefix(speaker, t, fs)
    decreases fs
  {
    if fs != [] {
      SamePrefix(speaker, s, t, fs[1..]);
    }
  }

  /**
   A reload lists the longest loadable prefix of the file and adds it to whatever the
   engine held before.  List and engine agree afterwards if and only if that prefix
   lists every clause the engine held; the other ones stay in force unlisted.
   */
  lemma ReloadKeepsOldClauses(speaker: string, s: State, fs: seq<Option<Form>>)
    ensures var s' := Step(speaker, s, Reload(fs));
            var loaded := LoadablePrefix(speaker, s, fs);
            && Distinct(speaker, s'.rules)
            && (forall cl :: IsListed(speaker, s'.rules, cl) <==> IsListed(speaker, loaded, cl))
            && (forall cl :: cl in s'.clauses <==> IsListed(speaker, loaded, cl) || cl in s.clauses)
            && (AssertAll(speaker, s.(rules := []), fs).1.None? <==> |loaded| == |fs|)
            && (Agrees(speaker, s') <==> forall cl :: cl in s.clauses ==> IsListed(speaker, loaded, cl))
  {
    var start := s.(rules := []);
    AssertAllKeeps(speaker, start, fs, s.clauses);
    AssertAllLists(speaker, start, fs);
    SamePrefix(speaker, s, start, fs);
    var s' := Step(speaker, s, Reload(fs));
    assert HoldsListedAnd(speaker, s', s.clauses);
  }

  /** Every run, reloads included, keeps the listed rules distinct and in the engine. */
  lemma {:induction false} RunsKeepRulesCovered(speaker: string, ops: seq<Op>)
    ensures var s := Run(speaker, EMPTY_STATE, ops); Distinct(speaker, s.rules) && Covers(speaker, s)
  {
    if ops != [] {
      RunsKeepRulesCovered(speaker, ops[..|ops| - 1]);
      var s, op := Run(speaker, EMPTY_STATE, ops[..|ops| - 1]), ops[|ops| - 1];
      match op {
        case Assert(f) => AssertKeeps(speaker, s, f, s.clauses);
        case Retract(f) => RetractKeeps(speaker, s, f);
        case Clear =>
        case Reload(fs) => ReloadKeepsOldClauses(speaker, s, fs);
      }
    }
  }

  /** Every run without reloads keeps the engine equal to the translated rule list. */
  lemma {:induction false} RunsWithoutReloadAgree(speaker: string, ops: seq<Op>)
    requires forall i :: 0 <= i < |ops| ==> !ops[i].Reload?
    ensures var s := Run(speaker, EMPTY_STATE, ops); Distinct(speaker, s.rules) && Agrees(speaker, s)
  {
    if ops != [] {
      RunsWithoutReloadAgree(speaker, ops[..|ops| - 1]);
      var s, op := Run(speaker, EMPTY_STATE, ops[..|ops| - 1]), ops[|ops| - 1];
      match op {
        case Assert(f) => AssertKeeps(speaker, s, f, {});
        case Retract(f) => RetractKeeps(speaker, s, f);
        case _ =>
      }
    }
  }

  // ----- the custom predicate, and what a caller is told

  /** The rule concludes `Subprin` of three arguments. */
  predicate DefinesCustom(f: Form) {
    Goal(f).Pred? && Goal(f).name == "Subprin" && |Goal(f).args| == 3
  }

  ghost predicate NeverCleared(ops: seq<Op>) {
    forall i :: 0 <= i < |ops| ==> !ops[i].Clear?
  }

  ghost predicate SparesCustom(s: State) {
    forall cl :: cl in s.clauses ==> !Refused(s, cl)
  }

  lemma RefusedRules(speaker: string, s: State, f: Form)
    requires Translate(speaker, f).Ok?
    ensures Refused(s, Translate(speaker, f).value) <==> s.custom && DefinesCustom(f)
  {
    AcceptedPieces(speaker, f);
    ConditionsAreFlattened(f, Goal(f));
  }

  lemma {:induction false} LoadingSparesCustom(speaker: string, s: State, fs: seq<Option<Form>>)
    requires SparesCustom(s)
    ensures AssertAll(speaker, s, fs).0.custom == s.custom && SparesCustom(AssertAll(speaker, s, fs).0)
    decreases fs
  {
    if fs != [] && fs[0].Some? {
      LoadingSparesCustom(speaker, AssertStep(speaker, s, fs[0].value).0, fs[1..]);
    }
  }

  lemma StepSparesCustom(speaker: string, s: State, op: Op)
    requires SparesCustom(s)
    ensures var s' := Step(speaker, s, op); (s'.custom <==> s.custom && !op.Clear?) && SparesCustom(s')
  {
    if op.Reload? {
      LoadingSparesCustom(speaker, s.(rules := []), op.fs);
    }
  }

  lemma NeverClearedSplits(ops: seq<Op>)
    requires ops != []
    ensures NeverCleared(ops) <==> NeverCleared(ops[..|ops| - 1]) && !ops[|ops| - 1].Clear?
  {
    assert forall i :: 0 <= i < |ops| - 1 ==> ops[i] == ops[..|ops| - 1][i];
  }

  /** The engine has the custom predicate until it is cleared, and meanwhile no clause for it. */
  lemma {:induction false} RunsSpareCustom(speaker: string, ops: seq<Op>)
    ensures var s := Run(speaker, EMPTY_STATE, ops); (s.custom <==> NeverCleared(ops)) && SparesCustom(s)
  {
    if ops != [] {
      var k := |ops| - 1;
      RunsSpareCustom(speaker, ops[..k]);
      StepSparesCustom(speaker, Run(speaker, EMPTY_STATE, ops[..k]), ops[k]);
      NeverClearedSplits(ops);
    }
  }

  /**
   What a caller of the guard is told after any run: a rule that is not supported is
   bad; one for the custom predicate is refused unless the guard was ever cleared;
   every other one is asserted, and retracted if it is listed.
   */
  lemma GuardAnswers(speaker: string, ops: seq<Op>, f: Form)
    ensures var s := Run(speaker, EMPTY_STATE, ops);
            var asserted, retracted := AssertStep(speaker, s, f).1, RetractStep(speaker, s, f).1;
            && (!Supported(f) ==> asserted.Some? && asserted.value.BadRule? && retracted == asserted)
            && (Supported(f) ==>
                  && Translate(speaker, f).Ok?
                  && asserted == (if DefinesCustom(f) && NeverCleared(ops) then Some(CustomPredicate) else None)
                  && retracted == (if IsListed(speaker, s.rules, Translate(speaker, f).value) then None
                                   else Some(NoSuchRule)))
  {
    TranslateAcceptsSupportedRules(speaker, f);
    if Supported(f) {
      var s, cl := Run(speaker, EMPTY_STATE, ops), Translate(speaker, f).value;
      RunsSpareCustom(speaker, ops);
      RunsKeepRulesCovered(speaker, ops);
      RefusedRules(speaker, s, f);
      IndexOfFindsListed(speaker, s.rules, cl);
    }
  }

  /**
   Together: after any run without reloads whose rules keep their meaning, a model
   satisfies all the listed policy formulas iff it is closed under everything in the
   engine.
   */
  lemma EngineMeansThePolicy(m: Model, speaker: string, ops: seq<Op>)
    requires forall i :: 0 <= i < |ops| ==> !ops[i].Reload?
    requires var s := Run(speaker, EMPTY_STATE, ops); forall i :: 0 <= i < |s.rules| ==> Faithful(s.rules[i])
    ensures var s := Run(speaker, EMPTY_STATE, ops);
            (forall i :: 0 <= i < |s.rules| ==> Holds(m, speaker, s.rules[i], map[])) <==>
              (forall cl :: cl in s.clauses ==> ClosedUnder(m, cl))
  {
    RunsWithoutReloadAgree(speaker, ops);
    var s := Run(speaker, EMPTY_STATE, ops);
    var ts := Translations(speaker, s.rules);
    forall i | 0 <= i < |ts|
      ensures ts[i].value in s.clauses
      ensures Holds(m, speaker, s.rules[i], map[]) <==> ClosedUnder(m, ts[i].value)
    {
      assert IsListed(speaker, s.rules, ts[i].value);
      TranslationPreservesMeaning(m, speaker, s.rules[i]);
    }
    forall cl | cl in s.clauses ensures exists i :: 0 <= i < |ts| && ts[i] == Ok(cl) {
      assert IsListed(speaker, s.rules, cl);
    }
  }

  /**
   After any run, reloads included, a model closed under everything in the engine
   satisfies every listed formula that keeps its meaning: the engine never enforces
   less than the list.
   */
  lemma EngineEnforcesTheList(m: Model, speaker: string, ops: seq<Op>, i: nat)
    requires i < |Run(speaker, EMPTY_STATE, ops).rules| && Faithful(Run(speaker, EMPTY_STATE, ops).rules[i])
    requires forall cl :: cl in Run(speaker, EMPTY_STATE, ops).clauses ==> ClosedUnder(m, cl)
    ensures Holds(m, speaker, Run(speaker, EMPTY_STATE, ops).rules[i], map[])
  {
    RunsKeepRulesCovered(speaker, ops);
    var s := Run(speaker, EMPTY_STATE, ops);
    var cl := Translations(speaker, s.rules)[i].value;
    assert IsListed(speaker, s.rules, cl);
    TranslationPreservesMeaning(m, speaker, s.rules[i]);
  }
}
