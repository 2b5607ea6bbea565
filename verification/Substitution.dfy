/**
 Closed terms, substitution into terms, and when substitution can be undone.
 */
module Substitution {
  import opened Auth

  type Env = map<string, Term>

  predicate ClosedTerm(t: Term)
    decreases t
  {
    match t
    case Var(_) => false
    case PrinTerm(p) => ClosedTerm(p.keyHash) && ClosedExts(p.ext)
    case TailTerm(es) => ClosedExts(es)
    case _ => true
  }

  predicate ClosedExts(es: seq<PrinExt>)
    decreases es
  {
    forall i :: 0 <= i < |es| ==> ClosedTerms(es[i].args)
  }

  predicate ClosedTerms(ts: seq<Term>)
    decreases ts
  {
    forall i :: 0 <= i < |ts| ==> ClosedTerm(ts[i])
  }

  /** Some variable of `vs` occurs in the term, at any depth, tails included. */
  predicate Mentions(t: Term, vs: set<string>)
    decreases t
  {
    match t
    case Var(n) => n in vs
    case PrinTerm(p) => Mentions(p.keyHash, vs) || ExtsMention(p.ext, vs)
    case TailTerm(es) => ExtsMention(es, vs)
    case _ => false
  }

  predicate ExtsMention(es: seq<PrinExt>, vs: set<string>)
    decreases es
  {
    exists i :: 0 <= i < |es| && TermsMention(es[i].args, vs)
  }

  predicate TermsMention(ts: seq<Term>, vs: set<string>)
    decreases ts
  {
    exists i :: 0 <= i < |ts| && Mentions(ts[i], vs)
  }

  function Subst(t: Term, env: Env): Term
    decreases t
  {
    match t
    case Var(n) => if n in env then env[n] else t
    case PrinTerm(p) => PrinTerm(Prin(p.typ, Subst(p.keyHash, env), SubstExts(p.ext, env)))
    case TailTerm(es) => TailTerm(SubstExts(es, env))
    case _ => t
  }

  function SubstExts(es: seq<PrinExt>, env: Env): (r: seq<PrinExt>)
    ensures |r| == |es|
    decreases es
  {
    seq(|es|, i requires 0 <= i < |es| => PrinExt(es[i].name, SubstAll(es[i].args, env)))
  }

  function SubstAll(ts: seq<Term>, env: Env): (r: seq<Term>)
    ensures |r| == |ts|
    decreases ts
  {
    seq(|ts|, i requires 0 <= i < |ts| => Subst(ts[i], env))
  }

  // ----- what substitution leaves alone

  lemma {:induction false} SubstIgnores(t: Term, env: Env)
    requires !Mentions(t, env.Keys)
    ensures Subst(t, env) == t
    decreases t
  {
    match t {
      case PrinTerm(p) =>
        SubstIgnores(p.keyHash, env);
        SubstIgnoresExts(p.ext, env);
      case TailTerm(es) => SubstIgnoresExts(es, env);
      case _ =>
    }
  }

  lemma {:induction false} SubstIgnoresExts(es: seq<PrinExt>, env: Env)
    requires !ExtsMention(es, env.Keys)
    ensures SubstExts(es, env) == es
    decreases es
  {
    forall i | 0 <= i < |es| ensures SubstExts(es, env)[i] == es[i] {
      SubstIgnoresTerms(es[i].args, env);
    }
  }

  lemma {:induction false} SubstIgnoresTerms(ts: seq<Term>, env: Env)
    requires !TermsMention(ts, env.Keys)
    ensures SubstAll(ts, env) == ts
    decreases ts
  {
    forall i | 0 <= i < |ts| ensures SubstAll(ts, env)[i] == ts[i] {
      SubstIgnores(ts[i], env);
    }
  }

  // ----- what substitution removes

  ghost predicate ClosedEnv(env: Env) {
    forall x :: x in env ==> ClosedTerm(env[x])
  }

  lemma {:induction false} ClosedMentionsNothing(t: Term, vs: set<string>)
    requires ClosedTerm(t)
    ensures !Mentions(t, vs)
    decreases t
  {
    match t {
      case PrinTerm(p) =>
        ClosedMentionsNothing(p.keyHash, vs);
        ClosedExtsMentionNothing(p.ext, vs);
      case TailTerm(es) => ClosedExtsMentionNothing(es, vs);
      case _ =>
    }
  }

  lemma {:induction false} ClosedExtsMentionNothing(es: seq<PrinExt>, vs: set<string>)
    requires ClosedExts(es)
    ensures !ExtsMention(es, vs)
    decreases es
  {
    forall i | 0 <= i < |es| ensures !TermsMention(es[i].args, vs) {
      ClosedTermsMentionNothing(es[i].args, vs);
    }
  }

  lemma {:induction false} ClosedTermsMentionNothing(ts: seq<Term>, vs: set<string>)
    requires ClosedTerms(ts)
    ensures !TermsMention(ts, vs)
    decreases ts
  {
    forall i | 0 <= i < |ts| ensures !Mentions(ts[i], vs) {
      ClosedMentionsNothing(ts[i], vs);
    }
  }

  /** Substituting closed terms leaves no trace of the variables. */
  lemma {:induction false} SubstClears(t: Term, env: Env)
    requires ClosedEnv(env)
    ensures !Mentions(Subst(t, env), env.Keys)
    decreases t
  {
    match t {
      case Var(n) =>
        if n in env {
          ClosedMentionsNothing(env[n], env.Keys);
        }
      case PrinTerm(p) =>
        SubstClears(p.keyHash, env);
        SubstClearsExts(p.ext, env);
      case TailTerm(es) => SubstClearsExts(es, env);
      case _ =>
    }
  }

  lemma {:induction false} SubstClearsExts(es: seq<PrinExt>, env: Env)
    requires ClosedEnv(env)
    ensures !ExtsMention(SubstExts(es, env), env.Keys)
    decreases es
  {
    forall i | 0 <= i < |es| ensures !TermsMention(SubstExts(es, env)[i].args, env.Keys) {
      SubstClearsTerms(es[i].args, env);
    }
  }

  lemma {:induction false} SubstClearsTerms(ts: seq<Term>, env: Env)
    requires ClosedEnv(env)
    ensures !TermsMention(SubstAll(ts, env), env.Keys)
    decreases ts
  {
    forall i | 0 <= i < |ts| ensures !Mentions(SubstAll(ts, env)[i], env.Keys) {
      SubstClears(ts[i], env);
    }
  }

  // ----- fresh terms, and undoing their substitution

  /** All strings in the term are shorter than `n`. */
  predicate Short(t: Term, n: nat)
    decreases t
  {
    match t
    case Str(s) => |s| < n
    case PrinTerm(p) => Short(p.keyHash, n) && ShortExts(p.ext, n)
    case TailTerm(es) => ShortExts(es, n)
    case _ => true
  }

  predicate ShortExts(es: seq<PrinExt>, n: nat)
    decreases es
  {
    forall i :: 0 <= i < |es| ==> ShortTerms(es[i].args, n)
  }

  predicate ShortTerms(ts: seq<Term>, n: nat)
    decreases ts
  {
    forall i :: 0 <= i < |ts| ==> Short(ts[i], n)
  }

  /** A length that is more than that of any string in the term. */
  function TermBound(t: Term): nat
    decreases t
  {
    match t
    case Str(s) => |s| + 1
    case PrinTerm(p) => TermBound(p.keyHash) + ExtsBound(p.ext)
    case TailTerm(es) => ExtsBound(es)
    case _ => 0
  }

  function ExtsBound(es: seq<PrinExt>): nat
    decreases es
  {
    if es == [] then 0 else TermsBound(es[0].args) + ExtsBound(es[1..])
  }

  function TermsBound(ts: seq<Term>): nat
    decreases ts
  {
    if ts == [] then 0 else TermBound(ts[0]) + TermsBound(ts[1..])
  }

  lemma {:induction false} TermBoundHolds(t: Term, n: nat)
    requires TermBound(t) <= n
    ensures Short(t, n)
    decreases t
  {
    match t {
      case PrinTerm(p) =>
        TermBoundHolds(p.keyHash, n);
        ExtsBoundHolds(p.ext, n);
      case TailTerm(es) => ExtsBoundHolds(es, n);
      case _ =>
    }
  }

  lemma {:induction false} ExtsBoundHolds(es: seq<PrinExt>, n: nat)
    requires ExtsBound(es) <= n
    ensures ShortExts(es, n)
    decreases es
  {
    if es != [] {
      TermsBoundHolds(es[0].args, n);
      ExtsBoundHolds(es[1..], n);
      assert forall i :: 1 <= i < |es| ==> es[i] == es[1..][i - 1];
    }
  }

  lemma {:induction false} TermsBoundHolds(ts: seq<Term>, n: nat)
    requires TermsBound(ts) <= n
    ensures ShortTerms(ts, n)
    decreases ts
  {
    if ts != [] {
      TermBoundHolds(ts[0], n);
      TermsBoundHolds(ts[1..], n);
      assert forall i :: 1 <= i < |ts| ==> ts[i] == ts[1..][i - 1];
    }
  }

  function Padding(n: nat): (s: string)
    ensures |s| == n
  {
    seq(n, i => ' ')
  }

  /** Gives each variable a closed term of its own, longer than any short string. */
  function FreshEnv(vs: set<string>, n: nat): (env: Env)
    ensures env.Keys == vs && ClosedEnv(env)
  {
    map x | x in vs :: Str(Padding(n) + x)
  }

  lemma FreshIsDistinct(n: nat, x: string, y: string)
    requires Padding(n) + x == Padding(n) + y
    ensures x == y
  {
    assert (Padding(n) + x)[n..] == x && (Padding(n) + y)[n..] == y;
  }

  /** Short terms that look alike after a fresh substitution are the same. */
  lemma {:induction false} FreshSubstInjective(s: Term, t: Term, vs: set<string>, n: nat)
    requires Short(s, n) && Short(t, n)
    requires Subst(s, FreshEnv(vs, n)) == Subst(t, FreshEnv(vs, n))
    ensures s == t
    decreases s
  {
    var env := FreshEnv(vs, n);
    if s.Var? && t.Var? {
      if s.name in vs && t.name in vs {
        FreshIsDistinct(n, s.name, t.name);
      }
    } else if s.PrinTerm? && t.PrinTerm? {
      FreshSubstInjective(s.prin.keyHash, t.prin.keyHash, vs, n);
      FreshSubstInjectiveExts(s.prin.ext, t.prin.ext, vs, n);
    } else if s.TailTerm? && t.TailTerm? {
      FreshSubstInjectiveExts(s.tail, t.tail, vs, n);
    }
  }

  lemma {:induction false} FreshSubstInjectiveExts(es: seq<PrinExt>, fs: seq<PrinExt>, vs: set<string>, n: nat)
    requires ShortExts(es, n) && ShortExts(fs, n)
    requires SubstExts(es, FreshEnv(vs, n)) == SubstExts(fs, FreshEnv(vs, n))
    ensures es == fs
    decreases es
  {
    var env := FreshEnv(vs, n);
    assert |es| == |SubstExts(es, env)| == |fs|;
    forall i | 0 <= i < |es| ensures es[i] == fs[i] {
      assert SubstExts(es, env)[i] == SubstExts(fs, env)[i];
      FreshSubstInjectiveTerms(es[i].args, fs[i].args, vs, n);
    }
  }

  lemma {:induction false} FreshSubstInjectiveTerms(ts: seq<Term>, us: seq<Term>, vs: set<string>, n: nat)
    requires ShortTerms(ts, n) && ShortTerms(us, n)
    requires SubstAll(ts, FreshEnv(vs, n)) == SubstAll(us, FreshEnv(vs, n))
    ensures ts == us
    decreases ts
  {
    var env := FreshEnv(vs, n);
    assert |ts| == |SubstAll(ts, env)| == |us|;
    forall i | 0 <= i < |ts| ensures ts[i] == us[i] {
      assert SubstAll(ts, env)[i] == SubstAll(us, env)[i];
      FreshSubstInjective(ts[i], us[i], vs, n);
    }
  }
}
