/**
 What an attestation is meant to convey, as a time-indexed logic of `says` and
 `speaksfor`, and the proof that validation is faithful to it.
 */
module SaysLogic {
  import opened Auth
  import opened Attestations

  /** Who says what, and who speaks for whom, at each time. */
  datatype Interpretation = Interpretation(
    says: (Term, int, Form) -> bool,
    speaksFor: (Term, Term, int) -> bool)

  ghost predicate SubprincipalRule(m: Interpretation) {
    forall p, q, t :: SubprinOrIdentical(q, p) ==> m.speaksFor(p, q, t)
  }

  ghost predicate TransitivityRule(m: Interpretation) {
    forall p, q, r, t :: m.speaksFor(p, q, t) && m.speaksFor(q, r, t) ==> m.speaksFor(p, r, t)
  }

  ghost predicate HandOffRule(m: Interpretation) {
    forall p, q, t :: m.says(q, t, Speaksfor(p, q)) ==> m.speaksFor(p, q, t)
  }

  ghost predicate SpeakingRule(m: Interpretation) {
    forall p, q, t, f :: m.speaksFor(p, q, t) && m.says(p, t, f) ==> m.says(q, t, f)
  }

  /** A principal that says it says something, says it, while the restriction is met. */
  ghost predicate SelfRule(m: Interpretation) {
    forall p, t, s: Statement :: m.says(p, t, s) && s.speaker == p && InWindow(s, t) ==> m.says(p, t, s.message)
  }

  ghost predicate Closed(m: Interpretation) {
    SubprincipalRule(m) && TransitivityRule(m) && HandOffRule(m) && SpeakingRule(m) && SelfRule(m)
  }

  /** Every signer on the chain says the statement it signed. */
  ghost predicate ContainsChain(m: Interpretation, links: seq<Link>) {
    forall i, t :: 0 <= i < |links| ==> m.says(links[i].signer, t, links[i].stmt)
  }

  /**
   Soundness: what `Validate` returns follows from the signed statements.  Its
   speaker says its message at every time in the returned window.
   */
  lemma {:induction false} ValidateIsSound(m: Interpretation, c: Crypto, a: Attestation, t: int)
    requires Validate(c, a).Ok? && InWindow(Validate(c, a).value, t)
    requires Closed(m)
    requires Chain(c, a).Some? ==> ContainsChain(m, Chain(c, a).value)
    ensures m.says(Validate(c, a).value.speaker, t, Validate(c, a).value.message)
  {
    ValidateAcceptsGoodChains(c, a);
    ValidateIntersectsWindows(c, a, t);
    GoodLinksAreSound(m, Chain(c, a).value, t);
  }

  /** Soundness of a list of links, by induction from the innermost one outwards. */
  lemma {:induction false} GoodLinksAreSound(m: Interpretation, links: seq<Link>, t: int)
    requires Closed(m) && GoodLinks(links) && ContainsChain(m, links)
    requires forall i :: 0 <= i < |links| ==> InWindow(links[i].stmt, t)
    ensures m.says(links[0].stmt.speaker, t, links[0].stmt.message)
  {
    var own := links[0];
    assert m.says(own.signer, t, own.stmt);
    if |links| == 1 {
      assert m.speaksFor(own.signer, own.stmt.speaker, t);
    } else {
      assert links == [own] + links[1..];
      GoodLinksStep(own, links[1..]);
      GoodLinksAreSound(m, links[1..], t);
      DelegatedStatement(m, own.signer, own.stmt, links[1].stmt, t);
    }
  }

  /** One use of a delegation: signer, delegate, delegator and issuer speak for each other in turn. */
  lemma DelegatedStatement(m: Interpretation, signer: Term, stmt: Statement, d: Statement, t: int)
    requires Closed(m)
    requires m.says(signer, t, stmt) && InWindow(stmt, t)
    requires d.message.Speaksfor? && d.message.delegator == d.speaker
    requires m.says(d.speaker, t, d.message)
    requires SubprinOrIdentical(d.message.delegate, signer) && SubprinOrIdentical(stmt.speaker, d.speaker)
    ensures m.says(stmt.speaker, t, stmt.message)
  {
    assert d.message == Speaksfor(d.message.delegate, d.speaker);
    assert m.speaksFor(signer, d.message.delegate, t);
    assert m.speaksFor(d.message.delegate, d.speaker, t);
    assert m.speaksFor(d.speaker, stmt.speaker, t);
    assert m.speaksFor(signer, d.speaker, t);
    assert m.speaksFor(signer, stmt.speaker, t);
    assert m.says(stmt.speaker, t, stmt);
  }

  /** An accepted delegation really makes the delegate speak for the delegator. */
  lemma ValidatedDelegationHolds(m: Interpretation, c: Crypto, a: Attestation, delegate: Term, t: int)
    requires Validate(c, a).Ok? && InWindow(Validate(c, a).value, t)
    requires Closed(m)
    requires Chain(c, a).Some? ==> ContainsChain(m, Chain(c, a).value)
    requires Validate(c, a).value.message == Speaksfor(delegate, Validate(c, a).value.speaker)
    ensures m.speaksFor(delegate, Validate(c, a).value.speaker, t)
  {
    ValidateIsSound(m, c, a, t);
  }

  /** Only `signer` and its subprincipals speak, and all they ever say is `stmt`. */
  ghost function OnlySubprincipals(signer: Term, stmt: Statement): Interpretation {
    Interpretation(
      (p: Term, t: int, f: Form) => SubprinOrIdentical(p, signer) && f == stmt,
      (p: Term, q: Term, t: int) => SubprinOrIdentical(q, p))
  }

  ghost predicate SaysThroughout(m: Interpretation, s: Statement) {
    forall t :: InWindow(s, t) ==> m.says(s.speaker, t, s.message)
  }

  /**
   Without a delegation, acceptance is exact: a genuine attestation with a
   satisfiable window is accepted if and only if its conclusion holds in every
   closed interpretation that contains the signed statement.
   */
  lemma UndelegatedAcceptanceIsExact(c: Crypto, a: Attestation, t: int)
    requires a.delegation.Absent? && LinkOf(c, a).Some?
    requires InWindow(LinkOf(c, a).value.stmt, t)
    ensures Validate(c, a).Ok? <==>
              forall m :: Closed(m) && ContainsChain(m, [LinkOf(c, a).value]) ==>
                SaysThroughout(m, LinkOf(c, a).value.stmt)
  {
    var Link(signer, stmt) := LinkOf(c, a).value;
    if Validate(c, a).Ok? {
      forall m | Closed(m) && ContainsChain(m, [Link(signer, stmt)])
        ensures SaysThroughout(m, stmt)
      {
        forall u | InWindow(stmt, u) ensures m.says(stmt.speaker, u, stmt.message) {
          ValidateIsSound(m, c, a, u);
        }
      }
    } else {
      var m := OnlySubprincipals(signer, stmt);
      assert !SubprinOrIdentical(stmt.speaker, signer);
      assert Closed(m) && ContainsChain(m, [Link(signer, stmt)]);
      assert !m.says(stmt.speaker, t, stmt.message);
    }
  }
}
