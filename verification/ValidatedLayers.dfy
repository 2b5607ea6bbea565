/**
 What validation checks, layer by layer: who signed, what the signature has to cover,
 and which names have to extend which.
 */
module ValidatedLayers {
  import opened Wrappers
  import opened Auth
  import opened Attestations
  import PcrName

  /** The layers of an attestation, outermost first. */
  function Layers(a: Attestation): (ls: seq<Attestation>)
    ensures |ls| >= 1
    decreases a
  {
    match a.delegation
    case Present(d) => [a] + Layers(d)
    case _ => [a]
  }

  /** No delegation on the way fails to parse. */
  predicate Parses(a: Attestation)
    decreases a
  {
    match a.delegation
    case Absent => true
    case Malformed => false
    case Present(d) => Parses(d)
  }

  /** The layer is about a `says` statement. */
  predicate IsStatement(c: Crypto, l: Attestation) {
    c.unmarshal(l.statement).Some? && c.unmarshal(l.statement).value.Says?
  }

  function StatementOf(c: Crypto, l: Attestation): Statement
    requires IsStatement(c, l)
  {
    c.unmarshal(l.statement).value
  }

  /** The speaker's name lists these registers and their values. */
  predicate NamesRegisters(c: Crypto, l: Attestation, nums: seq<int>, vals: seq<Byte>) {
    && IsStatement(c, l) && StatementOf(c, l).speaker.PrinTerm?
    && PcrName.Extract(l.signerType, StatementOf(c, l).speaker.prin) == Ok((nums, vals))
  }

  /** The layer's signature verifies: over the statement, and for a TPM over the registers naming the speaker too. */
  ghost predicate Signed(c: Crypto, l: Attestation) {
    || (l.signerType == "key" && c.verify(l.signerKey, l.statement, l.signature))
    || (l.signerType == "tpm" &&
        exists nums, vals :: NamesRegisters(c, l, nums, vals) &&
          c.verifyQuote(l.signerKey, l.statement, l.signature, nums, vals))
    || (l.signerType == "tpm2" &&
        exists nums, vals :: NamesRegisters(c, l, nums, vals) &&
          c.verifyQuote2(l.signerKey, l.statement, l.signature, l.quote, nums, vals))
  }

  /** The principal whose signature it is: the hash of the key, under the signer's type. */
  function SignerOf(c: Crypto, l: Attestation): Term {
    PrinTerm(Prin(l.signerType, Bytes(c.hash(l.signerKey)), []))
  }

  ghost predicate Genuine(c: Crypto, l: Attestation) {
    Signed(c, l) && IsStatement(c, l)
  }

  ghost predicate AllGenuine(c: Crypto, ls: seq<Attestation>) {
    forall i :: 0 <= i < |ls| ==> Genuine(c, ls[i])
  }

  /**
   The inner statement hands off to someone at or below the outer signer, from someone
   at or above the outer speaker.
   */
  ghost predicate HandsOff(c: Crypto, inner: Attestation, outer: Attestation)
    requires IsStatement(c, inner) && IsStatement(c, outer)
  {
    var d, own := StatementOf(c, inner), StatementOf(c, outer);
    && (exists delegate :: d.message == Speaksfor(delegate, d.speaker) && Extends(delegate, SignerOf(c, outer)))
    && Extends(own.speaker, d.speaker)
  }

  /**
   Every layer is genuine, the innermost speaks for a name below its signer, and each
   hands off to the one around it.
   */
  ghost predicate Accepted(c: Crypto, ls: seq<Attestation>)
    requires |ls| >= 1
  {
    && AllGenuine(c, ls)
    && Extends(StatementOf(c, ls[|ls| - 1]).speaker, SignerOf(c, ls[|ls| - 1]))
    && forall i :: 0 <= i < |ls| - 1 ==> HandsOff(c, ls[i + 1], ls[i])
  }

  lemma GenuineIsLink(c: Crypto, l: Attestation)
    ensures LinkOf(c, l).Some? <==> Genuine(c, l)
    ensures Genuine(c, l) ==> LinkOf(c, l) == Some(Link(SignerOf(c, l), StatementOf(c, l)))
  {
    if l.signerType == "tpm" || l.signerType == "tpm2" {
      var r := QuotedPcrs(c, l);
      if r.Ok? {
        assert NamesRegisters(c, l, r.value.0, r.value.1);
      }
    }
  }

  /** The links of an attestation are those of its layers. */
  lemma {:induction false} ChainIsLayers(c: Crypto, a: Attestation)
    ensures Chain(c, a).Some? <==> Parses(a) && AllGenuine(c, Layers(a))
    ensures Chain(c, a).Some? ==>
              && |Chain(c, a).value| == |Layers(a)|
              && forall i :: 0 <= i < |Layers(a)| ==>
                   Chain(c, a).value[i] == Link(SignerOf(c, Layers(a)[i]), StatementOf(c, Layers(a)[i]))
    decreases a
  {
    GenuineIsLink(c, a);
    assert Layers(a)[0] == a;
    if a.delegation.Present? {
      var d := a.delegation.att;
      ChainIsLayers(c, d);
      var ls := Layers(a);
      assert ls[0] == a && forall i :: 0 <= i < |Layers(d)| ==> Layers(d)[i] == ls[i + 1];
      assert AllGenuine(c, ls) <==> Genuine(c, a) && AllGenuine(c, Layers(d));
    }
  }

  lemma HandsOffIsAuthorizes(c: Crypto, inner: Attestation, outer: Attestation)
    requires IsStatement(c, inner) && IsStatement(c, outer)
    ensures HandsOff(c, inner, outer) <==>
              Authorizes(Link(SignerOf(c, inner), StatementOf(c, inner)),
                         Link(SignerOf(c, outer), StatementOf(c, outer)))
  {
    var d, own := StatementOf(c, inner), StatementOf(c, outer);
    SubprinIsExtension(own.speaker, d.speaker);
    if d.message.Speaksfor? {
      SubprinIsExtension(d.message.delegate, SignerOf(c, outer));
    }
  }

  /**
   Validation accepts exactly the attestations all of whose layers carry a signature
   that verifies under their own key, whose innermost speaker extends the name of the
   key that signed for it, and whose every inner layer hands off to the next; and it
   returns what the outermost layer says.
   */
  lemma ValidateChecksEveryLayer(c: Crypto, a: Attestation)
    ensures Validate(c, a).Ok? <==> Parses(a) && Accepted(c, Layers(a))
    ensures Validate(c, a).Ok? ==>
              && IsStatement(c, a)
              && Validate(c, a).value.speaker == StatementOf(c, a).speaker
              && Validate(c, a).value.message == StatementOf(c, a).message
  {
    ValidateAcceptsGoodChains(c, a);
    ChainIsLayers(c, a);
    assert Layers(a)[0] == a;
    if Parses(a) && AllGenuine(c, Layers(a)) {
      var ls, links := Layers(a), Chain(c, a).value;
      SubprinIsExtension(links[|ls| - 1].stmt.speaker, links[|ls| - 1].signer);
      forall i | 0 <= i < |ls| - 1 ensures HandsOff(c, ls[i + 1], ls[i]) <==> Authorizes(links[i + 1], links[i]) {
        HandsOffIsAuthorizes(c, ls[i + 1], ls[i]);
      }
    }
  }

  // ----- refusals

  predicate KnownSigner(l: Attestation) {
    l.signerType == "key" || l.signerType == "tpm" || l.signerType == "tpm2"
  }

  /** The statement inside the layer's delegation. */
  predicate HasInner(c: Crypto, l: Attestation) {
    l.delegation.Present? && IsStatement(c, l.delegation.att)
  }

  function Inner(c: Crypto, l: Attestation): Statement
    requires HasInner(c, l)
  {
    StatementOf(c, l.delegation.att)
  }

  /** The layer is what the error complains of. */
  ghost predicate Explains(c: Crypto, l: Attestation, e: ValidationError) {
    match e
    case UnknownSignerType => !KnownSigner(l)
    case BadSignature => KnownSigner(l) && !Signed(c, l)
    case BadStatement => c.unmarshal(l.statement).None?
    case NotSays => c.unmarshal(l.statement).Some? && !IsStatement(c, l)
    case SpeakerNotPrin => l.signerType != "key" && IsStatement(c, l) && !StatementOf(c, l).speaker.PrinTerm?
    case BadPcrs => l.signerType != "key" && IsStatement(c, l) && !exists nums, vals :: NamesRegisters(c, l, nums, vals)
    case SignerNotIssuer =>
      l.delegation.Absent? && IsStatement(c, l) && !Extends(StatementOf(c, l).speaker, SignerOf(c, l))
    case BadDelegation => l.delegation.Malformed?
    case NotADelegation => HasInner(c, l) && !Inner(c, l).message.Speaksfor?
    case DelegatorMismatch =>
      HasInner(c, l) && Inner(c, l).message.Speaksfor? && Inner(c, l).message.delegator != Inner(c, l).speaker
    case IrrelevantToSigner =>
      HasInner(c, l) && Inner(c, l).message.Speaksfor? && !Extends(Inner(c, l).message.delegate, SignerOf(c, l))
    case IrrelevantToIssuer =>
      HasInner(c, l) && IsStatement(c, l) && !Extends(StatementOf(c, l).speaker, Inner(c, l).speaker)
  }

  lemma SignerRefusal(c: Crypto, a: Attestation)
    ensures ValidSigner(c, a).Err? ==> Explains(c, a, ValidSigner(c, a).error)
    ensures ValidSigner(c, a).Ok? ==> PrinTerm(ValidSigner(c, a).value) == SignerOf(c, a)
  {
    if ValidSigner(c, a).Err? && QuotedPcrs(c, a).Ok? {
      assert NamesRegisters(c, a, QuotedPcrs(c, a).value.0, QuotedPcrs(c, a).value.1);
    }
  }

  lemma CombineRefusal(c: Crypto, a: Attestation)
    requires a.delegation.Present? && Validate(c, a.delegation.att).Ok? && Validate(c, a).Err?
    requires ValidSigner(c, a).Ok? && IsStatement(c, a)
    ensures Explains(c, a, Validate(c, a).error)
  {
    SignerRefusal(c, a);
    ValidateChecksEveryLayer(c, a.delegation.att);
    var d := Inner(c, a);
    if d.message.Speaksfor? {
      SubprinIsExtension(d.message.delegate, SignerOf(c, a));
      SubprinIsExtension(StatementOf(c, a).speaker, d.speaker);
    }
  }

  /** Whatever error validation returns, some layer of the attestation is as the error says. */
  lemma {:induction false} RefusalsHaveTheirReason(c: Crypto, a: Attestation)
    requires Validate(c, a).Err?
    ensures exists l :: l in Layers(a) && Explains(c, l, Validate(c, a).error)
    decreases a
  {
    SignerRefusal(c, a);
    assert a in Layers(a) by {
      assert Layers(a)[0] == a;
    }
    if ValidSigner(c, a).Ok? && IsStatement(c, a) {
      if a.delegation.Absent? {
        SubprinIsExtension(StatementOf(c, a).speaker, SignerOf(c, a));
      } else if a.delegation.Present? && Validate(c, a.delegation.att).Err? {
        RefusalsHaveTheirReason(c, a.delegation.att);
      } else if a.delegation.Present? {
        CombineRefusal(c, a);
      }
    }
  }
}
