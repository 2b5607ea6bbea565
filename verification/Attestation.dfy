/**
 Attestations and their validation.  An attestation carries a statement, a
 signature over it and, unless the signer evidently speaks for the issuer, a
 nested attestation that delegates to the signer.
 */
module Attestations {
  import opened Wrappers
  import opened Sequences
  import opened Auth
  import PcrName

  /** A formula `speaker from time until expiration says message`. */
  type Statement = f: Form | f.Says? witness Says(Str(""), None, None, Const(true))

  /** `Malformed` stands for delegation bytes that do not parse. */
  datatype Delegation = Absent | Malformed | Present(att: Attestation)

  datatype Attestation = Attestation(
    statement: seq<Byte>,
    signature: seq<Byte>,
    signerType: string,
    signerKey: seq<Byte>,
    quote: seq<Byte>,
    delegation: Delegation,
    endorsement: Option<seq<Byte>>)

  /** The cryptography and the binary form codec, which this model leaves open. */
  datatype Crypto = Crypto(
    marshal: Form -> seq<Byte>,
    unmarshal: seq<Byte> -> Option<Form>,
    hash: seq<Byte> -> seq<Byte>,
    verify: (seq<Byte>, seq<Byte>, seq<Byte>) -> bool,
    verifyQuote: (seq<Byte>, seq<Byte>, seq<Byte>, seq<int>, seq<Byte>) -> bool,
    verifyQuote2: (seq<Byte>, seq<Byte>, seq<Byte>, seq<Byte>, seq<int>, seq<Byte>) -> bool)

  datatype ValidationError =
    | BadStatement | NotSays | SpeakerNotPrin | BadPcrs | BadSignature | UnknownSignerType
    | SignerNotIssuer | BadDelegation | NotADelegation | DelegatorMismatch | IrrelevantToSigner | IrrelevantToIssuer

  function NewPrin(c: Crypto, typ: string, key: seq<Byte>): Prin {
    Prin(typ, Bytes(c.hash(key)), [])
  }

  /** The registers a TPM signature must cover: those named by the statement's speaker. */
  function QuotedPcrs(c: Crypto, a: Attestation): Result<(seq<int>, seq<Byte>), ValidationError> {
    match c.unmarshal(a.statement)
    case None => Err(BadStatement)
    case Some(f) =>
      if !f.Says? then Err(NotSays)
      else if !f.speaker.PrinTerm? then Err(SpeakerNotPrin)
      else
        match PcrName.Extract(a.signerType, f.speaker.prin)
        case Err(_) => Err(BadPcrs)
        case Ok(pcrs) => Ok(pcrs)
  }

  function ValidSigner(c: Crypto, a: Attestation): Result<Prin, ValidationError> {
    var signer := NewPrin(c, a.signerType, a.signerKey);
    if a.signerType == "tpm" then
      match QuotedPcrs(c, a)
      case Err(e) => Err(e)
      case Ok((nums, vals)) =>
        if c.verifyQuote(a.signerKey, a.statement, a.signature, nums, vals) then Ok(signer) else Err(BadSignature)
    else if a.signerType == "tpm2" then
      match QuotedPcrs(c, a)
      case Err(e) => Err(e)
      case Ok((nums, vals)) =>
        if c.verifyQuote2(a.signerKey, a.statement, a.signature, a.quote, nums, vals) then Ok(signer)
        else Err(BadSignature)
    else if a.signerType == "key" then
      if c.verify(a.signerKey, a.statement, a.signature) then Ok(signer) else Err(BadSignature)
    else Err(UnknownSignerType)
  }

  /**
   A TPM is a valid signer iff its quote covers exactly the registers that the
   speaker's name was made from, however that name has been extended since.
   */
  lemma QuoteCoversNamedRegisters(c: Crypto, a: Attestation, speaker: Prin, nums: seq<int>, vals: seq<seq<Byte>>,
                                  more: seq<PrinExt>)
    requires a.signerType == "tpm" || a.signerType == "tpm2"
    requires speaker.typ == a.signerType && speaker.ext == [PcrName.PcrExt(nums, vals)] + more
    requires c.unmarshal(a.statement).Some? && c.unmarshal(a.statement).value.Says?
    requires c.unmarshal(a.statement).value.speaker == PrinTerm(speaker)
    ensures ValidSigner(c, a).Ok? <==>
              && PcrName.Readable(nums, vals)
              && (if a.signerType == "tpm"
                  then c.verifyQuote(a.signerKey, a.statement, a.signature, nums, Concat(vals))
                  else c.verifyQuote2(a.signerKey, a.statement, a.signature, a.quote, nums, Concat(vals)))
    ensures ValidSigner(c, a).Ok? ==> ValidSigner(c, a).value == NewPrin(c, a.signerType, a.signerKey)
  {
    PcrName.PcrNameRoundTrip(a.signerType, speaker.keyHash, nums, vals, more);
    assert speaker == Prin(a.signerType, speaker.keyHash, [PcrName.PcrExt(nums, vals)] + more);
  }

  /** The later of two commencement times; a missing one is no constraint. */
  function LaterStart(own: Option<int>, delegated: Option<int>): Option<int> {
    if own.None? then delegated
    else if delegated.Some? && own.value < delegated.value then delegated
    else own
  }

  /** The earlier of two expirations; a missing one is no constraint. */
  function EarlierEnd(own: Option<int>, delegated: Option<int>): Option<int> {
    if own.None? then delegated
    else if delegated.Some? && own.value > delegated.value then delegated
    else own
  }

  function Validate(c: Crypto, a: Attestation): Result<Statement, ValidationError>
    decreases a
  {
    match ValidSigner(c, a)
    case Err(e) => Err(e)
    case Ok(signer) =>
      match c.unmarshal(a.statement)
      case None => Err(BadStatement)
      case Some(stmt) =>
        if !stmt.Says? then Err(NotSays)
        else
          match a.delegation
          case Absent =>
            if SubprinOrIdentical(stmt.speaker, PrinTerm(signer)) then Ok(stmt) else Err(SignerNotIssuer)
          case Malformed => Err(BadDelegation)
          case Present(da) =>
            match Validate(c, da)
            case Err(e) => Err(e)
            case Ok(d) => Combine(signer, stmt, d)
  }

  /** Uses a validated delegation to accept a statement signed by someone else. */
  function Combine(signer: Prin, stmt: Statement, d: Statement): Result<Statement, ValidationError> {
    if !d.message.Speaksfor? then Err(NotADelegation)
    else if d.speaker != d.message.delegator then Err(DelegatorMismatch)
    else if !SubprinOrIdentical(d.message.delegate, PrinTerm(signer)) then Err(IrrelevantToSigner)
    else if !SubprinOrIdentical(stmt.speaker, d.message.delegator) then Err(IrrelevantToIssuer)
    else Ok(Says(stmt.speaker, LaterStart(stmt.time, d.time), EarlierEnd(stmt.expiration, d.expiration), stmt.message))
  }

  // ----- a chain seen as a list, outermost link first

  /** What one signed layer of a chain conveys: `signer says stmt`. */
  datatype Link = Link(signer: Term, stmt: Statement)

  /** The link of an attestation whose signature verifies over a `says` statement. */
  function LinkOf(c: Crypto, a: Attestation): Option<Link> {
    match (ValidSigner(c, a), c.unmarshal(a.statement))
    case (Ok(signer), Some(stmt)) => if stmt.Says? then Some(Link(PrinTerm(signer), stmt)) else None
    case _ => None
  }

  /** All links of a chain, if every layer parses and carries a valid signature. */
  function Chain(c: Crypto, a: Attestation): (r: Option<seq<Link>>)
    ensures r.Some? ==> |r.value| >= 1
    decreases a
  {
    match LinkOf(c, a)
    case None => None
    case Some(link) =>
      match a.delegation
      case Absent => Some([link])
      case Malformed => None
      case Present(da) =>
        match Chain(c, da)
        case None => None
        case Some(rest) => Some([link] + rest)
  }

  /** The inner link delegates from a principal above the outer link's issuer to one below its signer. */
  predicate Authorizes(inner: Link, outer: Link) {
    && inner.stmt.message.Speaksfor?
    && inner.stmt.message.delegator == inner.stmt.speaker
    && SubprinOrIdentical(inner.stmt.message.delegate, outer.signer)
    && SubprinOrIdentical(outer.stmt.speaker, inner.stmt.speaker)
  }

  ghost predicate GoodLinks(links: seq<Link>) {
    && |links| >= 1
    && SubprinOrIdentical(links[|links| - 1].stmt.speaker, links[|links| - 1].signer)
    && forall i :: 0 <= i < |links| - 1 ==> Authorizes(links[i + 1], links[i])
  }

  lemma GoodLinksStep(link: Link, rest: seq<Link>)
    requires |rest| >= 1
    ensures GoodLinks([link] + rest) <==> GoodLinks(rest) && Authorizes(rest[0], link)
  {
    var links := [link] + rest;
    assert links[0] == link && forall i :: 0 <= i < |rest| ==> rest[i] == links[i + 1];
    if GoodLinks(links) {
      assert Authorizes(links[1], links[0]);
      forall i | 0 <= i < |rest| - 1 ensures Authorizes(rest[i + 1], rest[i]) {
        assert Authorizes(links[i + 1 + 1], links[i + 1]);
      }
    }
  }

  /** One delegated layer of validation, in terms of the layer below it. */
  lemma ValidateStep(c: Crypto, a: Attestation)
    requires a.delegation.Present?
    ensures Validate(c, a).Ok? <==>
              && LinkOf(c, a).Some? && Validate(c, a.delegation.att).Ok?
              && Authorizes(Link(LinkOf(c, a).value.signer, Validate(c, a.delegation.att).value), LinkOf(c, a).value)
    ensures Validate(c, a).Ok? ==>
              var own, d := LinkOf(c, a).value.stmt, Validate(c, a.delegation.att).value;
              Validate(c, a).value ==
                Says(own.speaker, LaterStart(own.time, d.time), EarlierEnd(own.expiration, d.expiration), own.message)
  {
  }

  /**
   `Validate` accepts exactly the chains in which every link is genuine and
   authorizes the one before it, and returns the outermost speaker and message.
   */
  lemma {:induction false} ValidateAcceptsGoodChains(c: Crypto, a: Attestation)
    ensures Validate(c, a).Ok? <==> Chain(c, a).Some? && GoodLinks(Chain(c, a).value)
    ensures Validate(c, a).Ok? ==>
              var s, own := Validate(c, a).value, Chain(c, a).value[0].stmt;
              s.speaker == own.speaker && s.message == own.message
    decreases a
  {
    if a.delegation.Present? {
      ValidateAcceptsGoodChains(c, a.delegation.att);
      ValidateStep(c, a);
      if LinkOf(c, a).Some? && Chain(c, a.delegation.att).Some? {
        GoodLinksStep(LinkOf(c, a).value, Chain(c, a.delegation.att).value);
      }
    }
  }

  // ----- validity windows

  predicate InWindow(s: Statement, t: int) {
    && (s.time.Some? ==> s.time.value <= t)
    && (s.expiration.Some? ==> t <= s.expiration.value)
  }

  ghost predicate IsLatestStart(bound: Option<int>, links: seq<Link>) {
    match bound
    case None => forall i :: 0 <= i < |links| ==> links[i].stmt.time.None?
    case Some(start) =>
      && (exists i :: 0 <= i < |links| && links[i].stmt.time == bound)
      && (forall i :: 0 <= i < |links| ==> links[i].stmt.time.Some? ==> links[i].stmt.time.value <= start)
  }

  ghost predicate IsEarliestEnd(bound: Option<int>, links: seq<Link>) {
    match bound
    case None => forall i :: 0 <= i < |links| ==> links[i].stmt.expiration.None?
    case Some(end) =>
      && (exists i :: 0 <= i < |links| && links[i].stmt.expiration == bound)
      && (forall i :: 0 <= i < |links| ==> links[i].stmt.expiration.Some? ==> end <= links[i].stmt.expiration.value)
  }

  lemma CombinedStart(link: Link, inner: Option<int>, rest: seq<Link>)
    requires IsLatestStart(inner, rest)
    ensures IsLatestStart(LaterStart(link.stmt.time, inner), [link] + rest)
  {
    var links, bound := [link] + rest, LaterStart(link.stmt.time, inner);
    assert links[0] == link && forall i :: 0 <= i < |rest| ==> rest[i] == links[i + 1];
    if bound.Some? && bound != link.stmt.time {
      var i :| 0 <= i < |rest| && rest[i].stmt.time == inner;
      assert links[i + 1].stmt.time == bound;
    }
  }

  lemma CombinedEnd(link: Link, inner: Option<int>, rest: seq<Link>)
    requires IsEarliestEnd(inner, rest)
    ensures IsEarliestEnd(EarlierEnd(link.stmt.expiration, inner), [link] + rest)
  {
    var links, bound := [link] + rest, EarlierEnd(link.stmt.expiration, inner);
    assert links[0] == link && forall i :: 0 <= i < |rest| ==> rest[i] == links[i + 1];
    if bound.Some? && bound != link.stmt.expiration {
      var i :| 0 <= i < |rest| && rest[i].stmt.expiration == inner;
      assert links[i + 1].stmt.expiration == bound;
    }
  }

  /** The returned bounds are the tightest ones found anywhere on the chain. */
  lemma {:induction false} ValidateTightensBounds(c: Crypto, a: Attestation)
    requires Validate(c, a).Ok?
    ensures Chain(c, a).Some?
    ensures IsLatestStart(Validate(c, a).value.time, Chain(c, a).value)
    ensures IsEarliestEnd(Validate(c, a).value.expiration, Chain(c, a).value)
    decreases a
  {
    ValidateAcceptsGoodChains(c, a);
    if a.delegation.Present? {
      var da := a.delegation.att;
      ValidateStep(c, a);
      ValidateTightensBounds(c, da);
      CombinedStart(LinkOf(c, a).value, Validate(c, da).value.time, Chain(c, da).value);
      CombinedEnd(LinkOf(c, a).value, Validate(c, da).value.expiration, Chain(c, da).value);
    } else {
      assert Chain(c, a).value[0].stmt == Validate(c, a).value;
    }
  }

  /** The returned window is the intersection of all the windows on the chain. */
  lemma ValidateIntersectsWindows(c: Crypto, a: Attestation, t: int)
    requires Validate(c, a).Ok?
    ensures Chain(c, a).Some?
    ensures var links := Chain(c, a).value;
            InWindow(Validate(c, a).value, t) <==> forall i :: 0 <= i < |links| ==> InWindow(links[i].stmt, t)
  {
    ValidateTightensBounds(c, a);
    TightestBoundsIntersect(Validate(c, a).value, Chain(c, a).value, t);
  }

  lemma TightestBoundsIntersect(s: Statement, links: seq<Link>, t: int)
    requires IsLatestStart(s.time, links) && IsEarliestEnd(s.expiration, links)
    ensures InWindow(s, t) <==> forall i :: 0 <= i < |links| ==> InWindow(links[i].stmt, t)
  {
    if forall i :: 0 <= i < |links| ==> InWindow(links[i].stmt, t) {
      if s.time.Some? {
        var i :| 0 <= i < |links| && links[i].stmt.time == s.time;
        assert InWindow(links[i].stmt, t);
      }
      if s.expiration.Some? {
        var i :| 0 <= i < |links| && links[i].stmt.expiration == s.expiration;
        assert InWindow(links[i].stmt, t);
      }
    }
  }
}
