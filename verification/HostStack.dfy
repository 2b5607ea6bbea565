/**
 Tao hosts stacked on one another.  A root host signs for its children directly.
 A stacked host runs as a child of a lower host, signs with its own key, and
 ships the delegation it obtained from below with every attestation.
 */
module HostStack {
  import opened Wrappers
  import opened Auth
  import opened Attestations
  import opened AuthCodec
  import AuthRoundTrip

  /** A signing key: its canonical public half and what it does to a message. */
  datatype Signer = Signer(public: seq<Byte>, sign: seq<Byte> -> seq<Byte>)

  datatype Host =
    | RootHost(name: Prin, signer: Signer, cert: Option<seq<Byte>>)
    | StackedHost(name: Prin, keys: Keys, tao: HostTao)

  /** The signing key and its delegation, if the host has them. */
  datatype Keys = Keys(signer: Option<Signer>, delegation: Option<Attestation>)

  /** The Tao a lower host offers to one of its children. */
  datatype HostTao = HostTao(lower: Host, childSubprin: seq<PrinExt>)

  datatype HostError = InvalidIssuer

  const YEAR_NANOS: int := 365 * 24 * 3600 * 1_000_000_000

  function KeyPrin(c: Crypto, s: Signer): Prin {
    NewPrin(c, "key", s.public)
  }

  /** Missing bounds default to one year starting now. */
  function GenerateAttestation(c: Crypto, s: Signer, delegation: Option<Attestation>, stmt: Statement, now: int)
    : Attestation
  {
    var bytes := c.marshal(Dated(stmt, now));
    Attestation(bytes, s.sign(bytes), "key", s.public, [],
                match delegation case None => Absent case Some(d) => Present(d),
                None)
  }

  /** The statement with its bounds filled in. */
  function Dated(stmt: Statement, now: int): Statement {
    Says(stmt.speaker, Some(StartOr(stmt.time, now)), Some(EndOr(stmt.expiration, now)), stmt.message)
  }

  function StartOr(time: Option<int>, now: int): int {
    if time.Some? then time.value else now
  }

  function EndOr(expiration: Option<int>, now: int): int {
    if expiration.Some? then expiration.value else now + YEAR_NANOS
  }

  /** A request to a host on behalf of one of its children. */
  datatype Request = Request(
    childSubprin: seq<PrinExt>,
    issuer: Option<Prin>,
    time: Option<int>,
    expiration: Option<int>,
    message: Form)

  function ChildName(h: Host, childSubprin: seq<PrinExt>): Prin {
    MakeSubprincipal(h.name, childSubprin)
  }

  function Issuer(h: Host, r: Request): Prin {
    if r.issuer.Some? then r.issuer.value else ChildName(h, r.childSubprin)
  }

  predicate IssuerAllowed(h: Host, r: Request) {
    r.issuer.Some? ==> SubprinOrIdentical(PrinTerm(r.issuer.value), PrinTerm(ChildName(h, r.childSubprin)))
  }

  function Requested(h: Host, r: Request): Statement {
    Says(PrinTerm(Issuer(h, r)), r.time, r.expiration, r.message)
  }

  function Attest(c: Crypto, h: Host, r: Request, now: int): Result<Attestation, HostError>
    decreases h
  {
    if !IssuerAllowed(h, r) then Err(InvalidIssuer)
    else
      var stmt := Requested(h, r);
      match h
      case RootHost(_, signer, cert) =>
        Ok(GenerateAttestation(c, signer, None, stmt, now).(endorsement := cert))
      case StackedHost(_, keys, tao) =>
        if keys.signer.None? then
          Attest(c, tao.lower, Request(tao.childSubprin, Some(Issuer(h, r)), r.time, r.expiration, r.message), now)
        else
          Ok(GenerateAttestation(c, keys.signer.value, keys.delegation, stmt, now))
  }

  // ----- constructors

  function NewRootLinuxHost(c: Crypto, signer: Signer, guardSubprin: seq<PrinExt>, cert: Option<seq<Byte>>): Host {
    RootHost(MakeSubprincipal(KeyPrin(c, signer), guardSubprin), signer, cert)
  }

  /** The caller of `tao` asks for `self says (key speaksfor self)`. */
  function DelegationRequest(c: Crypto, tao: HostTao, signer: Signer): Request {
    var self := ChildName(tao.lower, tao.childSubprin);
    Request(tao.childSubprin, Some(self), None, None, Speaksfor(PrinTerm(KeyPrin(c, signer)), PrinTerm(self)))
  }

  /** Fresh keys for the caller of `tao`, with a delegation signed by the host below. */
  function NewTemporaryTaoDelegatedKeys(c: Crypto, tao: HostTao, signer: Signer, now: int): Result<Keys, HostError> {
    match Attest(c, tao.lower, DelegationRequest(c, tao, signer), now)
    case Err(e) => Err(e)
    case Ok(d) => Ok(Keys(Some(signer), Some(d)))
  }

  /** What a new layer brings: its place under the lower host, its guard, its key and its starting time. */
  datatype Layer =
    | Delegated(childSubprin: seq<PrinExt>, guardSubprin: seq<PrinExt>, signer: Signer, now: int)
    | Loaded(childSubprin: seq<PrinExt>, guardSubprin: seq<PrinExt>, signer: Signer, delegation: Attestation,
             start: Option<int>, end: Option<int>)
    | Keyless(childSubprin: seq<PrinExt>)

  /**
   A stacked host that extends its name by its guard and gets delegated keys, one that
   has kept such keys on disk, or one that has no signing key.
   */
  function NewStackedHost(c: Crypto, lower: Host, layer: Layer): Result<Host, HostError> {
    match layer
    case Delegated(childSubprin, guardSubprin, signer, now) =>
      var tao := HostTao(lower, childSubprin + guardSubprin);
      (match NewTemporaryTaoDelegatedKeys(c, tao, signer, now)
       case Err(e) => Err(e)
       case Ok(keys) => Ok(StackedHost(ChildName(lower, tao.childSubprin), keys, tao)))
    case Loaded(childSubprin, guardSubprin, signer, delegation, _, _) =>
      var tao := HostTao(lower, childSubprin + guardSubprin);
      Ok(StackedHost(ChildName(lower, tao.childSubprin), Keys(Some(signer), Some(delegation)), tao))
    case Keyless(childSubprin) =>
      Ok(StackedHost(ChildName(lower, childSubprin), Keys(None, None), HostTao(lower, childSubprin)))
  }

  function Stack(c: Crypto, root: Host, layers: seq<Layer>): Result<Host, HostError> {
    if layers == [] then Ok(root)
    else
      match Stack(c, root, layers[..|layers| - 1])
      case Err(e) => Err(e)
      case Ok(lower) => NewStackedHost(c, lower, layers[|layers| - 1])
  }

  // ----- what the stack promises

  /** Formulas that the types of the source can represent survive marshalling. */
  ghost predicate CodecInverts(c: Crypto) {
    forall f :: Encodable(f) ==> c.unmarshal(c.marshal(f)) == Some(f)
  }

  /** The key's own signatures verify. */
  ghost predicate KeyWorks(c: Crypto, s: Signer) {
    forall m :: c.verify(s.public, m, s.sign(m))
  }

  ghost predicate LayerKeyWorks(c: Crypto, layer: Layer) {
    !layer.Keyless? ==> KeyWorks(c, layer.signer)
  }

  /** The delegation that a layer asks for when it starts, on top of a host with the given name. */
  function DelegationOf(c: Crypto, below: Prin, layer: Layer): Statement
    requires layer.Delegated?
  {
    var self := PrinTerm(MakeSubprincipal(below, LayerExt(layer)));
    Says(self, Some(layer.now), Some(layer.now + YEAR_NANOS), Speaksfor(PrinTerm(KeyPrin(c, layer.signer)), self))
  }

  /**
   A new delegation is within the types of the source; keys from disk still have the
   delegation that was made for the name the layer has.
   */
  ghost predicate LayerReady(c: Crypto, below: Prin, layer: Layer) {
    && (layer.Delegated? ==> Encodable(DelegationOf(c, below, layer)))
    && (layer.Loaded? ==>
          DelegatedTo(c, Keys(Some(layer.signer), Some(layer.delegation)), MakeSubprincipal(below, LayerExt(layer)),
                      layer.signer, layer.start, layer.end))
  }

  /** The bounds of a layer on top of one with the given bounds; a delegation from disk has its own. */
  function LayerStart(layer: Layer, below: Option<int>): Option<int> {
    match layer
    case Delegated(_, _, _, now) => LaterStart(Some(now), below)
    case Loaded(_, _, _, _, start, _) => start
    case Keyless(_) => below
  }

  function LayerEnd(layer: Layer, below: Option<int>): Option<int> {
    match layer
    case Delegated(_, _, _, now) => EarlierEnd(Some(now + YEAR_NANOS), below)
    case Loaded(_, _, _, _, _, end) => end
    case Keyless(_) => below
  }

  /** The start and end of the validity window that the layers impose together. */
  function StackStart(layers: seq<Layer>): Option<int> {
    if layers == [] then None else LayerStart(layers[|layers| - 1], StackStart(layers[..|layers| - 1]))
  }

  function StackEnd(layers: seq<Layer>): Option<int> {
    if layers == [] then None else LayerEnd(layers[|layers| - 1], StackEnd(layers[..|layers| - 1]))
  }

  function LayerExt(layer: Layer): seq<PrinExt> {
    match layer
    case Delegated(child, guard, _, _) => child + guard
    case Loaded(child, guard, _, _, _, _) => child + guard
    case Keyless(child) => child
  }

  function StackExt(layers: seq<Layer>): seq<PrinExt> {
    if layers == [] then [] else StackExt(layers[..|layers| - 1]) + LayerExt(layers[|layers| - 1])
  }

  /** The statement a validated answer to request `r` conveys. */
  function Answer(h: Host, r: Request, now: int, start: Option<int>, end: Option<int>): Statement {
    Says(PrinTerm(Issuer(h, r)),
         LaterStart(Some(StartOr(r.time, now)), start),
         EarlierEnd(Some(EndOr(r.expiration, now)), end),
         r.message)
  }

  /** The request is answered if its issuer is allowed, by an attestation that validates to the intended statement. */
  predicate AnswersRequest(c: Crypto, h: Host, r: Request, now: int, start: Option<int>, end: Option<int>) {
    if !IssuerAllowed(h, r) then Attest(c, h, r, now) == Err(InvalidIssuer)
    else
      && Attest(c, h, r, now).Ok?
      && (Encodable(Dated(Requested(h, r), now)) ==>
            Validate(c, Attest(c, h, r, now).value) == Ok(Answer(h, r, now, start, end)))
  }

  ghost predicate Answers(c: Crypto, h: Host, start: Option<int>, end: Option<int>) {
    forall r, now :: AnswersRequest(c, h, r, now, start, end)
  }

  /** A generated attestation carries a valid signature of the key over the dated statement. */
  lemma GeneratedIsGenuine(c: Crypto, s: Signer, delegation: Option<Attestation>, stmt: Statement, now: int)
    requires CodecInverts(c) && KeyWorks(c, s) && Encodable(Dated(stmt, now))
    ensures LinkOf(c, GenerateAttestation(c, s, delegation, stmt, now)) ==
              Some(Link(PrinTerm(KeyPrin(c, s)), Dated(stmt, now)))
  {
  }

  lemma ChildIsBelowHost(h: Host, r: Request)
    requires IssuerAllowed(h, r)
    ensures SubprinOrIdentical(PrinTerm(Issuer(h, r)), PrinTerm(h.name))
  {
    assert SubprinOrIdentical(PrinTerm(ChildName(h, r.childSubprin)), PrinTerm(h.name));
  }

  lemma RootAnswers(c: Crypto, signer: Signer, guardSubprin: seq<PrinExt>, cert: Option<seq<Byte>>)
    requires CodecInverts(c) && KeyWorks(c, signer)
    ensures Answers(c, NewRootLinuxHost(c, signer, guardSubprin, cert), None, None)
  {
    var h := NewRootLinuxHost(c, signer, guardSubprin, cert);
    forall r, now
      ensures AnswersRequest(c, h, r, now, None, None)
    {
      if IssuerAllowed(h, r) && Encodable(Dated(Requested(h, r), now)) {
        ChildIsBelowHost(h, r);
        GeneratedIsGenuine(c, signer, None, Requested(h, r), now);
        SubprinTransitive(Requested(h, r).speaker, PrinTerm(h.name), PrinTerm(KeyPrin(c, signer)));
      }
    }
  }

  lemma LayerAnswers(c: Crypto, lower: Host, layer: Layer, start: Option<int>, end: Option<int>)
    requires CodecInverts(c) && LayerKeyWorks(c, layer) && LayerReady(c, lower.name, layer)
    requires Answers(c, lower, start, end)
    ensures NewStackedHost(c, lower, layer).Ok?
    ensures var h := NewStackedHost(c, lower, layer).value;
            && h.name == MakeSubprincipal(lower.name, LayerExt(layer))
            && Answers(c, h, LayerStart(layer, start), LayerEnd(layer, end))
  {
    match layer {
      case Delegated(_, _, _, _) => DelegatedAnswers(c, lower, layer, start, end);
      case Loaded(_, _, _, _, _, _) => LoadedAnswers(c, lower, layer);
      case Keyless(childSubprin) => KeylessAnswers(c, lower, childSubprin, start, end);
    }
  }

  lemma LoadedAnswers(c: Crypto, lower: Host, layer: Layer)
    requires CodecInverts(c) && layer.Loaded? && KeyWorks(c, layer.signer) && LayerReady(c, lower.name, layer)
    ensures Answers(c, NewStackedHost(c, lower, layer).value, layer.start, layer.end)
  {
    DelegatedKeysAnswer(c, NewStackedHost(c, lower, layer).value, layer.signer, layer.start, layer.end);
  }

  lemma KeylessAnswers(c: Crypto, lower: Host, childSubprin: seq<PrinExt>, start: Option<int>, end: Option<int>)
    requires Answers(c, lower, start, end)
    ensures Answers(c, NewStackedHost(c, lower, Keyless(childSubprin)).value, start, end)
  {
    var h := NewStackedHost(c, lower, Keyless(childSubprin)).value;
    forall r, now
      ensures AnswersRequest(c, h, r, now, start, end)
    {
      if IssuerAllowed(h, r) {
        ChildIsBelowHost(h, r);
        var down := Request(childSubprin, Some(Issuer(h, r)), r.time, r.expiration, r.message);
        assert IssuerAllowed(lower, down);
        assert AnswersRequest(c, lower, down, now, start, end);
      }
    }
  }

  /** The delegation a new layer obtains from the host below validates to `self says (key speaksfor self)`. */
  lemma DelegationValidates(c: Crypto, tao: HostTao, signer: Signer, now: int, start: Option<int>, end: Option<int>)
    requires Answers(c, tao.lower, start, end)
    requires Encodable(Dated(Requested(tao.lower, DelegationRequest(c, tao, signer)), now))
    ensures NewTemporaryTaoDelegatedKeys(c, tao, signer, now).Ok?
    ensures DelegatedTo(c, NewTemporaryTaoDelegatedKeys(c, tao, signer, now).value,
                        ChildName(tao.lower, tao.childSubprin), signer,
                        LaterStart(Some(now), start), EarlierEnd(Some(now + YEAR_NANOS), end))
  {
    assert AnswersRequest(c, tao.lower, DelegationRequest(c, tao, signer), now, start, end);
  }

  /** The keys come with a delegation that validates to `self says (key speaksfor self)` within the bounds. */
  ghost predicate DelegatedTo(c: Crypto, keys: Keys, self: Prin, signer: Signer, start: Option<int>, end: Option<int>) {
    && keys.signer == Some(signer) && keys.delegation.Some?
    && Validate(c, keys.delegation.value) ==
         Ok(Says(PrinTerm(self), start, end, Speaksfor(PrinTerm(KeyPrin(c, signer)), PrinTerm(self))))
  }

  /** A statement signed with a delegated key validates, within the bounds of the delegation. */
  lemma {:induction false} DelegatedAttestationValidates(c: Crypto, keys: Keys, self: Prin, signer: Signer,
                                                         start: Option<int>, end: Option<int>, stmt: Statement,
                                                         now: int)
    requires CodecInverts(c) && KeyWorks(c, signer) && DelegatedTo(c, keys, self, signer, start, end)
    requires SubprinOrIdentical(stmt.speaker, PrinTerm(self)) && Encodable(Dated(stmt, now))
    ensures Validate(c, GenerateAttestation(c, signer, keys.delegation, stmt, now)) ==
              Ok(Says(stmt.speaker, LaterStart(Some(StartOr(stmt.time, now)), start),
                      EarlierEnd(Some(EndOr(stmt.expiration, now)), end), stmt.message))
  {
    GeneratedIsGenuine(c, signer, keys.delegation, stmt, now);
  }

  /**
   A host with delegated keys answers within the bounds of the delegation, whatever
   is below it now.  That covers keys read back from disk after the lower host has
   been restarted, as long as the host still has the name they were made for.
   */
  lemma DelegatedKeysAnswer(c: Crypto, h: Host, signer: Signer, start: Option<int>, end: Option<int>)
    requires CodecInverts(c) && KeyWorks(c, signer)
    requires h.StackedHost? && DelegatedTo(c, h.keys, h.name, signer, start, end)
    ensures Answers(c, h, start, end)
  {
    forall r, now
      ensures AnswersRequest(c, h, r, now, start, end)
    {
      if IssuerAllowed(h, r) && Encodable(Dated(Requested(h, r), now)) {
        ChildIsBelowHost(h, r);
        DelegatedAttestationValidates(c, h.keys, h.name, signer, start, end, Requested(h, r), now);
      }
    }
  }

  lemma DelegationIsRequested(c: Crypto, lower: Host, layer: Layer)
    requires layer.Delegated?
    ensures var tao := HostTao(lower, layer.childSubprin + layer.guardSubprin);
            Dated(Requested(lower, DelegationRequest(c, tao, layer.signer)), layer.now) ==
              DelegationOf(c, lower.name, layer)
  {
  }

  /** A new stacked host is made of the keys obtained for its place. */
  lemma NewHostHoldsKeys(c: Crypto, lower: Host, layer: Layer)
    requires layer.Delegated?
    ensures var tao := HostTao(lower, layer.childSubprin + layer.guardSubprin);
            var keys := NewTemporaryTaoDelegatedKeys(c, tao, layer.signer, layer.now);
            keys.Ok? ==>
              NewStackedHost(c, lower, layer) == Ok(StackedHost(ChildName(lower, tao.childSubprin), keys.value, tao))
  {
  }

  /** The keys obtained for a layer's place are delegated to the name of that place. */
  lemma LayerKeysAreDelegated(c: Crypto, lower: Host, layer: Layer, start: Option<int>, end: Option<int>)
    requires layer.Delegated? && LayerReady(c, lower.name, layer) && Answers(c, lower, start, end)
    ensures var tao := HostTao(lower, layer.childSubprin + layer.guardSubprin);
            var keys := NewTemporaryTaoDelegatedKeys(c, tao, layer.signer, layer.now);
            && keys.Ok?
            && DelegatedTo(c, keys.value, ChildName(lower, tao.childSubprin), layer.signer,
                           LaterStart(Some(layer.now), start), EarlierEnd(Some(layer.now + YEAR_NANOS), end))
  {
    DelegationIsRequested(c, lower, layer);
    var tao := HostTao(lower, layer.childSubprin + layer.guardSubprin);
    DelegationValidates(c, tao, layer.signer, layer.now, start, end);
  }

  lemma DelegatedAnswers(c: Crypto, lower: Host, layer: Layer, start: Option<int>, end: Option<int>)
    requires CodecInverts(c) && layer.Delegated? && KeyWorks(c, layer.signer) && LayerReady(c, lower.name, layer)
    requires Answers(c, lower, start, end)
    ensures NewStackedHost(c, lower, layer).Ok?
    ensures Answers(c, NewStackedHost(c, lower, layer).value,
                    LaterStart(Some(layer.now), start), EarlierEnd(Some(layer.now + YEAR_NANOS), end))
  {
    LayerKeysAreDelegated(c, lower, layer, start, end);
    NewHostHoldsKeys(c, lower, layer);
    DelegatedKeysAnswer(c, NewStackedHost(c, lower, layer).value, layer.signer,
                        LaterStart(Some(layer.now), start), EarlierEnd(Some(layer.now + YEAR_NANOS), end));
  }

  /**
   The stack exists, is named by the root followed by every layer's extensions, and
   answers within the layers' bounds.
   */
  ghost predicate Complete(c: Crypto, root: Host, layers: seq<Layer>) {
    && Stack(c, root, layers).Ok?
    && Stack(c, root, layers).value.name == MakeSubprincipal(root.name, StackExt(layers))
    && Answers(c, Stack(c, root, layers).value, StackStart(layers), StackEnd(layers))
  }

  lemma UnfoldStack(c: Crypto, root: Host, layers: seq<Layer>, layer: Layer)
    requires Stack(c, root, layers).Ok?
    ensures Stack(c, root, layers + [layer]) == NewStackedHost(c, Stack(c, root, layers).value, layer)
    ensures StackExt(layers + [layer]) == StackExt(layers) + LayerExt(layer)
  {
    var grown := layers + [layer];
    assert grown[..|grown| - 1] == layers && grown[|grown| - 1] == layer;
  }

  lemma UnfoldBounds(layers: seq<Layer>, layer: Layer)
    ensures StackStart(layers + [layer]) == LayerStart(layer, StackStart(layers))
    ensures StackEnd(layers + [layer]) == LayerEnd(layer, StackEnd(layers))
  {
    var grown := layers + [layer];
    assert grown[..|grown| - 1] == layers && grown[|grown| - 1] == layer;
  }

  lemma SubprincipalOfSubprincipal(p: Prin, e: seq<PrinExt>, f: seq<PrinExt>)
    ensures MakeSubprincipal(MakeSubprincipal(p, e), f) == MakeSubprincipal(p, e + f)
  {
    assert p.ext + e + f == p.ext + (e + f);
  }

  lemma StackGrows(c: Crypto, root: Host, layers: seq<Layer>, layer: Layer)
    requires CodecInverts(c) && LayerKeyWorks(c, layer)
    requires LayerReady(c, MakeSubprincipal(root.name, StackExt(layers)), layer)
    requires Complete(c, root, layers)
    ensures Complete(c, root, layers + [layer])
  {
    UnfoldStack(c, root, layers, layer);
    UnfoldBounds(layers, layer);
    LayerAnswers(c, Stack(c, root, layers).value, layer, StackStart(layers), StackEnd(layers));
    SubprincipalOfSubprincipal(root.name, StackExt(layers), LayerExt(layer));
  }

  /**
   Completeness: a stack of any height over a root host can always be built, and
   it answers exactly the requests whose issuer lies at or below the child.
   Every answer to a request that the source can represent validates to that issuer
   and message, within the bounds set by the request and all the layers.
   */
  lemma {:induction false} StackIsComplete(c: Crypto, signer: Signer, guardSubprin: seq<PrinExt>,
                                           cert: Option<seq<Byte>>, layers: seq<Layer>)
    requires CodecInverts(c) && KeyWorks(c, signer)
    requires forall i :: 0 <= i < |layers| ==> LayerKeyWorks(c, layers[i])
    requires StackReady(c, NewRootLinuxHost(c, signer, guardSubprin, cert).name, layers)
    ensures Complete(c, NewRootLinuxHost(c, signer, guardSubprin, cert), layers)
  {
    var root := NewRootLinuxHost(c, signer, guardSubprin, cert);
    if layers == [] {
      RootAnswers(c, signer, guardSubprin, cert);
      assert root.name.ext + [] == root.name.ext;
    } else {
      var k := |layers| - 1;
      ReadyBelow(c, root.name, layers);
      StackIsComplete(c, signer, guardSubprin, cert, layers[..k]);
      StackGrows(c, root, layers[..k], layers[k]);
      assert layers[..k] + [layers[k]] == layers;
    }
  }

  lemma ReadyBelow(c: Crypto, root: Prin, layers: seq<Layer>)
    requires layers != [] && StackReady(c, root, layers)
    ensures var k := |layers| - 1;
            StackReady(c, root, layers[..k]) && LayerReady(c, MakeSubprincipal(root, StackExt(layers[..k])), layers[k])
  {
    var k := |layers| - 1;
    forall i | 0 <= i < k
      ensures LayerReady(c, MakeSubprincipal(root, StackExt(layers[..k][..i])), layers[..k][i])
    {
      assert layers[..k][..i] == layers[..i];
    }
  }

  /** Every layer is ready for the place it has in the stack. */
  ghost predicate StackReady(c: Crypto, root: Prin, layers: seq<Layer>) {
    forall i :: 0 <= i < |layers| ==> LayerReady(c, MakeSubprincipal(root, StackExt(layers[..i])), layers[i])
  }

  /** The binary form of the source is a codec as it is needed here. */
  lemma BinaryFormInverts(c: Crypto)
    requires forall f :: c.marshal(f) == Marshal(f)
    requires forall s :: c.unmarshal(s) == Unmarshal(s)
    ensures CodecInverts(c)
  {
    forall f | Encodable(f) ensures c.unmarshal(c.marshal(f)) == Some(f) {
      AuthRoundTrip.UnmarshalInvertsMarshal(f);
    }
  }
}
