/**
 The answers of a stack of hosts, spelled out: in whose name they speak, what they say
 and when they hold.
 */
module StackAnswers {
  import opened Wrappers
  import opened Auth
  import opened Attestations
  import opened AuthCodec
  import opened HostStack

  /** One year of 365 days, in nanoseconds. */
  const ONE_YEAR: int := 31_536_000_000_000_000

  /** The name of a child of the stack: the root key, the root's guard, every layer and the child itself. */
  function ChildOfStack(c: Crypto, signer: Signer, guardSubprin: seq<PrinExt>, layers: seq<Layer>,
                        childSubprin: seq<PrinExt>): Prin
  {
    Prin("key", Bytes(c.hash(signer.public)), guardSubprin + StackExt(layers) + childSubprin)
  }

  /** A child speaks for itself unless it names an issuer. */
  function SpeakerFor(child: Prin, r: Request): Prin {
    match r.issuer
    case None => child
    case Some(p) => p
  }

  /** The time is within the bounds asked for; a missing bound is now, or a year from now. */
  predicate RequestAdmits(r: Request, now: int, t: int) {
    && (if r.time.Some? then r.time.value <= t else now <= t)
    && (if r.expiration.Some? then t <= r.expiration.value else t <= now + ONE_YEAR)
  }

  predicate Within(start: Option<int>, end: Option<int>, t: int) {
    (start.Some? ==> start.value <= t) && (end.Some? ==> t <= end.value)
  }

  /**
   The time is within a year of the start of each layer with fresh keys, down to one
   whose keys come with bounds of their own.
   */
  predicate LayersAdmit(layers: seq<Layer>, t: int) {
    layers != [] ==>
      var below := layers[..|layers| - 1];
      match layers[|layers| - 1]
      case Delegated(_, _, _, start) => start <= t <= start + ONE_YEAR && LayersAdmit(below, t)
      case Loaded(_, _, _, _, start, end) => Within(start, end, t)
      case Keyless(_) => LayersAdmit(below, t)
  }

  lemma {:induction false} StackWindow(layers: seq<Layer>, t: int)
    ensures Within(StackStart(layers), StackEnd(layers), t) <==> LayersAdmit(layers, t)
  {
    if layers != [] {
      StackWindow(layers[..|layers| - 1], t);
    }
  }

  /** What a request comes to on the wire. */
  function WireStatement(child: Prin, r: Request, now: int): Statement {
    Says(PrinTerm(SpeakerFor(child, r)),
         Some(if r.time.Some? then r.time.value else now),
         Some(if r.expiration.Some? then r.expiration.value else now + ONE_YEAR),
         r.message)
  }

  lemma SpelledAnswer(c: Crypto, h: Host, child: Prin, r: Request, now: int, start: Option<int>, end: Option<int>,
                      t: int)
    requires ChildName(h, r.childSubprin) == child && AnswersRequest(c, h, r, now, start, end)
    ensures var answer := Attest(c, h, r, now);
            && (answer.Ok? <==> Extends(PrinTerm(SpeakerFor(child, r)), PrinTerm(child)))
            && (answer.Ok? && Encodable(WireStatement(child, r, now)) ==>
                  var v := Validate(c, answer.value);
                  && v.Ok?
                  && v.value.speaker == PrinTerm(SpeakerFor(child, r))
                  && v.value.message == r.message
                  && (InWindow(v.value, t) <==> RequestAdmits(r, now, t) && Within(start, end, t)))
  {
    SubprinIsExtension(PrinTerm(SpeakerFor(child, r)), PrinTerm(child));
    assert IssuerAllowed(h, r) <==> SubprinOrIdentical(PrinTerm(SpeakerFor(child, r)), PrinTerm(child));
    assert WireStatement(child, r, now) == Dated(Requested(h, r), now);
  }

  lemma CompleteStackAnswers(c: Crypto, signer: Signer, guardSubprin: seq<PrinExt>, cert: Option<seq<Byte>>,
                             layers: seq<Layer>, r: Request, now: int)
    requires Complete(c, NewRootLinuxHost(c, signer, guardSubprin, cert), layers)
    ensures var h := Stack(c, NewRootLinuxHost(c, signer, guardSubprin, cert), layers).value;
            && ChildName(h, r.childSubprin) == ChildOfStack(c, signer, guardSubprin, layers, r.childSubprin)
            && AnswersRequest(c, h, r, now, StackStart(layers), StackEnd(layers))
  {
  }

  /**
   A stack of any height attests exactly for issuers whose name extends the child's.
   The attestation of a request that the source can represent validates: it speaks in
   the name of the issuer asked for, or of the child if there is none, says the
   message, and holds within the bounds of the request and of the layers.
   */
  lemma StackSpeaksForItsChildren(c: Crypto, signer: Signer, guardSubprin: seq<PrinExt>, cert: Option<seq<Byte>>,
                                  layers: seq<Layer>, r: Request, now: int, t: int)
    requires CodecInverts(c) && KeyWorks(c, signer)
    requires forall i :: 0 <= i < |layers| ==> LayerKeyWorks(c, layers[i])
    requires StackReady(c, NewRootLinuxHost(c, signer, guardSubprin, cert).name, layers)
    ensures Stack(c, NewRootLinuxHost(c, signer, guardSubprin, cert), layers).Ok?
    ensures var h := Stack(c, NewRootLinuxHost(c, signer, guardSubprin, cert), layers).value;
            var child := ChildOfStack(c, signer, guardSubprin, layers, r.childSubprin);
            var answer := Attest(c, h, r, now);
            && (answer.Ok? <==> Extends(PrinTerm(SpeakerFor(child, r)), PrinTerm(child)))
            && (answer.Ok? && Encodable(WireStatement(child, r, now)) ==>
                  var v := Validate(c, answer.value);
                  && v.Ok?
                  && v.value.speaker == PrinTerm(SpeakerFor(child, r))
                  && v.value.message == r.message
                  && (InWindow(v.value, t) <==> RequestAdmits(r, now, t) && LayersAdmit(layers, t)))
  {
    StackIsComplete(c, signer, guardSubprin, cert, layers);
    CompleteStackAnswers(c, signer, guardSubprin, cert, layers, r, now);
    var h := Stack(c, NewRootLinuxHost(c, signer, guardSubprin, cert), layers).value;
    var child := ChildOfStack(c, signer, guardSubprin, layers, r.childSubprin);
    SpelledAnswer(c, h, child, r, now, StackStart(layers), StackEnd(layers), t);
    StackWindow(layers, t);
  }

  /** The root's certificate goes with every answer that the root signs, and with no other. */
  lemma {:induction false} OnlyTheRootEndorses(c: Crypto, root: Host, layers: seq<Layer>, r: Request, now: int)
    requires root.RootHost? && Stack(c, root, layers).Ok?
    ensures var answer := Attest(c, Stack(c, root, layers).value, r, now);
            answer.Ok? ==>
              answer.value.endorsement ==
                if forall i :: 0 <= i < |layers| ==> layers[i].Keyless? then root.cert else None
    decreases |layers|
  {
    if layers != [] {
      var k := |layers| - 1;
      var h := Stack(c, root, layers).value;
      if layers[k].Keyless? {
        var down := Request(layers[k].childSubprin, Some(Issuer(h, r)), r.time, r.expiration, r.message);
        OnlyTheRootEndorses(c, root, layers[..k], down, now);
        assert forall i :: 0 <= i < k ==> layers[..k][i] == layers[i];
      }
    }
  }
}
