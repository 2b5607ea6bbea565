/**
 Messages on a byte stream, each behind a four-byte length.  The transport may hand
 over the bytes in pieces of any size.
 */
module Framing {
  import opened Wrappers
  import opened Sequences
  import opened Tpm2Encoding

  type Message = seq<Byte>

  /** What a receiver finds at the front of the bytes that are left before the stream ends. */
  datatype Reception =
    | Received(m: Message, rest: seq<Byte>)
    | AtEnd           // no bytes at all
    | HeaderCut       // the stream ends inside a length
    | TooLarge        // the length exceeds the receiver's limit
    | BodyMissing     // the stream ends right after a length
    | BodyCut         // the stream ends inside a message

  function Frame(m: Message): seq<Byte> {
    BigEndian(|m| % 0x1_0000_0000, 4) + m
  }

  function FrameEach(ms: seq<Message>): (chunks: seq<seq<Byte>>)
    ensures |chunks| == |ms|
  {
    seq(|ms|, i requires 0 <= i < |ms| => Frame(ms[i]))
  }

  /** The bytes that sending the messages one after the other puts on the wire. */
  function Frames(ms: seq<Message>): seq<Byte> {
    Concat(FrameEach(ms))
  }

  /** A limit of `None` admits every length. */
  predicate Admits(limit: Option<nat>, n: nat) {
    limit.None? || n <= limit.value
  }

  function ReceiveOne(s: seq<Byte>, limit: Option<nat>): (r: Reception)
    ensures r.Received? ==> |r.rest| < |s|
  {
    if s == [] then AtEnd
    else if |s| < 4 then HeaderCut
    else
      var n, body := FromBigEndian(s[..4]), s[4..];
      if !Admits(limit, n) then TooLarge
      else if n <= |body| then Received(body[..n], body[n..])
      else if body == [] then BodyMissing
      else BodyCut
  }

  /** The messages received until something else happens, and what that is. */
  function ReceiveAll(s: seq<Byte>, limit: Option<nat>): (seq<Message>, Reception)
    decreases |s|
  {
    var r := ReceiveOne(s, limit);
    if r.Received? then
      var (ms, end) := ReceiveAll(r.rest, limit);
      ([r.m] + ms, end)
    else ([], r)
  }

  // ----- the transport

  /** The receiving end of a connection whose peer has written `wire` and then closed it, or that breaks down there. */
  class Transport {
    var wire: seq<Byte>
    const broken: bool

    constructor (wire: seq<Byte>, broken: bool)
      ensures this.wire == wire && this.broken == broken
    {
      this.wire, this.broken := wire, broken;
    }

    /** One read: any positive number of the bytes asked for; at the end of the stream nothing, or a failure. */
    method Read(max: nat) returns (chunk: seq<Byte>, ok: bool)
      requires max > 0
      modifies this
      ensures chunk + wire == old(wire) && |chunk| <= max
      ensures chunk == [] <==> old(wire) == []
      ensures ok == (old(wire) != [] || !broken)
    {
      if wire == [] {
        return [], !broken;
      }
      var k :| 1 <= k <= max && k <= |wire|;
      chunk := wire[..k];
      wire := wire[k..];
      ok := true;
    }
  }

  // ----- the C++ channel

  class MessageChannel {
    const transport: Transport
    const maxMessageSize: nat
    var closed: bool

    constructor (transport: Transport, maxMessageSize: nat)
      ensures this.transport == transport && this.maxMessageSize == maxMessageSize && !closed
    {
      this.transport, this.maxMessageSize, closed := transport, maxMessageSize, false;
    }

    method ReceivePartialData(max: nat) returns (ok: bool, chunk: seq<Byte>, eof: bool)
      requires max > 0
      modifies this, transport
      ensures old(closed) ==> ok && eof && chunk == [] && closed && transport.wire == old(transport.wire)
      ensures !old(closed) ==>
                && chunk + transport.wire == old(transport.wire) && |chunk| <= max
                && (chunk == [] <==> old(transport.wire) == [])
                && closed == (chunk == []) && ok == (chunk != [] || !transport.broken) && eof == (chunk == [] && ok)
    {
      if closed {
        return true, [], true;
      }
      chunk, ok := transport.Read(max);
      eof := ok && chunk == [];
      closed := chunk == [];
    }

    /** Fills a buffer of the given length from as many reads as it takes. */
    method ReceiveData(len: nat) returns (ok: bool, data: seq<Byte>, eof: bool)
      modifies this, transport
      ensures old(closed) ==> ok && eof && closed
      ensures !old(closed) ==>
                var wire := old(transport.wire);
                && (len <= |wire| ==> ok && !eof && data == wire[..len] && transport.wire == wire[len..] && !closed)
                && (wire == [] && len > 0 ==> ok == eof == !transport.broken && closed)
                && (0 < |wire| < len ==> !ok && closed)
    {
      if closed {
        return true, [], true;
      }
      eof := false;
      data := [];
      ghost var wire := transport.wire;
      while |data| != len
        invariant |data| <= len && !closed && !eof
        invariant data + transport.wire == wire
        decreases len - |data|
      {
        var chunk;
        ok, chunk, eof := ReceivePartialData(len - |data|);
        if !ok {
          return false, data, eof;
        } else if eof && |data| != 0 {
          return false, data, eof;
        } else if eof {
          return true, data, eof;
        }
        assert data + (chunk + transport.wire) == (data + chunk) + transport.wire;
        data := data + chunk;
      }
      ok := true;
    }

    /** Receives one string; `eof` with `ok` is a clean end of stream. */
    method ReceiveString() returns (ok: bool, s: Message, eof: bool)
      modifies this, transport
      ensures old(closed) ==> ok && eof && closed
      ensures !old(closed) ==>
                match ReceiveOne(old(transport.wire), Some(maxMessageSize))
                case Received(m, rest) => ok && !eof && s == m && transport.wire == rest && !closed
                case AtEnd => ok == eof == !transport.broken && closed
                case _ => !ok && (eof ==> closed)
    {
      var header;
      ok, header, eof := ReceiveData(4);
      s := [];
      if !ok || eof {
        return;
      }
      var len := FromBigEndian(header);
      if len > maxMessageSize {
        closed := true;
        return false, [], eof;
      }
      ok, s, eof := ReceiveData(len);
      if !ok || eof {
        return false, [], eof;
      }
    }

    /** Receives until the stream ends or fails. */
    method ReceiveStrings() returns (ms: seq<Message>, clean: bool)
      requires !closed
      modifies this, transport
      ensures var (received, end) := ReceiveAll(old(transport.wire), Some(maxMessageSize));
              ms == received && (clean <==> end.AtEnd? && !transport.broken)
    {
      ms := [];
      ghost var all := ReceiveAll(transport.wire, Some(maxMessageSize));
      assert [] + all.0 == all.0;
      while true
        invariant !closed
        invariant ms + ReceiveAll(transport.wire, Some(maxMessageSize)).0 == all.0
        invariant ReceiveAll(transport.wire, Some(maxMessageSize)).1 == all.1
        decreases |transport.wire|
      {
        ghost var more := ReceiveAll(transport.wire, Some(maxMessageSize)).0;
        var ok, s, eof := ReceiveString();
        assert ok && !eof ==> ms + more == ms + [s] + more[1..];
        if !ok || eof {
          return ms, ok;
        }
        ms := ms + [s];
      }
    }
  }

  // ----- the Go stream

  datatype ReadError = NoError | Eof | UnexpectedEof | ReadFailed | MessageTooLarge

  /** The error that the reader reports for what it finds on a transport that closes or breaks down. */
  function ErrorFor(r: Reception, broken: bool): ReadError {
    match r
    case Received(_, _) => NoError
    case TooLarge => MessageTooLarge
    case AtEnd => if broken then ReadFailed else Eof
    case BodyMissing => if broken then ReadFailed else Eof
    case HeaderCut => if broken then ReadFailed else UnexpectedEof
    case BodyCut => if broken then ReadFailed else UnexpectedEof
  }

  class MessageStream {
    const transport: Transport
    const maxMessageSize: int

    constructor (transport: Transport, maxMessageSize: int)
      ensures this.transport == transport && this.maxMessageSize == maxMessageSize
    {
      this.transport, this.maxMessageSize := transport, maxMessageSize;
    }

    /** A limit that is not positive is no limit. */
    function Limit(): Option<nat> {
      if maxMessageSize > 0 then Some(maxMessageSize) else None
    }

    /** `io.ReadFull`: the end of the stream is `Eof` before the first byte and `UnexpectedEof` after it. */
    method ReadFull(len: nat) returns (data: seq<Byte>, err: ReadError)
      modifies transport
      ensures var wire := old(transport.wire);
              && (len <= |wire| ==> err == NoError && data == wire[..len] && transport.wire == wire[len..])
              && (wire == [] && len > 0 ==> err == if transport.broken then ReadFailed else Eof)
              && (0 < |wire| < len ==> err == if transport.broken then ReadFailed else UnexpectedEof)
    {
      data := [];
      ghost var wire := transport.wire;
      while |data| < len
        invariant |data| <= len
        invariant data + transport.wire == wire
        decreases len - |data|
      {
        var chunk, ok := transport.Read(len - |data|);
        if !ok {
          return data, ReadFailed;
        } else if chunk == [] {
          return data, if data == [] then Eof else UnexpectedEof;
        }
        assert data + (chunk + transport.wire) == (data + chunk) + transport.wire;
        data := data + chunk;
      }
      err := NoError;
    }

    method ReadString() returns (s: Message, err: ReadError)
      modifies transport
      ensures var r := ReceiveOne(old(transport.wire), Limit());
              err == ErrorFor(r, transport.broken) && (r.Received? ==> s == r.m && transport.wire == r.rest)
    {
      var header;
      header, err := ReadFull(4);
      if err != NoError {
        return [], err;
      }
      var n := FromBigEndian(header);
      if maxMessageSize > 0 && n > maxMessageSize {
        return [], MessageTooLarge;
      }
      s, err := ReadFull(n);
    }

    /** Reads until there is an error. */
    method ReadStrings() returns (ms: seq<Message>, err: ReadError)
      modifies transport
      ensures var (received, end) := ReceiveAll(old(transport.wire), Limit());
              ms == received && err == ErrorFor(end, transport.broken)
    {
      ms := [];
      ghost var all := ReceiveAll(transport.wire, Limit());
      assert [] + all.0 == all.0;
      while true
        invariant ms + ReceiveAll(transport.wire, Limit()).0 == all.0
        invariant ReceiveAll(transport.wire, Limit()).1 == all.1
        decreases |transport.wire|
      {
        ghost var more := ReceiveAll(transport.wire, Limit()).0;
        var s, e := ReadString();
        assert e == NoError ==> ms + more == ms + [s] + more[1..];
        if e != NoError {
          return ms, e;
        }
        ms := ms + [s];
      }
    }
  }

  /** Sending refuses what the length field cannot express. */
  method WriteString(s: Message) returns (r: Option<seq<Byte>>)
    ensures r == if |s| < 0x1_0000_0000 then Some(Frame(s)) else None
  {
    if |s| > 0xFFFF_FFFF {
      return None;
    }
    r := Some(BigEndian(|s|, 4) + s);
  }

  // ----- what arrives is what was sent

  /** The length fits the length field and does not exceed the limit, if there is one. */
  predicate Fits(m: Message, limit: Option<nat>) {
    |m| < 0x1_0000_0000 && (limit.Some? ==> |m| <= limit.value)
  }

  predicate AllFit(ms: seq<Message>, limit: Option<nat>) {
    forall i :: 0 <= i < |ms| ==> Fits(ms[i], limit)
  }

  lemma FrameHeader(m: Message, s: seq<Byte>)
    requires |m| < 0x1_0000_0000 && BigEndian(|m|, 4) <= s
    ensures FromBigEndian(s[..4]) == |m|
  {
    Powers();
    FromBigEndianInverts(|m|, 4);
    assert s[..4] == BigEndian(|m|, 4);
  }

  lemma ReceiveFrame(m: Message, rest: seq<Byte>, limit: Option<nat>)
    requires Fits(m, limit)
    ensures ReceiveOne(Frame(m) + rest, limit) == Received(m, rest)
  {
    var s := Frame(m) + rest;
    FrameHeader(m, s);
    assert s[4..] == m + rest;
  }

  /** A frame byte by byte. */
  lemma FrameLayout(m: Message)
    requires |m| < 0x1_0000_0000
    ensures Frame(m) == FourBytes(|m|) + m
  {
    FourBytesOf(|m|);
  }

  /** A frame is refused exactly if its message is longer than the limit. */
  lemma LimitIsExact(m: Message, rest: seq<Byte>, limit: Option<nat>)
    requires |m| < 0x1_0000_0000
    ensures ReceiveOne(Frame(m) + rest, limit).TooLarge? <==> limit.Some? && |m| > limit.value
  {
    var s := Frame(m) + rest;
    FrameHeader(m, s);
    assert s[4..] == m + rest;
  }

  /** What is found when the stream ends `extra` bytes into a frame. */
  function EndOfCut(extra: nat): Reception {
    if extra == 0 then AtEnd else if extra < 4 then HeaderCut else if extra == 4 then BodyMissing else BodyCut
  }

  /** A frame cut short is recognised as such, by where the cut falls. */
  lemma ReceiveCutFrame(m: Message, k: nat, limit: Option<nat>)
    requires Fits(m, limit) && k < |Frame(m)|
    ensures ReceiveOne(Frame(m)[..k], limit) == EndOfCut(k)
  {
    if k >= 4 {
      FrameHeader(m, Frame(m)[..k]);
    }
  }

  /** The chunk is received as message `m`, whatever follows it. */
  ghost predicate Delivers(chunk: seq<Byte>, m: Message, limit: Option<nat>) {
    forall rest :: ReceiveOne(chunk + rest, limit) == Received(m, rest)
  }

  lemma DeliveredFirst(chunk: seq<Byte>, m: Message, rest: seq<Byte>, limit: Option<nat>)
    requires Delivers(chunk, m, limit)
    ensures ReceiveAll(chunk + rest, limit) == ([m] + ReceiveAll(rest, limit).0, ReceiveAll(rest, limit).1)
  {
    assert ReceiveOne(chunk + rest, limit) == Received(m, rest);
  }

  /** Messages `ms` are received from `s`, which then goes on like `tail`. */
  ghost predicate YieldsThen(s: seq<Byte>, ms: seq<Message>, tail: seq<Byte>, limit: Option<nat>) {
    ReceiveAll(s, limit) == (ms + ReceiveAll(tail, limit).0, ReceiveAll(tail, limit).1)
  }

  lemma YieldsNothing(tail: seq<Byte>, limit: Option<nat>)
    ensures YieldsThen(tail, [], tail, limit)
  {
    assert [] + ReceiveAll(tail, limit).0 == ReceiveAll(tail, limit).0;
  }

  lemma YieldsOneMore(chunk: seq<Byte>, m: Message, rest: seq<Byte>, ms: seq<Message>, tail: seq<Byte>,
                      limit: Option<nat>)
    requires Delivers(chunk, m, limit) && YieldsThen(rest, ms, tail, limit)
    ensures YieldsThen(chunk + rest, [m] + ms, tail, limit)
  {
    DeliveredFirst(chunk, m, rest, limit);
    ConsAppend(m, ms, ReceiveAll(tail, limit).0);
  }

  lemma ConsAppend(m: Message, ms: seq<Message>, ns: seq<Message>)
    ensures [m] + (ms + ns) == [m] + ms + ns
  {
  }

  lemma {:induction false} ChunksThenTail(chunks: seq<seq<Byte>>, ms: seq<Message>, tail: seq<Byte>, limit: Option<nat>)
    requires |chunks| == |ms| && forall i :: 0 <= i < |ms| ==> Delivers(chunks[i], ms[i], limit)
    ensures YieldsThen(Concat(chunks) + tail, ms, tail, limit)
  {
    if ms == [] {
      YieldsNothing(tail, limit);
      assert Concat(chunks) + tail == tail;
    } else {
      var rest := Concat(chunks[1..]) + tail;
      ChunksThenTail(chunks[1..], ms[1..], tail, limit);
      YieldsOneMore(chunks[0], ms[0], rest, ms[1..], tail, limit);
      Assoc(chunks[0], Concat(chunks[1..]), tail);
      assert [ms[0]] + ms[1..] == ms;
    }
  }

  /** Whole messages are received whatever comes after them, and leave the receiver at what comes after them. */
  lemma MessagesThenTail(ms: seq<Message>, tail: seq<Byte>, limit: Option<nat>)
    requires AllFit(ms, limit)
    ensures ReceiveAll(Frames(ms) + tail, limit) == (ms + ReceiveAll(tail, limit).0, ReceiveAll(tail, limit).1)
  {
    forall i | 0 <= i < |ms| ensures Delivers(FrameEach(ms)[i], ms[i], limit) {
      forall rest ensures ReceiveOne(Frame(ms[i]) + rest, limit) == Received(ms[i], rest) {
        ReceiveFrame(ms[i], rest, limit);
      }
    }
    ChunksThenTail(FrameEach(ms), ms, tail, limit);
  }

  /** A message that does not fit is not received: its length is cut down or refused. */
  lemma UnfitIsNotReceived(m: Message, rest: seq<Byte>, limit: Option<nat>)
    requires !Fits(m, limit)
    ensures var r := ReceiveOne(Frame(m) + rest, limit); r.Received? ==> r.m != m
  {
    Powers();
    var n, s := |m| % 0x1_0000_0000, Frame(m) + rest;
    FromBigEndianInverts(n, 4);
    assert s[..4] == BigEndian(n, 4);
  }

  lemma {:induction false} OnlyFittingArrive(ms: seq<Message>, limit: Option<nat>)
    requires ReceiveAll(Frames(ms), limit) == (ms, AtEnd)
    ensures AllFit(ms, limit)
  {
    if ms != [] {
      var first, rest := Frame(ms[0]), Frames(ms[1..]);
      assert FrameEach(ms)[1..] == FrameEach(ms[1..]);
      assert Frames(ms) == first + rest;
      if !Fits(ms[0], limit) {
        UnfitIsNotReceived(ms[0], rest, limit);
      }
      ReceiveFrame(ms[0], rest, limit);
      var more := ReceiveAll(rest, limit);
      assert ([ms[0]] + more.0)[1..] == more.0;
      OnlyFittingArrive(ms[1..], limit);
      assert forall i :: 1 <= i < |ms| ==> ms[i] == ms[1..][i - 1];
    }
  }

  /**
   All the messages sent are received, and then a clean end of stream, iff all of them
   fit the length field and the limit.
   */
  lemma AllMessagesArrive(ms: seq<Message>, limit: Option<nat>)
    ensures ReceiveAll(Frames(ms), limit) == (ms, AtEnd) <==> AllFit(ms, limit)
  {
    if AllFit(ms, limit) {
      MessagesThenTail(ms, [], limit);
      assert ReceiveAll([], limit) == ([], AtEnd);
      assert Frames(ms) + [] == Frames(ms) && ms + [] == ms;
    } else if ReceiveAll(Frames(ms), limit) == (ms, AtEnd) {
      OnlyFittingArrive(ms, limit);
    }
  }

  /**
   If the stream ends inside a message, the messages before it are received and the
   cut is told by where it falls: a missing body iff it comes right after the length.
   */
  lemma EveryCutIsDetected(ms: seq<Message>, m: Message, extra: nat, limit: Option<nat>)
    requires AllFit(ms, limit) && Fits(m, limit) && extra < |Frame(m)|
    ensures ReceiveAll(Frames(ms) + Frame(m)[..extra], limit) == (ms, EndOfCut(extra))
  {
    var tail := Frame(m)[..extra];
    MessagesThenTail(ms, tail, limit);
    ReceiveCutFrame(m, extra, limit);
    assert ReceiveAll(tail, limit) == ([], EndOfCut(extra));
    assert ms + [] == ms;
  }

  /**
   What the Go reader reports at the end of a stream that is cut inside a message: a
   clean end not only before a length but also right behind it, an unexpected one
   elsewhere, and a failed read if the transport broke down.
   */
  lemma ErrorTellsTheCut(ms: seq<Message>, m: Message, extra: nat, limit: Option<nat>, broken: bool)
    requires AllFit(ms, limit) && Fits(m, limit) && extra < |Frame(m)|
    ensures ErrorFor(ReceiveAll(Frames(ms) + Frame(m)[..extra], limit).1, broken) ==
              if broken then ReadFailed else if extra == 0 || extra == 4 then Eof else UnexpectedEof
  {
    EveryCutIsDetected(ms, m, extra, limit);
  }
}
