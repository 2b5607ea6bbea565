/**
 The two hosts at the bottom of a stack that seal with rollback protection: the
 TPM 2.0, whose hardware counter also moves at every start-up, and the software
 root host, whose counter can be set at will.
 */
module Tpm2Counter {
  import opened Wrappers

  /** The hardware counter, and whether this process has opened it. */
  datatype Tpm = Tpm(value: nat, ready: bool)

  /** What a sealed blob records. */
  datatype Blob = Blob(slot: nat, data: seq<Byte>)

  /** Two hardware values share a slot, so that one start-up increment does not change it. */
  function Slot(v: nat): nat {
    (v + 1) / 2
  }

  /** Which of the device commands of a call fail; a failing command has no effect. */
  datatype Faults = Faults(open: bool, read: bool, first: bool, second: bool, reread: bool)

  const NO_FAULTS := Faults(false, false, false, false, false)

  /** The counter can only be read after an increment, made once per start-up; a failing one is not repeated. */
  function Open(s: Tpm, fails: bool): Tpm {
    if s.ready || fails then s.(ready := true) else Tpm(s.value + 1, true)
  }

  /** One increment, or two from an odd value, each of which may fail. */
  function SealStep(s: Tpm, data: seq<Byte>, x: Faults): (Tpm, Option<Blob>) {
    var o := Open(s, x.open);
    var v := o.value + (if o.value % 2 != 0 then 2 else 1);
    if x.read || x.first then (o, None)
    else if o.value % 2 != 0 && x.second then (Tpm(o.value + 1, true), None)
    else if x.reread then (Tpm(v, true), None)
    else (Tpm(v, true), Some(Blob(Slot(v), data)))
  }

  function UnsealStep(s: Tpm, blob: Blob, x: Faults): (Tpm, Option<seq<Byte>>) {
    var o := Open(s, x.open);
    (o, if !x.read && blob.slot == Slot(o.value) then Some(blob.data) else None)
  }

  class Tpm2Tao {
    var nvCounter: nat
    var ready: bool

    function Snapshot(): Tpm
      reads this
    {
      Tpm(nvCounter, ready)
    }

    constructor (value: nat)
      ensures Snapshot() == Tpm(value, false)
    {
      nvCounter, ready := value, false;
    }

    method IncrementNv(fails: bool) returns (ok: bool)
      modifies this`nvCounter
      ensures ok == !fails && nvCounter == old(nvCounter) + if ok then 1 else 0
    {
      if fails {
        return false;
      }
      nvCounter := nvCounter + 1;
      ok := true;
    }

    method InitCounter(fails: bool) returns (ok: bool)
      modifies this
      ensures Snapshot() == Open(old(Snapshot()), fails) && ok == (old(ready) || !fails)
    {
      if ready {
        return true;
      }
      ready := true;
      ok := IncrementNv(fails);
    }

    method RollbackProtectedSeal(data: seq<Byte>, x: Faults) returns (blob: Option<Blob>)
      modifies this
      ensures (Snapshot(), blob) == SealStep(old(Snapshot()), data, x)
    {
      var _ := InitCounter(x.open);
      if x.read {
        return None;
      }
      var c := nvCounter;
      var ok := IncrementNv(x.first);
      if !ok {
        return None;
      }
      if c % 2 != 0 {
        ok := IncrementNv(x.second);
        if !ok {
          return None;
        }
      }
      if x.reread {
        return None;
      }
      blob := Some(Blob(Slot(nvCounter), data));
    }

    method RollbackProtectedUnseal(blob: Blob, x: Faults) returns (r: Option<seq<Byte>>)
      modifies this
      ensures (Snapshot(), r) == UnsealStep(old(Snapshot()), blob, x)
    {
      var _ := InitCounter(x.open);
      if x.read {
        return None;
      }
      r := if blob.slot == Slot(nvCounter) then Some(blob.data) else None;
    }
  }

  /** Whatever the parity, a seal that succeeds raises the slot by exactly one and leaves the hardware value odd. */
  lemma SealRaisesSlotByOne(s: Tpm, data: seq<Byte>, x: Faults)
    requires SealStep(s, data, x).1.Some?
    ensures var (s', blob) := SealStep(s, data, x);
            && s'.value % 2 == 1
            && blob.value.slot == Slot(s'.value) == Slot(Open(s, x.open).value) + 1
            && s'.value + 1 == 2 * blob.value.slot
  {
  }

  // ----- whole runs

  datatype Event = Seal(data: seq<Byte>, x: Faults) | Unseal(blob: Blob, x: Faults) | Restart

  /** `moves` counts the increments since the last blob was handed out: start-ups, and seals that failed half way. */
  datatype World = World(tpm: Tpm, issued: seq<Blob>, moves: nat)

  function Next(w: World, ev: Event): World {
    match ev
    case Seal(data, x) =>
      var (s, blob) := SealStep(w.tpm, data, x);
      if blob.Some? then World(s, w.issued + [blob.value], 0) else Moved(w, s)
    case Unseal(blob, x) => Moved(w, UnsealStep(w.tpm, blob, x).0)
    case Restart => w.(tpm := w.tpm.(ready := false))
  }

  function Moved(w: World, s: Tpm): World
    requires w.tpm.value <= s.value
  {
    w.(tpm := s, moves := w.moves + (s.value - w.tpm.value))
  }

  function Run(value: nat, events: seq<Event>): World {
    if events == [] then World(Tpm(value, false), [], 0)
    else Next(Run(value, events[..|events| - 1]), events[|events| - 1])
  }

  /** Slots of successive blobs strictly increase, and the hardware is ahead of the last one by the moves since. */
  ghost predicate Inv(w: World) {
    && (forall i, j :: 0 <= i < j < |w.issued| ==> w.issued[i].slot < w.issued[j].slot)
    && (w.issued != [] ==> w.tpm.value + 1 == 2 * w.issued[|w.issued| - 1].slot + w.moves)
  }

  lemma NextKeepsInv(w: World, ev: Event)
    requires Inv(w)
    ensures Inv(Next(w, ev))
  {
    if ev.Seal? && SealStep(w.tpm, ev.data, ev.x).1.Some? && w.issued != [] {
      SealRaisesSlotByOne(w.tpm, ev.data, ev.x);
      var last, v := w.issued[|w.issued| - 1].slot, Open(w.tpm, ev.x.open).value;
      assert v + 1 >= 2 * last;
      assert Slot(v) >= last;
    }
  }

  lemma {:induction false} RunsKeepInv(value: nat, events: seq<Event>)
    ensures Inv(Run(value, events))
  {
    if events != [] {
      RunsKeepInv(value, events[..|events| - 1]);
      NextKeepsInv(Run(value, events[..|events| - 1]), events[|events| - 1]);
    }
  }

  /** How often the counter has moved once this call has opened it. */
  function MovesOnOpening(w: World, x: Faults): nat {
    Moved(w, Open(w.tpm, x.open)).moves
  }

  /**
   After any run, an issued blob unseals iff the counter can be read, no blob came
   after it, and the counter has moved at most once since, by this very call included.
   */
  lemma LatestBlobSurvivesOneMove(value: nat, events: seq<Event>, i: nat, x: Faults)
    requires i < |Run(value, events).issued|
    ensures var w := Run(value, events);
            UnsealStep(w.tpm, w.issued[i], x).1.Some? <==>
              !x.read && i == |w.issued| - 1 && MovesOnOpening(w, x) <= 1
  {
    RunsKeepInv(value, events);
    SurvivesOneMove(Run(value, events), i, x);
  }

  lemma SurvivesOneMove(w: World, i: nat, x: Faults)
    requires Inv(w) && i < |w.issued|
    ensures UnsealStep(w.tpm, w.issued[i], x).1.Some? <==>
              !x.read && i == |w.issued| - 1 && MovesOnOpening(w, x) <= 1
  {
    var last, moves := w.issued[|w.issued| - 1].slot, MovesOnOpening(w, x);
    assert Open(w.tpm, x.open).value + 1 == 2 * last + moves;
    assert Slot(Open(w.tpm, x.open).value) == last + moves / 2;
  }

  // ----- what comes back is what went in

  /** The `k`-th event of the run hands out the `i`-th blob. */
  predicate HandsOut(value: nat, events: seq<Event>, k: nat, i: nat) {
    k < |events| && |Run(value, events[..k]).issued| == i && |Run(value, events[..k + 1]).issued| == i + 1
  }

  lemma HandsOutInPrefix(value: nat, events: seq<Event>, n: nat, k: nat, i: nat)
    requires k < n <= |events|
    ensures HandsOut(value, events[..n], k, i) <==> HandsOut(value, events, k, i)
  {
    assert events[..n][..k] == events[..k] && events[..n][..k + 1] == events[..k + 1];
  }

  lemma {:induction false} EveryBlobIsHandedOut(value: nat, events: seq<Event>, i: nat)
    requires i < |Run(value, events).issued|
    ensures exists k: nat :: HandsOut(value, events, k, i)
  {
    var n := |events| - 1;
    if i < |Run(value, events[..n]).issued| {
      EveryBlobIsHandedOut(value, events[..n], i);
      var k: nat :| HandsOut(value, events[..n], k, i);
      HandsOutInPrefix(value, events, n, k, i);
    } else {
      assert events[..n + 1] == events;
      assert HandsOut(value, events, n, i);
    }
  }

  lemma {:induction false} BlobHoldsSealedData(value: nat, events: seq<Event>, k: nat, i: nat)
    requires HandsOut(value, events, k, i)
    ensures events[k].Seal? && i < |Run(value, events).issued| && Run(value, events).issued[i].data == events[k].data
  {
    var n := |events| - 1;
    if k == n {
      assert events[..k + 1] == events;
    } else {
      HandsOutInPrefix(value, events, n, k, i);
      BlobHoldsSealedData(value, events[..n], k, i);
    }
  }

  /**
   After any run, unsealing the blob that a seal handed out returns the data of that
   very seal if no blob came after it and the counter has moved at most once, and
   nothing otherwise.
   */
  lemma UnsealReturnsWhatWasSealed(value: nat, events: seq<Event>, k: nat, i: nat, x: Faults)
    requires HandsOut(value, events, k, i)
    ensures var w := Run(value, events);
            && events[k].Seal? && i < |w.issued|
            && UnsealStep(w.tpm, w.issued[i], x).1 ==
                 if !x.read && i == |w.issued| - 1 && MovesOnOpening(w, x) <= 1 then Some(events[k].data) else None
  {
    BlobHoldsSealedData(value, events, k, i);
    LatestBlobSurvivesOneMove(value, events, i, x);
  }

  /** The increments that a seal makes, and the faults that keep it from handing out a blob. */
  lemma FaultsStopASeal(s: Tpm, data: seq<Byte>, x: Faults)
    ensures var (s', blob) := SealStep(s, data, x);
            var after := s.value + (if s.ready || x.open then 0 else 1);
            && s'.ready
            && (blob.Some? <==> !x.read && !x.first && !x.reread && (after % 2 == 1 ==> !x.second))
            && (x.read || x.first ==> s'.value == after)
            && (!x.read && !x.first ==> s'.value == after + if after % 2 == 1 && !x.second then 2 else 1)
            && (blob.Some? ==> blob.value.data == data && 2 * blob.value.slot == s'.value + 1)
  {
  }

  /** Unsealing opens the counter and moves nothing else. */
  lemma UnsealOnlyOpens(s: Tpm, blob: Blob, x: Faults)
    ensures UnsealStep(s, blob, x).0 == Tpm(s.value + (if s.ready || x.open then 0 else 1), true)
  {
  }

  /** `n` start-ups that open the counter and seal nothing. */
  function StartUps(n: nat, blob: Blob): seq<Event> {
    if n == 0 then [] else StartUps(n - 1, blob) + [Restart, Unseal(blob, NO_FAULTS)]
  }

  lemma RunExtends(value: nat, events: seq<Event>, ev: Event)
    ensures Run(value, events + [ev]) == Next(Run(value, events), ev)
  {
    assert (events + [ev])[..|events|] == events;
  }

  lemma {:induction false} StartUpsMove(value: nat, events: seq<Event>, n: nat, blob: Blob)
    ensures var w, w' := Run(value, events), Run(value, events + StartUps(n, blob));
            w'.issued == w.issued && w'.moves == w.moves + n
  {
    if n == 0 {
      assert events + [] == events;
    } else {
      StartUpsMove(value, events, n - 1, blob);
      var so := events + StartUps(n - 1, blob);
      RunExtends(value, so, Restart);
      RunExtends(value, so + [Restart], Unseal(blob, NO_FAULTS));
      assert so + [Restart] + [Unseal(blob, NO_FAULTS)] == events + StartUps(n, blob);
    }
  }

  /** A blob just sealed survives the first start-up after it, and none of the later ones. */
  lemma BlobSurvivesOneStartUp(value: nat, events: seq<Event>, data: seq<Byte>, n: nat, blob: Blob)
    ensures var sealed := Run(value, events + [Seal(data, NO_FAULTS)]);
            var w := Run(value, events + [Seal(data, NO_FAULTS)] + StartUps(n, blob) + [Restart]);
            && sealed.issued != []
            && (UnsealStep(w.tpm, sealed.issued[|sealed.issued| - 1], NO_FAULTS).1.Some? <==> n == 0)
  {
    var so := events + [Seal(data, NO_FAULTS)];
    RunExtends(value, events, Seal(data, NO_FAULTS));
    StartUpsMove(value, so, n, blob);
    RunExtends(value, so + StartUps(n, blob), Restart);
    LatestBlobSurvivesOneMove(value, so + StartUps(n, blob) + [Restart], |Run(value, so).issued| - 1, NO_FAULTS);
  }
}

module RootCounter {
  import opened Wrappers
  import opened Rollback

  datatype SealedData = SealedData(counter: Int64, data: seq<Byte>)

  /** The process-wide counter of the software root host. */
  class RootHost {
    var counter: Int64

    constructor ()
      ensures counter == 0
    {
      counter := 0;
    }

    method InitCounter(c: Int64)
      modifies this
      ensures counter == c
    {
      counter := c;
    }

    method RollbackProtectedSeal(data: seq<Byte>) returns (blob: SealedData)
      modifies this
      ensures (counter, blob) == SealRoot(old(counter), data)
    {
      counter := Increment(counter);
      blob := SealedData(counter, data);
    }

    method RollbackProtectedUnseal(blob: SealedData) returns (r: Option<seq<Byte>>)
      ensures r == UnsealRoot(counter, blob)
    {
      r := if blob.counter == counter then Some(blob.data) else None;
    }
  }

  function SealRoot(counter: Int64, data: seq<Byte>): (Int64, SealedData) {
    (Increment(counter), SealedData(Increment(counter), data))
  }

  function UnsealRoot(counter: Int64, blob: SealedData): Option<seq<Byte>> {
    if blob.counter == counter then Some(blob.data) else None
  }

  /** A new process starts counting from zero again. */
  datatype Event = Init(c: Int64) | Seal(data: seq<Byte>) | Restart

  datatype World = World(counter: Int64, issued: seq<SealedData>)

  function Next(w: World, ev: Event): World {
    match ev
    case Init(c) => w.(counter := c)
    case Seal(data) =>
      var (c, blob) := SealRoot(w.counter, data);
      World(c, w.issued + [blob])
    case Restart => w.(counter := 0)
  }

  function Run(events: seq<Event>): World {
    if events == [] then World(0, []) else Next(Run(events[..|events| - 1]), events[|events| - 1])
  }

  ghost predicate Rising(w: World) {
    && (forall i, j :: 0 <= i < j < |w.issued| ==> w.issued[i].counter < w.issued[j].counter)
    && (forall i :: 0 <= i < |w.issued| ==> 0 < w.issued[i].counter <= w.counter)
    && 0 <= w.counter
  }

  predicate MovesForward(w: World, ev: Event) {
    match ev
    case Init(c) => w.counter <= c
    case Seal(_) => w.counter < MAX_INT64
    case Restart => w.counter == 0
  }

  /** The counter is never set back and never wraps around. */
  predicate Forward(events: seq<Event>) {
    events != [] ==>
      var k := |events| - 1; Forward(events[..k]) && MovesForward(Run(events[..k]), events[k])
  }

  lemma NextKeepsRising(w: World, ev: Event)
    requires Rising(w) && MovesForward(w, ev)
    ensures Rising(Next(w, ev))
  {
  }

  lemma {:induction false} RunsKeepRising(events: seq<Event>)
    requires Forward(events)
    ensures Rising(Run(events))
  {
    if events != [] {
      var k := |events| - 1;
      RunsKeepRising(events[..k]);
      NextKeepsRising(Run(events[..k]), events[k]);
    }
  }

  /** As long as the counter only moves forward, no blob but the last one issued unseals. */
  lemma OnlyTheLatestUnseals(events: seq<Event>, i: nat)
    requires Forward(events)
    requires i < |Run(events).issued| && UnsealRoot(Run(events).counter, Run(events).issued[i]).Some?
    ensures i == |Run(events).issued| - 1
  {
    RunsKeepRising(events);
    var w := Run(events);
    assert w.issued[|w.issued| - 1].counter <= w.counter;
  }

  /** The `k`-th event of the run hands out the `i`-th blob. */
  predicate HandsOut(events: seq<Event>, k: nat, i: nat) {
    k < |events| && |Run(events[..k]).issued| == i && |Run(events[..k + 1]).issued| == i + 1
  }

  lemma HandsOutInPrefix(events: seq<Event>, n: nat, k: nat, i: nat)
    requires k < n <= |events|
    ensures HandsOut(events[..n], k, i) <==> HandsOut(events, k, i)
  {
    assert events[..n][..k] == events[..k] && events[..n][..k + 1] == events[..k + 1];
  }

  lemma {:induction false} EveryBlobIsHandedOut(events: seq<Event>, i: nat)
    requires i < |Run(events).issued|
    ensures exists k: nat :: HandsOut(events, k, i)
  {
    var n := |events| - 1;
    if i < |Run(events[..n]).issued| {
      EveryBlobIsHandedOut(events[..n], i);
      var k: nat :| HandsOut(events[..n], k, i);
      HandsOutInPrefix(events, n, k, i);
    } else {
      assert events[..n + 1] == events;
      assert HandsOut(events, n, i);
    }
  }

  lemma {:induction false} BlobHoldsSealedData(events: seq<Event>, k: nat, i: nat)
    requires HandsOut(events, k, i)
    ensures events[k].Seal? && i < |Run(events).issued| && Run(events).issued[i].data == events[k].data
    ensures var now := Run(events[..k]).counter;
            Run(events).issued[i].counter == if now == 0x7FFF_FFFF_FFFF_FFFF then -0x8000_0000_0000_0000 else now + 1
  {
    var n := |events| - 1;
    if k == n {
      assert events[..k + 1] == events;
    } else {
      HandsOutInPrefix(events, n, k, i);
      assert events[..n][..k] == events[..k];
      BlobHoldsSealedData(events[..n], k, i);
    }
  }

  /**
   After any run, unsealing the blob that a seal handed out returns the data of that
   very seal if the counter is one more than it was before that seal, wrap-around
   aside, and nothing otherwise.
   */
  lemma UnsealReturnsWhatWasSealed(events: seq<Event>, k: nat, i: nat)
    requires HandsOut(events, k, i)
    ensures var w, now := Run(events), Run(events[..k]).counter;
            && events[k].Seal? && i < |w.issued|
            && UnsealRoot(w.counter, w.issued[i]) ==
                 if w.counter == (if now == 0x7FFF_FFFF_FFFF_FFFF then -0x8000_0000_0000_0000 else now + 1)
                 then Some(events[k].data) else None
  {
    BlobHoldsSealedData(events, k, i);
  }

  /** Setting the counter back brings any issued blob to life again, however old. */
  lemma SettingBackRevives(events: seq<Event>, i: nat)
    requires i < |Run(events).issued|
    ensures var w, blob := Run(events), Run(events).issued[i];
            && UnsealRoot(Run(events + [Init(blob.counter)]).counter, blob) == Some(blob.data)
            && (Forward(events) && blob.counter < w.counter ==> !Forward(events + [Init(blob.counter)]))
  {
    var more := events + [Init(Run(events).issued[i].counter)];
    assert more[..|more| - 1] == events;
  }

  /** A new process refuses every blob issued while the counter only moved forward. */
  lemma RestartRefusesAll(events: seq<Event>, i: nat)
    requires Forward(events) && i < |Run(events).issued|
    ensures UnsealRoot(Run(events + [Restart]).counter, Run(events).issued[i]) == None
  {
    RunsKeepRising(events);
    assert (events + [Restart])[..|events|] == events;
  }
}
