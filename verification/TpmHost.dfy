/**
 A Linux host and the TPM 2.0 below it, in one run.  Every seal of table keys is a
 seal of the TPM, every look for a saved table asks the TPM, and both start up
 together.
 */
module TpmHost {
  import opened Wrappers
  import opened Rollback
  import opened Layers
  import Runs = RollbackRuns
  import Tpm = Tpm2Counter

  datatype Joint = Joint(host: Runs.World, tpm: Tpm.World)

  /** How much of a save reaches the disk once the TPM has sealed the keys. */
  datatype Files = NoFile | KeysOnly | Both

  /** `x` are the faults of the TPM when it is asked for the keys, `y` those when it seals new ones. */
  datatype Event =
    | Init(child: string, tag: string, counter: Int64, x: Tpm.Faults)
    | Seal(child: string, tag: string, data: seq<Byte>, policy: string, key: Key, files: Files,
           x: Tpm.Faults, y: Tpm.Faults)
    | Unseal(child: string, blob: Blob, x: Tpm.Faults)
    | Tamper(keysFile: Option<HostBlob>, tableFile: Option<ProtectedTable>)
    | Restart

  function Start(name: string, value: nat): Joint {
    Joint(Runs.Start(name), Tpm.World(Tpm.Tpm(value, false), [], 0))
  }

  /** The call asks the TPM for the keys of the saved table. */
  predicate Asks(w: Runs.World, ev: Event) {
    && w.host.table.None? && w.host.keysFile.Some?
    && (ev.Init? || ev.Seal? || (ev.Unseal? && MayUnseal(ev.blob, ev.child)))
  }

  function AskedFor(j: Joint): Tpm.Blob {
    if j.host.host.keysFile.Some? && j.host.host.keysFile.value.serial < |j.tpm.issued|
    then j.tpm.issued[j.host.host.keysFile.value.serial] else Tpm.Blob(0, [])
  }

  /** The TPM after the part of a call that looks for a saved table. */
  function TpmAsked(j: Joint, ev: Event): Tpm.World {
    if Asks(j.host, ev) then Tpm.Next(j.tpm, Tpm.Unseal(AskedFor(j), ev.x)) else j.tpm
  }

  function AsResult(files: Files): Runs.SaveResult {
    match files
    case NoFile => Runs.NotWritten
    case KeysOnly => Runs.HalfWritten
    case Both => Runs.Complete
  }

  /** What the event is for the host, given what the TPM does. */
  function HostEvent(j: Joint, ev: Event): Runs.Event {
    match ev
    case Init(child, tag, c, x) => Runs.Init(child, tag, c, TpmAnswers(j.tpm, x))
    case Seal(child, tag, data, policy, key, files, x, y) =>
      var sealed := Tpm.SealStep(TpmAsked(j, ev).tpm, key, y).1.Some?;
      Runs.Seal(child, tag, data, policy, key, if sealed then AsResult(files) else Runs.NotSealed, TpmAnswers(j.tpm, x))
    case Unseal(child, blob, x) => Runs.Unseal(child, blob, TpmAnswers(j.tpm, x))
    case Tamper(k, t) => Runs.Tamper(k, t)
    case Restart => Runs.Restart
  }

  /** A seal that hands out a blob has had the TPM seal the table keys, or try to. */
  predicate Issues(j: Joint, ev: Event) {
    ev.Seal? && |Runs.Next(j.host, HostEvent(j, ev)).issued| > |j.host.issued|
  }

  function Next(j: Joint, ev: Event): Joint {
    Joint(Runs.Next(j.host, HostEvent(j, ev)),
          if ev.Restart? then Tpm.Next(j.tpm, Tpm.Restart)
          else if Issues(j, ev) then Tpm.Next(TpmAsked(j, ev), Tpm.Seal(ev.key, ev.y))
          else TpmAsked(j, ev))
  }

  function Run(name: string, value: nat, events: seq<Event>): Joint {
    if events == [] then Start(name, value)
    else Next(Run(name, value, events[..|events| - 1]), events[|events| - 1])
  }

  predicate Possible(name: string, value: nat, events: seq<Event>) {
    events != [] ==>
      var k := |events| - 1;
      var j := Run(name, value, events[..k]);
      Possible(name, value, events[..k]) && Runs.Enabled(j.host, HostEvent(j, events[k]))
  }

  // ----- what every joint run keeps

  /** Both sides keep their own invariants, and the TPM has sealed the table keys of the host, in order. */
  ghost predicate Inv(j: Joint) {
    Runs.Inv(j.host) && Tpm.Inv(j.tpm) && SealsOf(j.host.hostSeals, TpmData(j.tpm.issued))
  }

  lemma AskedKeepsTpm(j: Joint, ev: Event)
    requires Tpm.Inv(j.tpm)
    ensures Tpm.Inv(TpmAsked(j, ev)) && TpmAsked(j, ev).issued == j.tpm.issued
  {
    if Asks(j.host, ev) {
      Tpm.NextKeepsInv(j.tpm, Tpm.Unseal(AskedFor(j), ev.x));
    }
  }

  /** A seal adds a blob iff it succeeds, and a seal of table keys iff it does so without a failure below. */
  lemma SealCounts(w: Runs.World, ev: Runs.Event)
    ensures var w' := Runs.Next(w, ev);
            && (|w'.issued| > |w.issued| ==> ev.Seal?)
            && (w'.hostSeals == if |w'.issued| > |w.issued| && !ev.save.NotSealed?
                                then w.hostSeals + [HostBlob(|w.hostSeals|, ev.key)] else w.hostSeals)
  {
  }

  lemma NextKeepsInv(j: Joint, ev: Event)
    requires Inv(j) && Runs.Enabled(j.host, HostEvent(j, ev))
    ensures Inv(Next(j, ev))
  {
    Runs.NextKeepsInv(j.host, HostEvent(j, ev));
    NextKeepsTpm(j, ev);
    NextKeepsSeals(j, ev);
  }

  lemma NextKeepsTpm(j: Joint, ev: Event)
    requires Tpm.Inv(j.tpm)
    ensures Tpm.Inv(Next(j, ev).tpm)
  {
    AskedKeepsTpm(j, ev);
    if ev.Restart? {
      Tpm.NextKeepsInv(j.tpm, Tpm.Restart);
    } else if Issues(j, ev) {
      Tpm.NextKeepsInv(TpmAsked(j, ev), Tpm.Seal(ev.key, ev.y));
    }
  }

  lemma NextKeepsSeals(j: Joint, ev: Event)
    requires Tpm.Inv(j.tpm) && SealsOf(j.host.hostSeals, TpmData(j.tpm.issued))
    ensures SealsOf(Next(j, ev).host.hostSeals, TpmData(Next(j, ev).tpm.issued))
  {
    SealCounts(j.host, HostEvent(j, ev));
    AskedKeepsTpm(j, ev);
  }

  lemma {:induction false} RunsKeepInv(name: string, value: nat, events: seq<Event>)
    requires Possible(name, value, events)
    ensures Inv(Run(name, value, events))
  {
    if events != [] {
      var k := |events| - 1;
      RunsKeepInv(name, value, events[..k]);
      NextKeepsInv(Run(name, value, events[..k]), events[k]);
    }
  }

  /** What the host does over the TPM. */
  function HostEvents(name: string, value: nat, events: seq<Event>): (hs: seq<Runs.Event>)
    ensures |hs| == |events|
  {
    if events == [] then []
    else
      var k := |events| - 1;
      HostEvents(name, value, events[..k]) + [HostEvent(Run(name, value, events[..k]), events[k])]
  }

  /** The host of a joint run is in a run of its own, so that everything proved of those holds of it. */
  lemma {:induction false} HostRuns(name: string, value: nat, events: seq<Event>)
    requires Possible(name, value, events)
    ensures Runs.Possible(name, HostEvents(name, value, events))
    ensures Run(name, value, events).host == Runs.Run(name, HostEvents(name, value, events))
  {
    if events != [] {
      var k := |events| - 1;
      var hs := HostEvents(name, value, events);
      HostRuns(name, value, events[..k]);
      assert hs[..k] == HostEvents(name, value, events[..k]);
    }
  }

  /** In every joint run, what the host loads is what the TPM lets it load. */
  lemma LoadsThroughTpm(name: string, value: nat, events: seq<Event>, x: Tpm.Faults)
    requires Possible(name, value, events)
    ensures var j := Run(name, value, events);
            Load(j.host.host, TpmLower(j.tpm, x)) ==
              Load(j.host.host, Runs.Lower(j.host.hostSeals, TpmAnswers(j.tpm, x)))
  {
    RunsKeepInv(name, value, events);
    var j := Run(name, value, events);
    if j.host.host.keysFile.Some? {
      TpmIsLatestOnly(j.tpm, x, j.host.hostSeals, j.host.host.keysFile.value);
    }
    SameAnswerSameLoad(j.host.host, TpmLower(j.tpm, x), Runs.Lower(j.host.hostSeals, TpmAnswers(j.tpm, x)));
  }

  /**
   In every joint run, a host whose files are the newest gets its table back iff the
   TPM can be read and its counter has moved at most once since the last seal.
   */
  lemma TableSurvivesOverTpm(name: string, value: nat, events: seq<Event>, x: Tpm.Faults)
    requires Possible(name, value, events)
    ensures var j := Run(name, value, events);
            Runs.FilesNewest(j.host) ==> (Load(j.host.host, TpmLower(j.tpm, x)).Read? <==> TpmAnswers(j.tpm, x))
  {
    LoadsThroughTpm(name, value, events, x);
    var j := Run(name, value, events);
    if Runs.FilesNewest(j.host) {
      KeepsTableIffAnswered(j.host, TpmAnswers(j.tpm, x));
    }
  }

  // ----- a complete seal between any two start-ups

  /** Nothing fails, files are left alone, and no counter wraps around. */
  predicate Orderly(j: Joint, ev: Event) {
    match ev
    case Init(_, _, _, x) => x == Tpm.NO_FAULTS
    case Seal(child, tag, _, _, _, files, x, y) =>
      && x == Tpm.NO_FAULTS && y == Tpm.NO_FAULTS && files.Both?
      && !Runs.Wraps(Runs.LoadNext(j.host, "", TpmAnswers(j.tpm, x)).host, child, tag)
    case Unseal(_, _, x) => x == Tpm.NO_FAULTS
    case Tamper(_, _) => false
    case Restart => true
  }

  /** How many start-ups there have been since the last blob was handed out. */
  function StartUps(name: string, value: nat, events: seq<Event>): nat {
    if events == [] then 0
    else
      var k := |events| - 1;
      var before := StartUps(name, value, events[..k]);
      if events[k].Restart? then before + 1 else if Issues(Run(name, value, events[..k]), events[k]) then 0 else before
  }

  /** At no point have there been two start-ups since the last blob, once there is one. */
  predicate SealedBetween(name: string, value: nat, events: seq<Event>) {
    events != [] ==>
      var k := |events| - 1;
      && SealedBetween(name, value, events[..k])
      && Orderly(Run(name, value, events[..k]), events[k])
      && (Run(name, value, events).host.issued != [] ==> StartUps(name, value, events) <= 1)
  }

  /** The TPM has moved at most once for each start-up, and not yet for one in which it has not been opened. */
  predicate MovesBounded(j: Joint, startUps: nat) {
    j.host.issued != [] ==> j.tpm.moves + (if j.tpm.tpm.ready then 0 else 1) <= startUps
  }

  lemma MovesStayBounded(j: Joint, ev: Event, startUps: nat)
    requires MovesBounded(j, startUps) && Orderly(j, ev)
    ensures MovesBounded(Next(j, ev), if ev.Restart? then startUps + 1 else if Issues(j, ev) then 0 else startUps)
  {
    SealCounts(j.host, HostEvent(j, ev));
    OnlySealsIssue(j, ev);
  }

  lemma OnlySealsIssue(j: Joint, ev: Event)
    ensures !Issues(j, ev) ==> Runs.Next(j.host, HostEvent(j, ev)).issued == j.host.issued
  {
  }

  /** An orderly event of a host that the TPM answers is an undisturbed one. */
  lemma OrderlyIsUndisturbed(j: Joint, ev: Event)
    requires Orderly(j, ev) && TpmAnswers(j.tpm, Tpm.NO_FAULTS)
    ensures Runs.Undisturbed(j.host, HostEvent(j, ev))
  {
  }

  /** Before the first blob there is nothing to lapse. */
  lemma FirstBlobKeepsCurrent(w: Runs.World, ev: Runs.Event)
    requires Runs.FilesCurrent(w) && w.issued == [] && !ev.Tamper?
    requires ev.Seal? ==> ev.save.Complete? && !Runs.Wraps(Runs.LoadNext(w, "", ev.answers).host, ev.child, ev.tag)
    ensures Runs.FilesCurrent(Runs.Next(w, ev))
  {
    match ev {
      case Init(child, tag, c, answers) => Runs.InitDecomposes(w, child, tag, c, answers);
      case Seal(child, tag, data, policy, key, save, answers) =>
        Runs.SealDecomposes(w, child, tag, data, policy, key, save, answers);
        var l := Runs.LoadNext(w, "", answers);
        if l.host.table.Some? && Counter(l.host.table.value, ProgramName(l.host, child), tag).Some? {
          Runs.SealLoadedKeepsFilesCurrent(l, child, tag, data, policy, HostBlob(|w.hostSeals|, key));
        }
      case Unseal(child, blob, answers) => Runs.UnsealOnlyLoads(w, child, blob, answers);
      case Restart =>
    }
  }

  lemma OrderlySealSucceeds(j: Joint, ev: Event)
    requires Orderly(j, ev) && ev.Seal?
    ensures HostEvent(j, ev).save.Complete?
  {
  }

  lemma NextStaysCurrent(j: Joint, ev: Event, startUps: nat)
    requires Inv(j) && Runs.FilesCurrent(j.host) && MovesBounded(j, startUps)
    requires Orderly(j, ev) && Runs.Enabled(j.host, HostEvent(j, ev)) && (j.host.issued != [] ==> startUps <= 1)
    ensures Runs.FilesCurrent(Next(j, ev).host)
  {
    if j.host.issued == [] {
      if ev.Seal? {
        OrderlySealSucceeds(j, ev);
      }
      FirstBlobKeepsCurrent(j.host, HostEvent(j, ev));
    } else {
      OrderlyIsUndisturbed(j, ev);
      Runs.NextKeepsFilesCurrent(j.host, HostEvent(j, ev));
    }
  }

  /**
   As long as a complete seal comes between any two start-ups, and nothing fails, the
   files stay current and no pair ever lapses.
   */
  lemma {:induction false} SealedBetweenNeverLapses(name: string, value: nat, events: seq<Event>)
    requires Possible(name, value, events) && SealedBetween(name, value, events)
    ensures Runs.FilesCurrent(Run(name, value, events).host)
    ensures MovesBounded(Run(name, value, events), StartUps(name, value, events))
  {
    if events != [] {
      var k := |events| - 1;
      var j, n := Run(name, value, events[..k]), StartUps(name, value, events[..k]);
      RunsKeepInv(name, value, events[..k]);
      SealedBetweenNeverLapses(name, value, events[..k]);
      NextStaysCurrent(j, events[k], n);
      MovesStayBounded(j, events[k], n);
    }
  }

  // ----- two start-ups without a seal

  /** Two start-ups of host and TPM, in the first of which the host looked for its table. */
  function TwoStartUps(j: Joint, child: string, tag: string, c: Int64): Joint {
    Next(Next(Next(j, Restart), Init(child, tag, c, Tpm.NO_FAULTS)), Restart)
  }

  lemma TwoStartUpsMove(j: Joint, child: string, tag: string, c: Int64)
    requires j.host.host.keysFile.Some?
    ensures var j3 := TwoStartUps(j, child, tag, c);
            && j3.tpm.moves >= 1 && !j3.tpm.tpm.ready && j3.host.host.table.None?
            && j3.host.issued == j.host.issued && j3.host.host.name == j.host.host.name
            && !TpmAnswers(j3.tpm, Tpm.NO_FAULTS)
  {
    var j1 := Next(j, Restart);
    Runs.InitDecomposes(j1.host, child, tag, c, TpmAnswers(j1.tpm, Tpm.NO_FAULTS));
  }

  /**
   In every joint run, two start-ups without a seal in between make the host forget its
   table, and every blob bound to a program can be brought back by that program.
   */
  lemma TwoStartUpsForget(name: string, value: nat, events: seq<Event>, child: string, tag: string, c: Int64,
                          i: nat, owner: string)
    requires Possible(name, value, events)
    ensures var j0 := Run(name, value, events);
            var j := TwoStartUps(j0, child, tag, c);
            j0.host.host.keysFile.Some? ==>
              && Load(j.host.host, TpmLower(j.tpm, Tpm.NO_FAULTS)) == Empty
              && j.host.issued == j0.host.issued
              && (i < |j.host.issued| && MayUnseal(j.host.issued[i], owner) ==>
                    Runs.CanRevive(j.host.host, TpmLower(j.tpm, Tpm.NO_FAULTS), owner, j.host.issued[i]))
  {
    var j0 := Run(name, value, events);
    RunsKeepInv(name, value, events);
    if j0.host.host.keysFile.Some? {
      ForgetsFrom(j0, child, tag, c, i, owner);
    }
  }

  lemma ForgetsFrom(j0: Joint, child: string, tag: string, c: Int64, i: nat, owner: string)
    requires Inv(j0) && j0.host.host.keysFile.Some?
    ensures var j := TwoStartUps(j0, child, tag, c);
            && Load(j.host.host, TpmLower(j.tpm, Tpm.NO_FAULTS)) == Empty
            && j.host.issued == j0.host.issued
            && (i < |j.host.issued| && MayUnseal(j.host.issued[i], owner) ==>
                  Runs.CanRevive(j.host.host, TpmLower(j.tpm, Tpm.NO_FAULTS), owner, j.host.issued[i]))
  {
    TwoStartUpsMove(j0, child, tag, c);
    var j1 := Next(j0, Restart);
    var j2 := Next(j1, Init(child, tag, c, Tpm.NO_FAULTS));
    var j := Next(j2, Restart);
    NextKeepsInv(j0, Restart);
    NextKeepsInv(j1, Init(child, tag, c, Tpm.NO_FAULTS));
    NextKeepsInv(j2, Restart);
    if j.host.host.keysFile.Some? {
      TpmIsLatestOnly(j.tpm, Tpm.NO_FAULTS, j.host.hostSeals, j.host.host.keysFile.value);
    }
    var lower := TpmLower(j.tpm, Tpm.NO_FAULTS);
    SameAnswerSameLoad(j.host.host, lower, Runs.Lower(j.host.hostSeals, false));
    assert Load(j.host.host, lower) == Empty;
    if i < |j.host.issued| && MayUnseal(j.host.issued[i], owner) {
      Runs.ReviveIsExact(j.host.host, lower, owner, j.host.issued[i]);
    }
  }
}
