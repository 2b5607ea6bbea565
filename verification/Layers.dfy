/**
 A rollback-protecting Linux host on top of each of the hosts that can be below it.
 Whole runs were treated with an ideal lower host, which unseals its newest blob or
 nothing; here the TPM 2.0, the software root and another Linux host take its place.
 */
module Layers {
  import opened Wrappers
  import opened Rollback
  import Runs = RollbackRuns
  import Tpm = Tpm2Counter
  import Root = RootCounter

  /** The label under which every host seals the keys of its table. */
  const TABLE_SECRET := "Table_secret"

  /** The lower host numbers the seals in the order it made them. */
  ghost predicate Numbered(hostSeals: seq<HostBlob>) {
    forall i :: 0 <= i < |hostSeals| ==> hostSeals[i].serial == i
  }

  /** The seals, in order, are of the given data. */
  ghost predicate SealsOf(hostSeals: seq<HostBlob>, data: seq<seq<Byte>>) {
    Numbered(hostSeals) && |hostSeals| == |data| && forall i :: 0 <= i < |hostSeals| ==> hostSeals[i].key == data[i]
  }

  /** In every run a host numbers the seals of its table keys like that. */
  lemma {:induction false} RunsAreNumbered(name: string, events: seq<Runs.Event>)
    ensures Numbered(Runs.Run(name, events).hostSeals)
  {
    if events != [] {
      var k := |events| - 1;
      RunsAreNumbered(name, events[..k]);
      NextIsNumbered(Runs.Run(name, events[..k]), events[k]);
    }
  }

  lemma NextIsNumbered(w: Runs.World, ev: Runs.Event)
    requires Numbered(w.hostSeals)
    ensures Numbered(Runs.Next(w, ev).hostSeals)
  {
  }

  /** A host sees its lower host only through the blob in its keys file. */
  lemma SameAnswerSameLoad(h: Host, lower: LowerUnseal, lower': LowerUnseal)
    requires h.keysFile.Some? ==> lower(h.keysFile.value) == lower'(h.keysFile.value)
    ensures Load(h, lower) == Load(h, lower')
  {
  }

  /** With the newest files, a host has its table back after a restart iff the lower host answers. */
  lemma KeepsTableIffAnswered(w: Runs.World, answers: bool)
    requires Runs.FilesNewest(w)
    ensures Load(w.host, Runs.Lower(w.hostSeals, answers)).Read? <==> answers
  {
  }

  // ----- over a TPM 2.0

  /** Asks the TPM for the seal with the blob's number, and gets the data it sealed. */
  function TpmLower(t: Tpm.World, x: Tpm.Faults): LowerUnseal {
    (b: HostBlob) => if b.serial < |t.issued| then Tpm.UnsealStep(t.tpm, t.issued[b.serial], x).1 else None
  }

  function TpmData(issued: seq<Tpm.Blob>): (data: seq<seq<Byte>>)
    ensures |data| == |issued|
  {
    seq(|issued|, i requires 0 <= i < |issued| => issued[i].data)
  }

  predicate TpmAnswers(t: Tpm.World, x: Tpm.Faults) {
    !x.read && Tpm.MovesOnOpening(t, x) <= 1
  }

  /**
   A TPM that has kept its invariant, as it does in every run, is an ideal lower host:
   one that answers while its counter has moved at most once since its last seal.
   */
  lemma TpmIsLatestOnly(t: Tpm.World, x: Tpm.Faults, hostSeals: seq<HostBlob>, b: HostBlob)
    requires Tpm.Inv(t) && SealsOf(hostSeals, TpmData(t.issued)) && b in hostSeals
    ensures TpmLower(t, x)(b) == Runs.Lower(hostSeals, TpmAnswers(t, x))(b)
  {
    var i :| 0 <= i < |hostSeals| && hostSeals[i] == b;
    Tpm.SurvivesOneMove(t, i, x);
  }

  // ----- over the software root

  function RootLower(r: Root.World): LowerUnseal {
    (b: HostBlob) => if b.serial < |r.issued| then Root.UnsealRoot(r.counter, r.issued[b.serial]) else None
  }

  function RootData(issued: seq<Root.SealedData>): (data: seq<seq<Byte>>)
    ensures |data| == |issued|
  {
    seq(|issued|, i requires 0 <= i < |issued| => issued[i].data)
  }

  predicate RootAnswers(r: Root.World) {
    r.issued != [] && r.issued[|r.issued| - 1].counter == r.counter
  }

  /** While its counter only moves forward, the software root is an ideal lower host. */
  lemma RootIsLatestOnly(events: seq<Root.Event>, hostSeals: seq<HostBlob>, b: HostBlob)
    requires Root.Forward(events) && SealsOf(hostSeals, RootData(Root.Run(events).issued)) && b in hostSeals
    ensures var r := Root.Run(events); RootLower(r)(b) == Runs.Lower(hostSeals, RootAnswers(r))(b)
  {
    var i :| 0 <= i < |hostSeals| && hostSeals[i] == b;
    if Root.UnsealRoot(Root.Run(events).counter, Root.Run(events).issued[i]).Some? {
      Root.OnlyTheLatestUnseals(events, i);
    }
  }

  /** A new process of the software root has lost count, so a host whose keys it sealed does not get its table back. */
  lemma TableIsLostOverRoot(name: string, hostEvents: seq<Runs.Event>, events: seq<Root.Event>)
    requires Runs.Possible(name, hostEvents) && Root.Forward(events)
    requires |Runs.Run(name, hostEvents).hostSeals| == |Root.Run(events).issued|
    ensures Load(Runs.Run(name, hostEvents).host, RootLower(Root.Run(events + [Root.Restart]))) == Empty
  {
    var w, r := Runs.Run(name, hostEvents), Root.Run(events + [Root.Restart]);
    Runs.RunsKeepInv(name, hostEvents);
    RunsAreNumbered(name, hostEvents);
    assert (events + [Root.Restart])[..|events|] == events;
    if w.host.keysFile.Some? {
      var i :| 0 <= i < |w.hostSeals| && w.hostSeals[i] == w.host.keysFile.value;
      Root.RestartRefusesAll(events, i);
      assert RootLower(r)(w.host.keysFile.value) == None;
    }
  }

  // ----- over another Linux host

  /** The event initialises the counter of this program and label. */
  predicate Initialises(ev: Runs.Event, child: string, tag: string) {
    ev.Init? && ev.child == child && ev.tag == tag
  }

  /** Neither memory nor any table ever written has a counter for the pair. */
  ghost predicate NoCounterAnywhere(w: Runs.World, program: string, tag: string) {
    && (w.host.table.Some? ==> Counter(w.host.table.value, program, tag).None?)
    && (forall p :: p in w.tables ==> Counter(p.table, program, tag).None?)
  }

  lemma LoadBringsNoCounter(w: Runs.World, tag: string, answers: bool, p: string, l: string)
    requires Runs.Inv(w) && NoCounterAnywhere(w, p, l)
    ensures NoCounterAnywhere(Runs.LoadNext(w, tag, answers), p, l)
  {
    if Load(w.host, Runs.Lower(w.hostSeals, answers)).Read? {
      Runs.LoadedTableIsNewest(w, answers);
    }
  }

  lemma ProgramNameInjective(h: Host, child: string, other: string)
    requires ProgramName(h, child) == ProgramName(h, other)
    ensures child == other
  {
    assert ProgramName(h, child)[|h.name|..] == child && ProgramName(h, other)[|h.name|..] == other;
  }

  lemma RaiseBringsNoCounter(w: Runs.World, program: string, tag: string, c: Int64, p: string, l: string)
    requires w.host.table.Some? && NoCounterAnywhere(w, p, l) && (program, tag) != (p, l)
    ensures NoCounterAnywhere(Runs.Raise(w, program, tag, c), p, l)
  {
    UpdatedCounters(w.host.table.value, program, tag, c);
  }

  lemma NextBringsNoCounter(w: Runs.World, ev: Runs.Event, child: string, tag: string)
    requires Runs.Inv(w) && !Initialises(ev, child, tag)
    requires NoCounterAnywhere(w, ProgramName(w.host, child), tag)
    ensures NoCounterAnywhere(Runs.Next(w, ev), ProgramName(w.host, child), tag)
  {
    var p := ProgramName(w.host, child);
    match ev {
      case Init(other, label', c, answers) =>
        InitBringsNoCounter(w, other, label', c, answers, child, tag);
      case Seal(other, label', data, policy, key, save, answers) =>
        LoadBringsNoCounter(w, "", answers, p, tag);
        Runs.SealDecomposes(w, other, label', data, policy, key, save, answers);
        var l, outcome := Runs.LoadNext(w, "", answers), Runs.Outcome(w, key, save);
        SealBringsNoCounter(l, other, label', data, policy, outcome, p, tag);
      case Unseal(other, blob, answers) =>
        LoadBringsNoCounter(w, "", answers, p, tag);
        Runs.UnsealOnlyLoads(w, other, blob, answers);
      case Tamper(_, _) =>
      case Restart =>
    }
  }

  lemma InitBringsNoCounter(w: Runs.World, other: string, label': string, c: Int64, answers: bool, child: string,
                            tag: string)
    requires Runs.Inv(w) && (other, label') != (child, tag)
    requires NoCounterAnywhere(w, ProgramName(w.host, child), tag)
    ensures NoCounterAnywhere(Runs.Next(w, Runs.Init(other, label', c, answers)), ProgramName(w.host, child), tag)
  {
    var p, q := ProgramName(w.host, child), ProgramName(w.host, other);
    LoadBringsNoCounter(w, label', answers, p, tag);
    Runs.InitDecomposes(w, other, label', c, answers);
    if p == q {
      ProgramNameInjective(w.host, child, other);
    }
    if label' != "" {
      RaiseBringsNoCounter(Runs.LoadNext(w, label', answers), q, label', c, p, tag);
    }
  }

  /** A seal raises only a counter that is there. */
  lemma SealBringsNoCounter(l: Runs.World, other: string, label': string, data: seq<Byte>, policy: string,
                            outcome: SaveOutcome, p: string, tag: string)
    requires NoCounterAnywhere(l, p, tag)
    ensures l.host.table.Some? && Counter(l.host.table.value, ProgramName(l.host, other), label').Some? ==>
              NoCounterAnywhere(Runs.SealLoaded(l, other, label', data, policy, outcome), p, tag)
  {
    var q := ProgramName(l.host, other);
    if l.host.table.Some? && Counter(l.host.table.value, q, label').Some? {
      var c := Increment(Counter(l.host.table.value, q, label').value);
      RaiseBringsNoCounter(Runs.NoteWrap(l, other, label'), q, label', c, p, tag);
    }
  }

  lemma {:induction false} RunsBringNoCounter(name: string, events: seq<Runs.Event>, child: string, tag: string)
    requires Runs.Possible(name, events)
    requires forall i :: 0 <= i < |events| ==> !Initialises(events[i], child, tag)
    ensures var w := Runs.Run(name, events); w.host.name == name && NoCounterAnywhere(w, name + child, tag)
  {
    if events != [] {
      var k := |events| - 1;
      Runs.RunsKeepInv(name, events[..k]);
      RunsBringNoCounter(name, events[..k], child, tag);
      var before, ev := Runs.Run(name, events[..k]), events[k];
      NextBringsNoCounter(before, ev, child, tag);
      Runs.NameStays(before, ev);
    }
  }

  /**
   In every run in which nobody initialises the counter of a program and label, every
   seal under it fails, and so does a seal of table keys by a host on top.
   */
  lemma SealsNeedAnInitialisedCounter(name: string, events: seq<Runs.Event>, child: string, tag: string,
                                      data: seq<Byte>, policy: string, save: SaveOutcome, answers: bool)
    requires Runs.Possible(name, events)
    requires forall i :: 0 <= i < |events| ==> !Initialises(events[i], child, tag)
    ensures var w := Runs.Run(name, events);
            SealStep(w.host, Runs.Lower(w.hostSeals, answers), child, tag, data, policy, save).1.Err?
  {
    Runs.RunsKeepInv(name, events);
    RunsBringNoCounter(name, events, child, tag);
    LoadBringsNoCounter(Runs.Run(name, events), "", answers, name + child, tag);
  }

  /** All the seals of table keys failed. */
  predicate NeverSaves(events: seq<Runs.Event>) {
    forall i :: 0 <= i < |events| ==> events[i].Seal? ==> events[i].save.NotSealed?
  }

  predicate DiskEmpty(w: Runs.World) {
    w.hostSeals == [] && w.tables == {} && w.host.keysFile == None && w.host.tableFile == None
  }

  lemma DiskStaysEmpty(w: Runs.World, ev: Runs.Event)
    requires DiskEmpty(w) && Runs.Enabled(w, ev) && (ev.Seal? ==> ev.save.NotSealed?)
    ensures DiskEmpty(Runs.Next(w, ev))
  {
  }

  lemma {:induction false} NothingIsSaved(name: string, events: seq<Runs.Event>)
    requires Runs.Possible(name, events) && NeverSaves(events)
    ensures DiskEmpty(Runs.Run(name, events))
  {
    if events != [] {
      var k := |events| - 1;
      NothingIsSaved(name, events[..k]);
      DiskStaysEmpty(Runs.Run(name, events[..k]), events[k]);
    }
  }

  /** Nobody has initialised the counter for the table keys of `self`. */
  predicate NeverInitialised(events: seq<Runs.Event>, self: string) {
    forall k :: 0 <= k < |events| ==> !Initialises(events[k], self, TABLE_SECRET)
  }

  /**
   The event of the upper host takes place after the lower host's run `below`: its
   table keys are sealed iff the lower host does so.
   */
  predicate TakesPlaceOver(ev: Runs.Event, lowerName: string, below: seq<Runs.Event>, self: string, keys: seq<Byte>,
                           save: SaveOutcome, answers: bool)
  {
    ev.Seal? ==>
      var w := Runs.Run(lowerName, below);
      && Runs.Possible(lowerName, below)
      && (ev.save.NotSealed? <==>
            SealStep(w.host, Runs.Lower(w.hostSeals, answers), self, TABLE_SECRET, keys, "self", save).1.Err?)
  }

  /**
   A host on top of a Linux host on which nobody initialises the counter for its
   table keys: nothing is ever saved, and after a restart every blob bound to a
   program can be brought back by that program.
   */
  lemma TableIsLostOverLinuxHost(name: string, events: seq<Runs.Event>, lowerName: string, below: seq<seq<Runs.Event>>,
                                 self: string, keys: seq<Byte>, save: SaveOutcome, answers: bool, i: nat, child: string)
    requires Runs.Possible(name, events) && |below| == |events|
    requires forall k :: 0 <= k < |events| ==>
               && TakesPlaceOver(events[k], lowerName, below[k], self, keys, save, answers)
               && NeverInitialised(below[k], self)
    requires i < |Runs.Run(name, events).issued| && MayUnseal(Runs.Run(name, events).issued[i], child)
    ensures var w := Runs.Next(Runs.Run(name, events), Runs.Restart);
            && Load(w.host, Runs.Lower(w.hostSeals, answers)) == Empty
            && Runs.CanRevive(w.host, Runs.Lower(w.hostSeals, answers), child, w.issued[i])
  {
    forall k | 0 <= k < |events| && events[k].Seal? ensures events[k].save.NotSealed? {
      assert TakesPlaceOver(events[k], lowerName, below[k], self, keys, save, answers);
      SealsNeedAnInitialisedCounter(lowerName, below[k], self, TABLE_SECRET, keys, "self", save, answers);
    }
    Runs.RunsKeepInv(name, events);
    NothingIsSaved(name, events);
    var w := Runs.Next(Runs.Run(name, events), Runs.Restart);
    Runs.ReviveIsExact(w.host, Runs.Lower(w.hostSeals, answers), child, w.issued[i]);
  }

  /** Position `at[k]` of the blobs issued below holds the `k`-th seal for this program and label. */
  ghost predicate Lists(at: seq<nat>, issued: seq<Blob>, pair: Runs.Pair) {
    && (forall k :: 0 <= k < |at| ==> at[k] < |issued| && Runs.PairOf(issued[at[k]]) == pair)
    && (forall k, k' :: 0 <= k < k' < |at| ==> at[k] < at[k'])
  }

  function LinuxLower(w: Runs.World, at: seq<nat>, self: string, answers: bool): LowerUnseal {
    (b: HostBlob) =>
      if b.serial < |at| && at[b.serial] < |w.issued| then
        var r := UnsealStep(w.host, Runs.Lower(w.hostSeals, answers), self, w.issued[at[b.serial]]).1;
        if r.Ok? then Some(r.value.0) else None
      else None
  }

  function ListedData(issued: seq<Blob>, at: seq<nat>): (data: seq<seq<Byte>>)
    requires forall k :: 0 <= k < |at| ==> at[k] < |issued|
    ensures |data| == |at|
  {
    seq(|at|, k requires 0 <= k < |at| => issued[at[k]].data)
  }

  predicate LinuxAnswers(w: Runs.World, at: seq<nat>, self: string, answers: bool) {
    && at != [] && at[|at| - 1] < |w.issued|
    && UnsealStep(w.host, Runs.Lower(w.hostSeals, answers), self, w.issued[at[|at| - 1]]).1.Ok?
  }

  /**
   The listed blobs are bound, and neither the run nor an unseal of one of them has a
   cause for the pair to lapse.
   */
  ghost predicate BoundAndProtected(name: string, events: seq<Runs.Event>, at: seq<nat>, self: string, answers: bool) {
    var w := Runs.Run(name, events);
    var pair := (ProgramName(w.host, self), TABLE_SECRET);
    && Lists(at, w.issued, pair)
    && forall k :: 0 <= k < |at| ==>
         && w.issued[at[k]].policy != "any"
         && Runs.NoCause(name, events + [Runs.Unseal(self, w.issued[at[k]], answers)], pair)
  }

  lemma OnlyTheLastListedUnseals(name: string, events: seq<Runs.Event>, at: seq<nat>, self: string, answers: bool,
                                 k: nat)
    requires Runs.Possible(name, events) && BoundAndProtected(name, events, at, self, answers) && k < |at|
    ensures var w := Runs.Run(name, events);
            UnsealStep(w.host, Runs.Lower(w.hostSeals, answers), self, w.issued[at[k]]).1.Ok? ==> k == |at| - 1
  {
    var w := Runs.Run(name, events);
    assert Runs.SamePair(w.issued[at[k]], w.issued[at[|at| - 1]]);
    if UnsealStep(w.host, Runs.Lower(w.hostSeals, answers), self, w.issued[at[k]]).1.Ok? {
      Runs.OnlyTheLatestBlobUnseals(name, events, at[k], self, answers);
    }
  }

  lemma LastListedAnswers(w: Runs.World, at: seq<nat>, self: string, answers: bool, hostSeals: seq<HostBlob>, k: nat)
    requires k < |at| && forall n :: 0 <= n < |at| ==> at[n] < |w.issued|
    requires SealsOf(hostSeals, ListedData(w.issued, at))
    requires UnsealStep(w.host, Runs.Lower(w.hostSeals, answers), self, w.issued[at[k]]).1.Ok? ==> k == |at| - 1
    ensures LinuxLower(w, at, self, answers)(hostSeals[k]) ==
              Runs.Lower(hostSeals, LinuxAnswers(w, at, self, answers))(hostSeals[k])
  {
  }

  /** Without a cause to lapse, a Linux host is an ideal lower host for the keys of the host on top. */
  lemma LinuxIsLatestOnly(name: string, events: seq<Runs.Event>, at: seq<nat>, self: string, answers: bool,
                          hostSeals: seq<HostBlob>, b: HostBlob)
    requires Runs.Possible(name, events) && b in hostSeals
    ensures var w := Runs.Run(name, events);
            BoundAndProtected(name, events, at, self, answers) && SealsOf(hostSeals, ListedData(w.issued, at)) ==>
              LinuxLower(w, at, self, answers)(b) == Runs.Lower(hostSeals, LinuxAnswers(w, at, self, answers))(b)
  {
    var w := Runs.Run(name, events);
    if BoundAndProtected(name, events, at, self, answers) && SealsOf(hostSeals, ListedData(w.issued, at)) {
      var k :| 0 <= k < |hostSeals| && hostSeals[k] == b;
      OnlyTheLastListedUnseals(name, events, at, self, answers, k);
      LastListedAnswers(w, at, self, answers, hostSeals, k);
    }
  }
}
