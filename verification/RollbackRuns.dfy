/**
 Whole runs of a rollback-protecting host: seals and unseals, saves that fail
 half way, restarts, and disk files put back to earlier versions.
 */
module RollbackRuns {
  import opened Wrappers
  import opened Rollback

  /** A program and a label: what a counter belongs to. */
  type Pair = (string, string)

  function PairOf(b: Blob): Pair {
    (b.entry.program, b.entry.tag)
  }

  /**
   A host together with everything it has ever issued: the blobs it handed out,
   the lower host's seals of its table keys, and the tables it wrote to disk.
   `unsaved` are the pairs sealed since the last complete save.  `lapsed` are the
   pairs whose protection was interrupted: their counter wrapped around, the host
   started from scratch after they had been sealed, or it took up the saved table
   while they were unsaved.
   */
  datatype World = World(
    host: Host,
    issued: seq<Blob>,
    hostSeals: seq<HostBlob>,
    tables: set<ProtectedTable>,
    unsaved: set<Pair>,
    lapsed: set<Pair>)

  function Start(name: string): World {
    World(Host(name, None, 0, None, None), [], [], {}, {}, {})
  }

  datatype SaveResult = NotSealed | NotWritten | HalfWritten | Complete

  /** `answers` tells whether the lower host agrees to unseal its newest blob; it refuses every other one. */
  datatype Event =
    | Init(child: string, tag: string, counter: Int64, answers: bool)
    | Seal(child: string, tag: string, data: seq<Byte>, policy: string, key: Key, save: SaveResult, answers: bool)
    | Unseal(child: string, blob: Blob, answers: bool)
    | Tamper(keysFile: Option<HostBlob>, tableFile: Option<ProtectedTable>)
    | Restart

  /** A lower host with the latest-only property. */
  function Lower(hostSeals: seq<HostBlob>, answers: bool): LowerUnseal {
    b => if answers && hostSeals != [] && b == hostSeals[|hostSeals| - 1] then Some(b.key) else None
  }

  function NewestKey(w: World): Option<Key> {
    if w.hostSeals == [] then None else Some(w.hostSeals[|w.hostSeals| - 1].key)
  }

  /**
   New table keys are random, so they have not been drawn before; files can only be put
   back to versions once written.
   */
  predicate Enabled(w: World, ev: Event) {
    match ev
    case Seal(_, _, _, _, key, _, _) => forall i :: 0 <= i < |w.hostSeals| ==> w.hostSeals[i].key != key
    case Tamper(k, t) => (k.Some? ==> k.value in w.hostSeals) && (t.Some? ==> t.value in w.tables)
    case _ => true
  }

  function Outcome(w: World, key: Key, save: SaveResult): SaveOutcome {
    var blob := HostBlob(|w.hostSeals|, key);
    match save
    case NotSealed => SealFailed
    case NotWritten => KeysNotWritten(blob)
    case HalfWritten => TableNotWritten(blob)
    case Complete => Saved(blob)
  }

  /** The table has a counter for the blob's pair that is no smaller than the blob's. */
  predicate Accounts(t: Table, b: Blob) {
    var c := Counter(t, b.entry.program, b.entry.tag);
    c.Some? && b.entry.counter <= c.value
  }

  function Pairs(issued: seq<Blob>): set<Pair> {
    set i | 0 <= i < |issued| :: PairOf(issued[i])
  }

  /** The part of every call that makes sure there is a table. */
  function LoadNext(w: World, tag: string, answers: bool): World {
    var lower := Lower(w.hostSeals, answers);
    var h := WithTable(w.host, lower, tag);
    if w.host.table.Some? || h.table.None? then w
    else w.(host := h, lapsed := w.lapsed + if Load(w.host, lower).Read? then w.unsaved else Pairs(w.issued))
  }

  predicate Wraps(h: Host, child: string, tag: string) {
    h.table.Some? && Counter(h.table.value, ProgramName(h, child), tag) == Some(MAX_INT64)
  }

  function Next(w: World, ev: Event): World {
    match ev
    case Init(child, tag, c, answers) =>
      LoadNext(w, tag, answers).(host := InitCounterStep(w.host, Lower(w.hostSeals, answers), child, tag, c))
    case Seal(child, tag, data, policy, key, save, answers) =>
      SealNext(w, child, tag, data, policy, key, save, answers)
    case Unseal(child, blob, answers) =>
      if MayUnseal(blob, child) then
        LoadNext(w, "", answers).(host := UnsealStep(w.host, Lower(w.hostSeals, answers), child, blob).0)
      else w
    case Tamper(k, t) => w.(host := w.host.(keysFile := k, tableFile := t))
    case Restart => w.(host := w.host.(table := None, sealsSinceSave := 0))
  }

  function SealNext(w: World, child: string, tag: string, data: seq<Byte>, policy: string, key: Key,
                    save: SaveResult, answers: bool): World
  {
    var outcome := Outcome(w, key, save);
    var (h, r) := SealStep(w.host, Lower(w.hostSeals, answers), child, tag, data, policy, outcome);
    var l := LoadNext(w, "", answers);
    var lapsed := l.lapsed + (if Wraps(l.host, child, tag) then {(ProgramName(w.host, child), tag)} else {});
    match r
    case Err(_) => w.(host := h, lapsed := lapsed)
    case Ok(blob) =>
      World(h, w.issued + [blob],
            if outcome.SealFailed? then w.hostSeals else w.hostSeals + [outcome.blob],
            if outcome.Saved? then w.tables + {ProtectedTable(key, h.table.value)} else w.tables,
            if outcome.Saved? then {} else w.unsaved + {PairOf(blob)},
            lapsed)
  }

  function Run(name: string, events: seq<Event>): World {
    if events == [] then Start(name) else Next(Run(name, events[..|events| - 1]), events[|events| - 1])
  }

  /** Every event was possible when it happened. */
  predicate Possible(name: string, events: seq<Event>) {
    events != [] ==>
      var k := |events| - 1; Possible(name, events[..k]) && Enabled(Run(name, events[..k]), events[k])
  }

  // ----- what every run keeps

  /** Files hold versions once written; each key protects at most one table and seals come with distinct keys. */
  ghost predicate DiskInv(w: World) {
    && (w.host.keysFile.Some? ==> w.host.keysFile.value in w.hostSeals)
    && (w.host.tableFile.Some? ==> w.host.tableFile.value in w.tables)
    && (forall p, q :: p in w.tables && q in w.tables && p.key == q.key ==> p == q)
    && (forall p :: p in w.tables ==> SealedKey(w.hostSeals, p.key))
  }

  predicate SealedKey(seals: seq<HostBlob>, key: Key) {
    exists i :: 0 <= i < |seals| && seals[i].key == key
  }

  ghost predicate Labelled(t: Table) {
    forall i :: 0 <= i < |t| ==> t[i].tag != ""
  }

  /** Entries are unique per program and label, in memory and in every saved table, and nothing goes without a label. */
  ghost predicate TablesInv(w: World) {
    && (w.host.table.Some? ==> UniqueEntries(w.host.table.value) && Labelled(w.host.table.value))
    && (forall p :: p in w.tables ==> UniqueEntries(p.table) && Labelled(p.table))
    && (forall i :: 0 <= i < |w.issued| ==> w.issued[i].entry.tag != "")
  }

  predicate SamePair(a: Blob, b: Blob) {
    PairOf(a) == PairOf(b)
  }

  /** The table accounts for all blobs but those of the given pairs. */
  ghost predicate AccountsForAllBut(t: Table, issued: seq<Blob>, excused: set<Pair>) {
    forall i :: 0 <= i < |issued| && PairOf(issued[i]) !in excused ==> Accounts(t, issued[i])
  }

  /** Later blobs of a pair carry larger counters. */
  ghost predicate CountersRise(issued: seq<Blob>, excused: set<Pair>) {
    forall i, j :: 0 <= i < j < |issued| && SamePair(issued[i], issued[j]) && PairOf(issued[i]) !in excused ==>
      issued[i].entry.counter < issued[j].entry.counter
  }

  /** The table protected under the newest lower seal, if any, accounts for every blob issued before it was saved. */
  ghost predicate SavedAccounts(w: World) {
    forall p :: p in w.tables && NewestKey(w) == Some(p.key) ==>
      AccountsForAllBut(p.table, w.issued, w.lapsed + w.unsaved)
  }

  ghost predicate Protected(w: World) {
    && (w.host.table.Some? ==> AccountsForAllBut(w.host.table.value, w.issued, w.lapsed))
    && CountersRise(w.issued, w.lapsed)
    && SavedAccounts(w)
  }

  /** A blob bound to an owner was issued to that owner. */
  ghost predicate OwnersInv(w: World) {
    forall i :: 0 <= i < |w.issued| ==>
      w.issued[i].policyInfo.Some? ==> w.issued[i].entry.program == ProgramName(w.host, w.issued[i].policyInfo.value)
  }

  ghost predicate Inv(w: World) {
    DiskInv(w) && OwnersInv(w) && TablesInv(w) && Protected(w)
  }

  // ----- loading

  /**
   Whatever versions of the two files are on disk, a table that can be read is
   the one protected under the key of the newest lower seal, and no other.
   */
  lemma LoadedTableIsNewest(w: World, answers: bool)
    requires DiskInv(w)
    requires Load(w.host, Lower(w.hostSeals, answers)).Read?
    ensures NewestKey(w).Some?
    ensures var key, t := NewestKey(w).value, Load(w.host, Lower(w.hostSeals, answers)).table;
            && ProtectedTable(key, t) in w.tables
            && forall p :: p in w.tables && p.key == key ==> p.table == t
  {
    var p := w.host.tableFile.value;
    assert p == ProtectedTable(NewestKey(w).value, p.table);
  }

  lemma LoadKeepsInv(w: World, tag: string, answers: bool)
    requires Inv(w)
    ensures Inv(LoadNext(w, tag, answers))
  {
    if Load(w.host, Lower(w.hostSeals, answers)).Read? {
      LoadedTableIsNewest(w, answers);
    }
  }

  // ----- raising a counter in memory

  function Raise(w: World, program: string, tag: string, c: Int64): World
    requires w.host.table.Some?
  {
    w.(host := w.host.(table := Some(Updated(w.host.table.value, program, tag, c))))
  }

  lemma RaiseKeepsInv(w: World, program: string, tag: string, c: Int64)
    requires Inv(w) && w.host.table.Some? && tag != ""
    requires var now := Counter(w.host.table.value, program, tag);
             now.None? || now.value <= c || (program, tag) in w.lapsed
    ensures Inv(Raise(w, program, tag, c))
  {
    UpdatedCounters(w.host.table.value, program, tag, c);
    var t := Updated(w.host.table.value, program, tag, c);
    forall i | 0 <= i < |w.issued| && PairOf(w.issued[i]) !in w.lapsed ensures Accounts(t, w.issued[i]) {
      assert Accounts(w.host.table.value, w.issued[i]);
    }
  }

  // ----- handing out a blob and saving the table

  /** The new blob carries the counter the table now has for its pair. */
  function Issue(w: World, blob: Blob, outcome: SaveOutcome): World
    requires w.host.table.Some?
  {
    World(Save(w.host.(sealsSinceSave := w.host.sealsSinceSave + 1), outcome),
          w.issued + [blob],
          if outcome.SealFailed? then w.hostSeals else w.hostSeals + [outcome.blob],
          if outcome.Saved? then w.tables + {ProtectedTable(outcome.blob.key, w.host.table.value)} else w.tables,
          if outcome.Saved? then {} else w.unsaved + {PairOf(blob)},
          w.lapsed)
  }

  ghost predicate Exceeds(blob: Blob, issued: seq<Blob>) {
    forall i :: 0 <= i < |issued| && SamePair(issued[i], blob) ==> issued[i].entry.counter < blob.entry.counter
  }

  lemma IssueKeepsDisk(w: World, blob: Blob, outcome: SaveOutcome)
    requires DiskInv(w) && w.host.table.Some?
    requires !outcome.SealFailed? ==> !SealedKey(w.hostSeals, outcome.blob.key)
    ensures DiskInv(Issue(w, blob, outcome))
  {
    var w' := Issue(w, blob, outcome);
    if !outcome.SealFailed? {
      assert w'.hostSeals[|w.hostSeals|] == outcome.blob;
      forall p | p in w'.tables ensures SealedKey(w'.hostSeals, p.key) {
        if p in w.tables {
          var i :| 0 <= i < |w.hostSeals| && w.hostSeals[i].key == p.key;
          assert w'.hostSeals[i].key == p.key;
        }
      }
    }
  }

  lemma IssueKeepsProtection(w: World, blob: Blob, outcome: SaveOutcome)
    requires DiskInv(w) && Protected(w) && w.host.table.Some?
    requires Counter(w.host.table.value, blob.entry.program, blob.entry.tag) == Some(blob.entry.counter)
    requires PairOf(blob) !in w.lapsed ==> Exceeds(blob, w.issued)
    requires !outcome.SealFailed? ==> !SealedKey(w.hostSeals, outcome.blob.key)
    ensures Protected(Issue(w, blob, outcome))
  {
    var w' := Issue(w, blob, outcome);
    assert AccountsForAllBut(w.host.table.value, w'.issued, w.lapsed);
    forall p | p in w'.tables && NewestKey(w') == Some(p.key)
      ensures AccountsForAllBut(p.table, w'.issued, w'.lapsed + w'.unsaved)
    {
      if p in w.tables {
        assert SealedKey(w.hostSeals, p.key);
        assert outcome.SealFailed?;
        assert AccountsForAllBut(p.table, w.issued, w.lapsed + w.unsaved);
      }
    }
  }

  /** What a seal does once the table is loaded and has a counter for the pair. */
  function SealLoaded(l: World, child: string, tag: string, data: seq<Byte>, policy: string, outcome: SaveOutcome)
    : World
    requires l.host.table.Some? && Counter(l.host.table.value, ProgramName(l.host, child), tag).Some?
  {
    var program := ProgramName(l.host, child);
    var c := Increment(Counter(l.host.table.value, program, tag).value);
    var r := Raise(NoteWrap(l, child, tag), program, tag, c);
    match PolicyInfo(policy, child)
    case None => r
    case Some(info) => Issue(r, Blob(policy, info, Entry(program, tag, c), data), outcome)
  }

  function NoteWrap(l: World, child: string, tag: string): World {
    l.(lapsed := l.lapsed + (if Wraps(l.host, child, tag) then {(ProgramName(l.host, child), tag)} else {}))
  }

  lemma LoadedHost(w: World, tag: string, answers: bool)
    ensures LoadNext(w, tag, answers).host == WithTable(w.host, Lower(w.hostSeals, answers), tag)
    ensures var l := LoadNext(w, tag, answers); l == w.(host := l.host, lapsed := l.lapsed)
  {
  }

  /** What a seal does to the host, given the table in use. */
  lemma SealStepLoaded(h: Host, lower: LowerUnseal, child: string, tag: string, data: seq<Byte>, policy: string,
                       outcome: SaveOutcome)
    ensures var h1, program := WithTable(h, lower, ""), ProgramName(h, child);
            var (h', r) := SealStep(h, lower, child, tag, data, policy, outcome);
            if h1.table.None? || Counter(h1.table.value, program, tag).None? then h' == h1 && r.Err?
            else
              var c := Increment(Counter(h1.table.value, program, tag).value);
              var h2 := h1.(table := Some(Updated(h1.table.value, program, tag, c)));
              if PolicyInfo(policy, child).None? then h' == h2 && r.Err?
              else
                && h' == Save(h2.(sealsSinceSave := h2.sealsSinceSave + 1), outcome)
                && r == Ok(Blob(policy, PolicyInfo(policy, child).value, Entry(program, tag, c), data))
  {
  }

  /** A seal is a load followed, if there is a counter, by a raise and perhaps an issue. */
  lemma SealDecomposes(w: World, child: string, tag: string, data: seq<Byte>, policy: string, key: Key,
                       save: SaveResult, answers: bool)
    ensures var l := LoadNext(w, "", answers);
            SealNext(w, child, tag, data, policy, key, save, answers) ==
              if l.host.table.None? || Counter(l.host.table.value, ProgramName(l.host, child), tag).None? then l
              else SealLoaded(l, child, tag, data, policy, Outcome(w, key, save))
  {
    LoadedHost(w, "", answers);
    SealStepLoaded(w.host, Lower(w.hostSeals, answers), child, tag, data, policy, Outcome(w, key, save));
  }

  lemma SealLoadedKeepsInv(l: World, child: string, tag: string, data: seq<Byte>, policy: string, outcome: SaveOutcome)
    requires Inv(l) && l.host.table.Some?
    requires Counter(l.host.table.value, ProgramName(l.host, child), tag).Some?
    requires !outcome.SealFailed? ==> !SealedKey(l.hostSeals, outcome.blob.key)
    ensures Inv(SealLoaded(l, child, tag, data, policy, outcome))
  {
    var program := ProgramName(l.host, child);
    var c := Increment(Counter(l.host.table.value, program, tag).value);
    var l' := NoteWrap(l, child, tag);
    RaiseKeepsInv(l', program, tag, c);
    if PolicyInfo(policy, child).Some? {
      var blob := Blob(policy, PolicyInfo(policy, child).value, Entry(program, tag, c), data);
      RaiseMakesRoom(l', program, tag, c, blob);
      IssueKeepsInv(Raise(l', program, tag, c), blob, outcome);
    }
  }

  /** After the raise, the new blob matches the table and exceeds all earlier blobs of its pair. */
  lemma RaiseMakesRoom(l: World, program: string, tag: string, c: Int64, blob: Blob)
    requires Inv(l) && l.host.table.Some? && blob.entry == Entry(program, tag, c)
    requires Counter(l.host.table.value, program, tag).Some?
    requires (program, tag) !in l.lapsed ==> Counter(l.host.table.value, program, tag).value < c
    ensures var r := Raise(l, program, tag, c);
            && Counter(r.host.table.value, program, tag) == Some(c)
            && ((program, tag) !in l.lapsed ==> Exceeds(blob, r.issued))
  {
    UpdatedCounters(l.host.table.value, program, tag, c);
    if (program, tag) !in l.lapsed {
      forall i | 0 <= i < |l.issued| && SamePair(l.issued[i], blob) ensures l.issued[i].entry.counter < c {
        assert Accounts(l.host.table.value, l.issued[i]);
      }
    }
  }

  lemma IssueKeepsInv(r: World, blob: Blob, outcome: SaveOutcome)
    requires Inv(r) && r.host.table.Some?
    requires Counter(r.host.table.value, blob.entry.program, blob.entry.tag) == Some(blob.entry.counter)
    requires PairOf(blob) !in r.lapsed ==> Exceeds(blob, r.issued)
    requires blob.policyInfo.Some? ==> blob.entry.program == ProgramName(r.host, blob.policyInfo.value)
    requires !outcome.SealFailed? ==> !SealedKey(r.hostSeals, outcome.blob.key)
    ensures Inv(Issue(r, blob, outcome))
  {
    IssueKeepsDisk(r, blob, outcome);
    IssueKeepsProtection(r, blob, outcome);
  }

  // ----- all events

  lemma InitDecomposes(w: World, child: string, tag: string, c: Int64, answers: bool)
    ensures var l, program := LoadNext(w, tag, answers), ProgramName(w.host, child);
            Next(w, Init(child, tag, c, answers)) ==
              if tag == "" || Retired(l.host.table.value, program, Entry(program, tag, c)) then l
              else Raise(l, program, tag, c)
  {
  }

  lemma InitKeepsInv(w: World, child: string, tag: string, c: Int64, answers: bool)
    requires Inv(w)
    ensures Inv(Next(w, Init(child, tag, c, answers)))
  {
    LoadKeepsInv(w, tag, answers);
    InitDecomposes(w, child, tag, c, answers);
    var l, program := LoadNext(w, tag, answers), ProgramName(w.host, child);
    if tag != "" {
      var now := Counter(l.host.table.value, program, tag);
      if now.None? || now.value <= c {
        RaiseKeepsInv(l, program, tag, c);
      }
    }
  }

  lemma SealKeepsInv(w: World, child: string, tag: string, data: seq<Byte>, policy: string, key: Key,
                     save: SaveResult, answers: bool)
    requires Inv(w) && !SealedKey(w.hostSeals, key)
    ensures Inv(SealNext(w, child, tag, data, policy, key, save, answers))
  {
    LoadKeepsInv(w, "", answers);
    SealDecomposes(w, child, tag, data, policy, key, save, answers);
    var l := LoadNext(w, "", answers);
    if l.host.table.Some? && Counter(l.host.table.value, ProgramName(l.host, child), tag).Some? {
      SealLoadedKeepsInv(l, child, tag, data, policy, Outcome(w, key, save));
    }
  }

  lemma NextKeepsInv(w: World, ev: Event)
    requires Inv(w) && Enabled(w, ev)
    ensures Inv(Next(w, ev))
  {
    match ev {
      case Init(child, tag, c, answers) => InitKeepsInv(w, child, tag, c, answers);
      case Seal(child, tag, data, policy, key, save, answers) =>
        SealKeepsInv(w, child, tag, data, policy, key, save, answers);
      case Unseal(child, blob, answers) =>
        LoadKeepsInv(w, "", answers);
        UnsealOnlyLoads(w, child, blob, answers);
      case Tamper(k, t) =>
      case Restart =>
    }
  }

  lemma UnsealOnlyLoads(w: World, child: string, blob: Blob, answers: bool)
    ensures Next(w, Unseal(child, blob, answers)) == if MayUnseal(blob, child) then LoadNext(w, "", answers) else w
  {
  }

  /** The invariant holds after every possible run. */
  lemma {:induction false} RunsKeepInv(name: string, events: seq<Event>)
    requires Possible(name, events)
    ensures Inv(Run(name, events))
  {
    if events != [] {
      var k := |events| - 1;
      RunsKeepInv(name, events[..k]);
      NextKeepsInv(Run(name, events[..k]), events[k]);
    }
  }

  /**
   Rollback across restarts: after any run, whatever earlier versions of the files
   have been put back, loading yields the table protected under the newest lower
   seal, or none at all.
   */
  lemma RestartsNeverLoadOldTables(name: string, events: seq<Event>, answers: bool)
    requires Possible(name, events)
    ensures var w := Run(name, events);
            var loaded := Load(w.host, Lower(w.hostSeals, answers));
            loaded.Read? ==>
              && NewestKey(w).Some?
              && forall p :: p in w.tables && p.key == NewestKey(w).value <==>
                               p == ProtectedTable(NewestKey(w).value, loaded.table)
  {
    RunsKeepInv(name, events);
    var w := Run(name, events);
    if Load(w.host, Lower(w.hostSeals, answers)).Read? {
      LoadedTableIsNewest(w, answers);
    }
  }

  // ----- latest only, and exactly when an old blob comes back

  /** The table has moved past the entry. */
  predicate Retired(t: Table, program: string, e: Entry) {
    var now := Counter(t, program, e.tag);
    now.Some? && e.counter < now.value
  }

  /** The caller can get at the blob by first initialising its counter to some value. */
  ghost predicate CanRevive(h: Host, lower: LowerUnseal, child: string, blob: Blob) {
    exists c :: UnsealStep(InitCounterStep(h, lower, child, blob.entry.tag, c), lower, child, blob).1.Ok?
  }

  /**
   A caller that may unseal a labelled blob can do so, now or after initialising the
   counter, if and only if the table in use has not moved past the blob's counter.
   */
  lemma ReviveIsExact(h: Host, lower: LowerUnseal, child: string, blob: Blob)
    requires MayUnseal(blob, child) && blob.entry.tag != ""
    ensures WithTable(h, lower, blob.entry.tag).table.Some?
    ensures CanRevive(h, lower, child, blob) <==>
              !Retired(WithTable(h, lower, blob.entry.tag).table.value, ProgramName(h, child), blob.entry)
  {
    var tag, program := blob.entry.tag, ProgramName(h, child);
    var t := WithTable(h, lower, tag).table.value;
    forall c: Int64
      ensures UnsealStep(InitCounterStep(h, lower, child, tag, c), lower, child, blob).1.Ok? <==>
                blob.entry.counter == Raised(Counter(t, program, tag), c)
    {
      InitCounterTakesTheMaximum(h, lower, child, tag, c);
    }
    if !Retired(t, program, blob.entry) {
      assert blob.entry.counter == Raised(Counter(t, program, tag), blob.entry.counter);
    }
  }

  // ----- what makes a pair lapse

  /** The label with which the event looks for a table. */
  function LoadTag(ev: Event): string {
    if ev.Init? then ev.tag else ""
  }

  /** The event makes a host without a table take one up. */
  predicate TakesUp(w: World, ev: Event) {
    && w.host.table.None?
    && (ev.Init? || ev.Seal? || (ev.Unseal? && MayUnseal(ev.blob, ev.child)))
    && WithTable(w.host, Lower(w.hostSeals, ev.answers), LoadTag(ev)).table.Some?
  }

  predicate ReadsSavedTable(w: World, ev: Event) {
    (ev.Init? || ev.Seal? || ev.Unseal?) && Load(w.host, Lower(w.hostSeals, ev.answers)).Read?
  }

  /** A wrap-around, a start from scratch after a seal, or taking up a saved table while the pair is unsaved. */
  predicate LapseCause(w: World, ev: Event, pair: Pair) {
    || (&& ev.Seal? && pair == (ProgramName(w.host, ev.child), ev.tag)
        && Wraps(LoadNext(w, "", ev.answers).host, ev.child, ev.tag))
    || (TakesUp(w, ev) && pair in if ReadsSavedTable(w, ev) then w.unsaved else Pairs(w.issued))
  }

  /** None of the events was a cause for the pair to lapse. */
  predicate NoCause(name: string, events: seq<Event>, pair: Pair) {
    events != [] ==>
      var k := |events| - 1; NoCause(name, events[..k], pair) && !LapseCause(Run(name, events[..k]), events[k], pair)
  }

  lemma EventLapses(w: World, ev: Event, pair: Pair)
    ensures pair in Next(w, ev).lapsed <==> pair in w.lapsed || LapseCause(w, ev, pair)
  {
  }

  /** A pair has lapsed iff one of the events was a cause. */
  lemma {:induction false} LapsedIffCause(name: string, events: seq<Event>, pair: Pair)
    ensures pair !in Run(name, events).lapsed <==> NoCause(name, events, pair)
  {
    if events != [] {
      var k := |events| - 1;
      LapsedIffCause(name, events[..k], pair);
      EventLapses(Run(name, events[..k]), events[k], pair);
    }
  }

  lemma LapsedAfter(name: string, events: seq<Event>, ev: Event, pair: Pair)
    ensures Run(name, events + [ev]) == Next(Run(name, events), ev)
    ensures pair !in Next(Run(name, events), ev).lapsed <==> NoCause(name, events + [ev], pair)
  {
    assert (events + [ev])[..|events|] == events;
    LapsedIffCause(name, events + [ev], pair);
  }

  // ----- latest only

  /**
   After every run, restarts and replayed files included, the table in memory accounts
   for every blob of a pair without a cause to lapse, and later blobs of such a pair
   carry larger counters.
   */
  lemma TableAccounts(name: string, events: seq<Event>, i: nat)
    requires Possible(name, events) && i < |Run(name, events).issued|
    ensures var w := Run(name, events);
            NoCause(name, events, PairOf(w.issued[i])) ==>
              && (w.host.table.Some? ==> Accounts(w.host.table.value, w.issued[i]))
              && forall j :: i < j < |w.issued| && SamePair(w.issued[i], w.issued[j]) ==>
                               w.issued[i].entry.counter < w.issued[j].entry.counter
  {
    RunsKeepInv(name, events);
    LapsedIffCause(name, events, PairOf(Run(name, events).issued[i]));
  }

  /**
   For every run: a blob that has been superseded comes back for its owner exactly if
   the table in use has not moved past it, and that needs a cause in the run or in the
   call that initialises its counter.
   */
  lemma SupersededBlobs(name: string, events: seq<Event>, i: nat, j: nat, child: string, answers: bool)
    requires Possible(name, events)
    requires i < j < |Run(name, events).issued| && SamePair(Run(name, events).issued[i], Run(name, events).issued[j])
    requires MayUnseal(Run(name, events).issued[i], child) && Run(name, events).issued[i].policy != "any"
    ensures var w, blob := Run(name, events), Run(name, events).issued[i];
            var l := LoadNext(w, blob.entry.tag, answers);
            && l.host.table.Some?
            && (CanRevive(w.host, Lower(w.hostSeals, answers), child, blob) <==>
                  !Retired(l.host.table.value, blob.entry.program, blob.entry))
            && (NoCause(name, events + [Init(child, blob.entry.tag, blob.entry.counter, answers)], PairOf(blob)) ==>
                  !CanRevive(w.host, Lower(w.hostSeals, answers), child, blob))
  {
    RunsKeepInv(name, events);
    var w, blob := Run(name, events), Run(name, events).issued[i];
    ReviveIsExact(w.host, Lower(w.hostSeals, answers), child, blob);
    LapsedAfter(name, events, Init(child, blob.entry.tag, blob.entry.counter, answers), PairOf(blob));
    UnlapsedAreRetired(w, i, j, blob.entry.tag, answers);
  }

  /** The table in use has moved past every superseded blob of a pair that has not lapsed. */
  lemma UnlapsedAreRetired(w: World, i: nat, j: nat, tag: string, answers: bool)
    requires Inv(w) && i < j < |w.issued| && SamePair(w.issued[i], w.issued[j])
    ensures var l, blob := LoadNext(w, tag, answers), w.issued[i];
            l.host.table.Some? && PairOf(blob) !in l.lapsed ==>
              Retired(l.host.table.value, blob.entry.program, blob.entry)
  {
    LoadKeepsInv(w, tag, answers);
    var l := LoadNext(w, tag, answers);
    if l.host.table.Some? && PairOf(w.issued[i]) !in l.lapsed {
      assert Accounts(l.host.table.value, w.issued[j]);
    }
  }

  /**
   Latest only: after every run, with any restarts, failed saves and files put back,
   an issued blob bound to its owner unseals for no other program.  If neither the
   run nor the call has a cause for its pair to lapse, it unseals only if it is the
   last one issued for its program and label.
   */
  lemma OnlyTheLatestBlobUnseals(name: string, events: seq<Event>, i: nat, child: string, answers: bool)
    requires Possible(name, events)
    requires i < |Run(name, events).issued| && Run(name, events).issued[i].policy != "any"
    requires var w, blob := Run(name, events), Run(name, events).issued[i];
             UnsealStep(w.host, Lower(w.hostSeals, answers), child, blob).1.Ok?
    ensures var w, blob := Run(name, events), Run(name, events).issued[i];
            && blob.policyInfo == Some(child)
            && (NoCause(name, events + [Unseal(child, blob, answers)], PairOf(blob)) ==>
                  forall j :: i < j < |w.issued| ==> !SamePair(blob, w.issued[j]))
  {
    RunsKeepInv(name, events);
    var w, blob := Run(name, events), Run(name, events).issued[i];
    UnsealOnlyLoads(w, child, blob, answers);
    LapsedAfter(name, events, Unseal(child, blob, answers), PairOf(blob));
    forall j | i < j < |w.issued| && SamePair(blob, w.issued[j])
      ensures PairOf(blob) in LoadNext(w, "", answers).lapsed
    {
      UnlapsedAreRetired(w, i, j, "", answers);
    }
  }

  // ----- what comes back is what went in

  lemma NameStays(w: World, ev: Event)
    ensures Next(w, ev).host.name == w.host.name
  {
  }

  lemma {:induction false} NameNeverChanges(name: string, events: seq<Event>)
    ensures Run(name, events).host.name == name
  {
    if events != [] {
      var k := |events| - 1;
      NameNeverChanges(name, events[..k]);
      NameStays(Run(name, events[..k]), events[k]);
    }
  }

  /** The `k`-th event of the run hands out the `i`-th blob. */
  predicate HandsOut(name: string, events: seq<Event>, k: nat, i: nat) {
    k < |events| && |Run(name, events[..k]).issued| == i && |Run(name, events[..k + 1]).issued| == i + 1
  }

  /** Only a seal hands out a blob, which holds what that seal was given and says who may unseal it. */
  predicate Holds(blob: Blob, name: string, ev: Event) {
    && ev.Seal?
    && blob.data == ev.data && blob.policy == ev.policy
    && blob.entry.program == name + ev.child && blob.entry.tag == ev.tag
    && ev.policy in ["self", "few", "any"]
    && blob.policyInfo == if ev.policy == "any" then None else Some(ev.child)
  }

  lemma NextHandsOut(w: World, ev: Event)
    ensures var w' := Next(w, ev);
            || w'.issued == w.issued
            || (|w'.issued| == |w.issued| + 1 && w.issued == w'.issued[..|w.issued|]
                && Holds(w'.issued[|w.issued|], w.host.name, ev))
  {
  }

  lemma HandsOutInPrefix(name: string, events: seq<Event>, n: nat, k: nat, i: nat)
    requires k < n <= |events|
    ensures HandsOut(name, events[..n], k, i) <==> HandsOut(name, events, k, i)
  {
    assert events[..n][..k] == events[..k] && events[..n][..k + 1] == events[..k + 1];
  }

  lemma {:induction false} EveryBlobIsHandedOut(name: string, events: seq<Event>, i: nat)
    requires i < |Run(name, events).issued|
    ensures exists k: nat :: HandsOut(name, events, k, i)
  {
    var n := |events| - 1;
    NextHandsOut(Run(name, events[..n]), events[n]);
    if i < |Run(name, events[..n]).issued| {
      EveryBlobIsHandedOut(name, events[..n], i);
      var k: nat :| HandsOut(name, events[..n], k, i);
      HandsOutInPrefix(name, events, n, k, i);
    } else {
      assert events[..n + 1] == events;
      assert HandsOut(name, events, n, i);
    }
  }

  lemma NextKeepsIssued(w: World, ev: Event)
    ensures w.issued <= Next(w, ev).issued
  {
  }

  /** The blobs on record after each number of events. */
  function Records(name: string, events: seq<Event>): (rs: seq<seq<Blob>>)
    ensures |rs| == |events| + 1
  {
    seq(|events| + 1, n requires 0 <= n <= |events| => Run(name, events[..n]).issued)
  }

  lemma RecordGrows(name: string, events: seq<Event>, n: nat)
    requires n < |events|
    ensures Records(name, events)[n] <= Records(name, events)[n + 1]
  {
    assert events[..n + 1][..n] == events[..n];
    NextKeepsIssued(Run(name, events[..n]), events[n]);
  }

  lemma {:induction false} RecordsGrow(rs: seq<seq<Blob>>, m: nat, n: nat)
    requires m <= n < |rs| && forall i :: 0 <= i < |rs| - 1 ==> rs[i] <= rs[i + 1]
    ensures rs[m] <= rs[n]
  {
    if m < n {
      RecordsGrow(rs, m, n - 1);
      assert rs[n - 1] <= rs[n - 1 + 1];
    }
  }

  /** Blobs stay on record as they were handed out. */
  lemma IssuedGrows(name: string, events: seq<Event>, m: nat)
    requires m <= |events|
    ensures Run(name, events[..m]).issued <= Run(name, events).issued
  {
    var rs := Records(name, events);
    forall i | 0 <= i < |rs| - 1 ensures rs[i] <= rs[i + 1] {
      RecordGrows(name, events, i);
    }
    RecordsGrow(rs, m, |events|);
    assert events[..|events|] == events;
  }

  lemma HandedOut(name: string, events: seq<Event>, k: nat, i: nat)
    requires HandsOut(name, events, k, i)
    ensures Holds(Run(name, events[..k + 1]).issued[i], name, events[k])
  {
    NameNeverChanges(name, events[..k]);
    NextHandsOut(Run(name, events[..k]), events[k]);
    assert events[..k + 1][..k] == events[..k];
  }

  lemma BlobHoldsWhatWasSealed(name: string, events: seq<Event>, k: nat, i: nat)
    requires HandsOut(name, events, k, i)
    ensures i < |Run(name, events).issued| && Holds(Run(name, events).issued[i], name, events[k])
  {
    HandedOut(name, events, k, i);
    IssuedGrows(name, events, k + 1);
  }

  /** What a caller is told who asks to unseal a blob. */
  lemma UnsealAnswers(h: Host, lower: LowerUnseal, child: string, blob: Blob)
    ensures var r, t := UnsealStep(h, lower, child, blob).1, WithTable(h, lower, "").table;
            var known := blob.policy == "self" || blob.policy == "few" || blob.policy == "any";
            var allowed := known && (blob.policy == "any" || blob.policyInfo == Some(child));
            && (r == Err(UnsupportedPolicy) <==> !known)
            && (r == Err(NotAuthorized) <==> known && !allowed)
            && (r == Err(Crash) <==> allowed && t.None?)
            && (r == Err(NoCounter) <==> allowed && t.Some? && Counter(t.value, h.name + child, blob.entry.tag).None?)
            && (r == Ok((blob.data, blob.policy)) <==>
                  allowed && t.Some? && Counter(t.value, h.name + child, blob.entry.tag) == Some(blob.entry.counter))
            && (r.Ok? ==> r == Ok((blob.data, blob.policy)))
  {
  }

  /**
   After any run, a blob unseals to the data and the policy of the seal that handed it
   out, for anybody under policy "any" and for the program that sealed it otherwise.
   */
  lemma UnsealReturnsWhatWasSealed(name: string, events: seq<Event>, k: nat, i: nat, child: string, answers: bool)
    requires HandsOut(name, events, k, i)
    ensures var w := Run(name, events);
            && events[k].Seal? && i < |w.issued|
            && var r := UnsealStep(w.host, Lower(w.hostSeals, answers), child, w.issued[i]).1;
               && (r.Ok? ==> r == Ok((events[k].data, events[k].policy)))
               && (r == Err(NotAuthorized) <==> events[k].policy != "any" && child != events[k].child)
               && r != Err(UnsupportedPolicy)
  {
    var w := Run(name, events);
    BlobHoldsWhatWasSealed(name, events, k, i);
    UnsealAnswers(w.host, Lower(w.hostSeals, answers), child, w.issued[i]);
  }

  // ----- lapses are losses

  /** Some blob of the pair is beyond the table. */
  ghost predicate Loses(t: Table, issued: seq<Blob>, pair: Pair) {
    exists i :: 0 <= i < |issued| && PairOf(issued[i]) == pair && !Accounts(t, issued[i])
  }

  predicate IsNewest(w: World, p: ProtectedTable) {
    p in w.tables && NewestKey(w) == Some(p.key)
  }

  /** Counters of `t` are no smaller than those of `saved`. */
  ghost predicate AtLeast(t: Table, saved: Table, excused: set<Pair>) {
    forall p, l :: (p, l) !in excused && Counter(saved, p, l).Some? ==>
      Counter(t, p, l).Some? && Counter(saved, p, l).value <= Counter(t, p, l).value
  }

  /** Memory is not behind the newest saved table, and that table is behind for every unsaved pair. */
  ghost predicate Ahead(w: World) {
    forall p :: IsNewest(w, p) ==>
      && (w.host.table.Some? ==> AtLeast(w.host.table.value, p.table, w.lapsed))
      && forall pair :: pair in w.unsaved && pair !in w.lapsed ==> Loses(p.table, w.issued, pair)
  }

  /** A host takes up the saved table, unless nothing was ever saved. */
  predicate Continues(w: World, ev: Event) {
    TakesUp(w, ev) ==> ReadsSavedTable(w, ev) || w.tables == {}
  }

  predicate AllContinue(name: string, events: seq<Event>) {
    events != [] ==>
      var k := |events| - 1; AllContinue(name, events[..k]) && Continues(Run(name, events[..k]), events[k])
  }

  lemma LoadKeepsAhead(w: World, tag: string, answers: bool)
    requires Inv(w) && Ahead(w)
    requires LoadNext(w, tag, answers) != w ==> Load(w.host, Lower(w.hostSeals, answers)).Read? || w.tables == {}
    ensures Ahead(LoadNext(w, tag, answers))
  {
    var l := LoadNext(w, tag, answers);
    if l != w && w.tables != {} {
      LoadedTableIsNewest(w, answers);
    }
    forall p | IsNewest(l, p) ensures IsNewest(w, p) {
    }
  }

  lemma RaiseKeepsAhead(w: World, program: string, tag: string, c: Int64)
    requires Ahead(w) && w.host.table.Some?
    requires var now := Counter(w.host.table.value, program, tag);
             now.None? || now.value <= c || (program, tag) in w.lapsed
    ensures Ahead(Raise(w, program, tag, c))
  {
    UpdatedCounters(w.host.table.value, program, tag, c);
    var r := Raise(w, program, tag, c);
    forall p | IsNewest(r, p) ensures IsNewest(w, p) && AtLeast(r.host.table.value, p.table, r.lapsed) {
      assert IsNewest(w, p);
    }
  }

  /** After an issue the newest saved table is the one just saved, or the old one if nothing was sealed below. */
  lemma NewestAfterIssue(r: World, blob: Blob, outcome: SaveOutcome, p: ProtectedTable)
    requires DiskInv(r) && r.host.table.Some?
    requires !outcome.SealFailed? ==> !SealedKey(r.hostSeals, outcome.blob.key)
    requires IsNewest(Issue(r, blob, outcome), p)
    ensures (outcome.SealFailed? && IsNewest(r, p)) || (outcome.Saved? && p.table == r.host.table.value)
  {
    assert p in r.tables ==> SealedKey(r.hostSeals, p.key);
  }

  lemma IssueKeepsAhead(r: World, blob: Blob, outcome: SaveOutcome)
    requires DiskInv(r) && Ahead(r) && r.host.table.Some?
    requires !outcome.SealFailed? ==> !SealedKey(r.hostSeals, outcome.blob.key)
    requires forall p :: IsNewest(r, p) && PairOf(blob) !in r.lapsed ==> !Accounts(p.table, blob)
    ensures Ahead(Issue(r, blob, outcome))
  {
    var w := Issue(r, blob, outcome);
    forall p | IsNewest(w, p)
      ensures AtLeast(w.host.table.value, p.table, w.lapsed)
      ensures forall pair :: pair in w.unsaved && pair !in w.lapsed ==> Loses(p.table, w.issued, pair)
    {
      NewestAfterIssue(r, blob, outcome, p);
      forall pair | pair in w.unsaved && pair !in w.lapsed ensures Loses(p.table, w.issued, pair) {
        if pair == PairOf(blob) {
          assert w.issued[|r.issued|] == blob;
        } else {
          var i :| 0 <= i < |r.issued| && PairOf(r.issued[i]) == pair && !Accounts(p.table, r.issued[i]);
          assert w.issued[i] == r.issued[i];
        }
      }
    }
  }

  lemma SealLoadedKeepsAhead(l: World, child: string, tag: string, data: seq<Byte>, policy: string,
                             outcome: SaveOutcome)
    requires Inv(l) && Ahead(l) && l.host.table.Some?
    requires Counter(l.host.table.value, ProgramName(l.host, child), tag).Some?
    requires !outcome.SealFailed? ==> !SealedKey(l.hostSeals, outcome.blob.key)
    ensures Ahead(SealLoaded(l, child, tag, data, policy, outcome))
  {
    var program := ProgramName(l.host, child);
    var c := Increment(Counter(l.host.table.value, program, tag).value);
    var l' := NoteWrap(l, child, tag);
    assert Ahead(l') by {
      forall p | IsNewest(l', p) ensures IsNewest(l, p) {
      }
    }
    RaiseKeepsAhead(l', program, tag, c);
    var r := Raise(l', program, tag, c);
    if PolicyInfo(policy, child).Some? {
      var blob := Blob(policy, PolicyInfo(policy, child).value, Entry(program, tag, c), data);
      forall p | IsNewest(r, p) && PairOf(blob) !in r.lapsed ensures !Accounts(p.table, blob) {
        assert IsNewest(l, p);
      }
      IssueKeepsAhead(r, blob, outcome);
    }
  }

  lemma InitKeepsAhead(w: World, child: string, tag: string, c: Int64, answers: bool)
    requires Ahead(LoadNext(w, tag, answers))
    ensures Ahead(Next(w, Init(child, tag, c, answers)))
  {
    InitDecomposes(w, child, tag, c, answers);
    var l, program := LoadNext(w, tag, answers), ProgramName(w.host, child);
    if tag != "" && !Retired(l.host.table.value, program, Entry(program, tag, c)) {
      RaiseKeepsAhead(l, program, tag, c);
    }
  }

  lemma SealKeepsAhead(w: World, child: string, tag: string, data: seq<Byte>, policy: string, key: Key,
                       save: SaveResult, answers: bool)
    requires Inv(w) && Ahead(LoadNext(w, "", answers)) && !SealedKey(w.hostSeals, key)
    ensures Ahead(SealNext(w, child, tag, data, policy, key, save, answers))
  {
    LoadKeepsInv(w, "", answers);
    SealDecomposes(w, child, tag, data, policy, key, save, answers);
    var l := LoadNext(w, "", answers);
    if l.host.table.Some? && Counter(l.host.table.value, ProgramName(l.host, child), tag).Some? {
      SealLoadedKeepsAhead(l, child, tag, data, policy, Outcome(w, key, save));
    }
  }

  lemma NextKeepsAhead(w: World, ev: Event)
    requires Inv(w) && Ahead(w) && Enabled(w, ev) && Continues(w, ev)
    ensures Ahead(Next(w, ev))
  {
    match ev {
      case Init(child, tag, c, answers) =>
        LoadKeepsAhead(w, tag, answers);
        InitKeepsAhead(w, child, tag, c, answers);
      case Seal(child, tag, data, policy, key, save, answers) =>
        LoadKeepsAhead(w, "", answers);
        SealKeepsAhead(w, child, tag, data, policy, key, save, answers);
      case Unseal(child, blob, answers) =>
        UnsealOnlyLoads(w, child, blob, answers);
        if MayUnseal(blob, child) {
          LoadKeepsAhead(w, "", answers);
        }
      case Tamper(_, _) => OtherEventsKeepAhead(w, ev);
      case Restart => OtherEventsKeepAhead(w, ev);
    }
  }

  lemma OtherEventsKeepAhead(w: World, ev: Event)
    requires Ahead(w) && (ev.Tamper? || ev.Restart?)
    ensures Ahead(Next(w, ev))
  {
    forall p | IsNewest(Next(w, ev), p) ensures IsNewest(w, p) {
    }
  }

  lemma {:induction false} RunsKeepAhead(name: string, events: seq<Event>)
    requires Possible(name, events) && AllContinue(name, events)
    ensures Ahead(Run(name, events))
  {
    if events != [] {
      var k := |events| - 1;
      RunsKeepInv(name, events[..k]);
      RunsKeepAhead(name, events[..k]);
      NextKeepsAhead(Run(name, events[..k]), events[k]);
    }
  }

  /**
   A pair that lapses by the table taken up really is lost: that table does not account
   for one of its blobs.  A start from scratch loses every pair; taking up a saved table
   loses the unsaved ones, in every run in which the host never started from scratch
   after a save.
   */
  lemma LapsesAreLosses(name: string, events: seq<Event>, ev: Event, pair: Pair)
    requires Possible(name, events) && TakesUp(Run(name, events), ev)
    requires AllContinue(name, events) || !ReadsSavedTable(Run(name, events), ev)
    ensures var w := Run(name, events);
            var l := LoadNext(w, LoadTag(ev), ev.answers);
            && l.host.table.Some?
            && (pair !in w.lapsed ==>
                  (Loses(l.host.table.value, w.issued, pair) <==>
                     pair in if ReadsSavedTable(w, ev) then w.unsaved else Pairs(w.issued)))
  {
    RunsKeepInv(name, events);
    var w := Run(name, events);
    LoadKeepsInv(w, LoadTag(ev), ev.answers);
    if ReadsSavedTable(w, ev) {
      RunsKeepAhead(name, events);
      LoadedTableIsNewest(w, ev.answers);
      var t := LoadNext(w, LoadTag(ev), ev.answers).host.table.value;
      assert IsNewest(w, ProtectedTable(NewestKey(w).value, t));
    }
  }

  /**
   A start from scratch: once a host without a table cannot read the saved one, every
   blob ever bound to a program can be brought back to life by that program.
   */
  lemma ForgettingRevivesOldBlobs(w: World, i: nat, child: string, answers: bool)
    requires Inv(w) && i < |w.issued| && MayUnseal(w.issued[i], child) && w.issued[i].policy != "any"
    requires w.host.table.None? && !Load(w.host, Lower(w.hostSeals, answers)).Read?
    ensures CanRevive(w.host, Lower(w.hostSeals, answers), child, w.issued[i])
    ensures PairOf(w.issued[i]) in LoadNext(w, w.issued[i].entry.tag, answers).lapsed
  {
    ReviveIsExact(w.host, Lower(w.hostSeals, answers), child, w.issued[i]);
  }

  /**
   An unsaved seal: if the lower host fails to seal the table keys, the blob is handed
   out all the same, and after a restart the blob before it unseals again.
   */
  lemma UnsavedSealRevivesThePrevious(w: World, child: string, tag: string, first: seq<Byte>, second: seq<Byte>,
                                      policy: string, key: Key, key': Key, answers: bool)
    requires SealStep(w.host, Lower(w.hostSeals, answers), child, tag, first, policy, Outcome(w, key, Complete)).1.Ok?
    ensures var w1 := Next(w, Seal(child, tag, first, policy, key, Complete, answers));
            var w2 := Next(w1, Seal(child, tag, second, policy, key', NotSealed, answers));
            var w3 := Next(w2, Restart);
            var n := |w.issued|;
            && |w2.issued| == n + 2 && SamePair(w2.issued[n], w2.issued[n + 1])
            && UnsealStep(w3.host, Lower(w3.hostSeals, true), child, w2.issued[n]).1 == Ok((first, policy))
            && PairOf(w2.issued[n]) in Next(w3, Unseal(child, w2.issued[n], true)).lapsed
  {
    var w1 := Next(w, Seal(child, tag, first, policy, key, Complete, answers));
    SealSurvivesRestart(w, child, tag, first, policy, key, answers);
    AnotherSeal(w1, child, tag, second, policy, key', NotSealed, answers);
    var w2 := Next(w1, Seal(child, tag, second, policy, key', NotSealed, answers));
    var w3 := Next(w2, Restart);
    assert w3.host.(sealsSinceSave := 0) == Next(w1, Restart).host.(sealsSinceSave := 0);
    UnsealOnlyLoads(w3, child, w2.issued[|w.issued|], true);
    var l := LoadNext(w3, "", true);
    if !Wraps(w1.host, child, tag) {
      assert !Accounts(l.host.table.value, w3.issued[|w.issued| + 1]);
    }
  }

  lemma AnotherSeal(w: World, child: string, tag: string, data: seq<Byte>, policy: string, key: Key,
                    save: SaveResult, answers: bool)
    requires w.host.table.Some? && PolicyInfo(policy, child).Some?
    requires Counter(w.host.table.value, ProgramName(w.host, child), tag).Some?
    ensures var w' := Next(w, Seal(child, tag, data, policy, key, save, answers));
            var now := Counter(w.host.table.value, ProgramName(w.host, child), tag).value;
            && |w'.issued| == |w.issued| + 1 && w.issued <= w'.issued
            && w'.issued[|w.issued|].entry == Entry(ProgramName(w.host, child), tag, Increment(now))
            && (Wraps(w.host, child, tag) ==> (ProgramName(w.host, child), tag) in w'.lapsed)
            && (save.NotSealed? ==>
                  && w'.hostSeals == w.hostSeals
                  && w'.host.keysFile == w.host.keysFile && w'.host.tableFile == w.host.tableFile
                  && w'.host.name == w.host.name)
  {
  }

  /**
   A wrap-around: the seal that takes the counter past its largest value makes all
   earlier blobs of the pair revivable.
   */
  lemma WrapRevivesOldBlobs(w: World, i: nat, child: string, data: seq<Byte>, policy: string, key: Key,
                            save: SaveResult, answers: bool)
    requires Inv(w) && i < |w.issued| && MayUnseal(w.issued[i], child) && w.issued[i].policy != "any"
    requires Wraps(w.host, child, w.issued[i].entry.tag)
    ensures var blob := w.issued[i];
            var w' := Next(w, Seal(child, blob.entry.tag, data, policy, key, save, answers));
            && PairOf(blob) in w'.lapsed
            && CanRevive(w'.host, Lower(w'.hostSeals, answers), child, blob)
  {
    var blob := w.issued[i];
    var w' := Next(w, Seal(child, blob.entry.tag, data, policy, key, save, answers));
    var lower, outcome := Lower(w.hostSeals, answers), Outcome(w, key, save);
    SealRaisesItsCounter(w.host, lower, child, blob.entry.tag, data, policy, outcome);
    ReviveIsExact(w'.host, Lower(w'.hostSeals, answers), child, blob);
  }

  // ----- runs in which nothing lapses

  /** Saves complete, no counter wraps around, and a host takes up the saved table once there is a blob. */
  predicate Steady(w: World, ev: Event) {
    && (ev.Seal? ==> ev.save.Complete? && !Wraps(LoadNext(w, "", ev.answers).host, ev.child, ev.tag))
    && (TakesUp(w, ev) ==> ReadsSavedTable(w, ev) || w.issued == [])
  }

  predicate AllSteady(name: string, events: seq<Event>) {
    events != [] ==>
      var k := |events| - 1; AllSteady(name, events[..k]) && Steady(Run(name, events[..k]), events[k])
  }

  lemma SteadyKeepsAll(w: World, ev: Event)
    requires w.unsaved == {} && w.lapsed == {} && Steady(w, ev)
    ensures Next(w, ev).unsaved == {} && Next(w, ev).lapsed == {}
  {
    if Next(w, ev).lapsed != {} {
      var pair :| pair in Next(w, ev).lapsed;
      EventLapses(w, ev, pair);
      assert false;
    }
  }

  /** In every steady run, whatever files are put back and however often the host restarts, no pair ever lapses. */
  lemma {:induction false} SteadyRunsNeverLapse(name: string, events: seq<Event>)
    requires AllSteady(name, events)
    ensures Run(name, events).unsaved == {} && Run(name, events).lapsed == {}
  {
    if events != [] {
      var k := |events| - 1;
      SteadyRunsNeverLapse(name, events[..k]);
      SteadyKeepsAll(Run(name, events[..k]), events[k]);
    }
  }

  /** Every save completes, the lower host answers, files are left alone and no counter wraps around. */
  predicate Undisturbed(w: World, ev: Event) {
    match ev
    case Init(_, _, _, answers) => answers
    case Seal(child, tag, _, _, _, save, answers) =>
      answers && save.Complete? && !Wraps(LoadNext(w, "", answers).host, child, tag)
    case Unseal(_, _, answers) => answers
    case Tamper(_, _) => false
    case Restart => true
  }

  predicate AllUndisturbed(name: string, events: seq<Event>) {
    events != [] ==>
      var k := |events| - 1; AllUndisturbed(name, events[..k]) && Undisturbed(Run(name, events[..k]), events[k])
  }

  /** The files hold the table protected under the newest lower seal. */
  ghost predicate FilesNewest(w: World) {
    && w.hostSeals != [] && w.host.keysFile == Some(w.hostSeals[|w.hostSeals| - 1])
    && w.host.tableFile.Some? && NewestKey(w) == Some(w.host.tableFile.value.key)
  }

  /** Nothing is left to save, nothing has lapsed, and the files are the newest once there is a blob. */
  ghost predicate FilesCurrent(w: World) {
    w.unsaved == {} && w.lapsed == {} && (w.issued != [] ==> FilesNewest(w))
  }

  lemma LoadKeepsFilesCurrent(w: World, tag: string)
    requires Inv(w) && FilesCurrent(w)
    ensures FilesCurrent(LoadNext(w, tag, true))
  {
  }

  lemma InitKeepsFilesCurrent(w: World, child: string, tag: string, c: Int64)
    requires Inv(w) && FilesCurrent(w)
    ensures FilesCurrent(Next(w, Init(child, tag, c, true)))
  {
    LoadKeepsFilesCurrent(w, tag);
    InitDecomposes(w, child, tag, c, true);
  }

  lemma SealLoadedKeepsFilesCurrent(l: World, child: string, tag: string, data: seq<Byte>, policy: string,
                                    blob: HostBlob)
    requires FilesCurrent(l) && l.host.table.Some? && !Wraps(l.host, child, tag)
    requires Counter(l.host.table.value, ProgramName(l.host, child), tag).Some?
    ensures FilesCurrent(SealLoaded(l, child, tag, data, policy, Saved(blob)))
  {
  }

  lemma SealKeepsFilesCurrent(w: World, child: string, tag: string, data: seq<Byte>, policy: string, key: Key)
    requires Inv(w) && FilesCurrent(w) && !Wraps(LoadNext(w, "", true).host, child, tag)
    ensures FilesCurrent(SealNext(w, child, tag, data, policy, key, Complete, true))
  {
    LoadKeepsFilesCurrent(w, "");
    SealDecomposes(w, child, tag, data, policy, key, Complete, true);
    var l := LoadNext(w, "", true);
    if l.host.table.Some? && Counter(l.host.table.value, ProgramName(l.host, child), tag).Some? {
      SealLoadedKeepsFilesCurrent(l, child, tag, data, policy, HostBlob(|w.hostSeals|, key));
    }
  }

  lemma NextKeepsFilesCurrent(w: World, ev: Event)
    requires Inv(w) && FilesCurrent(w) && Enabled(w, ev) && Undisturbed(w, ev)
    ensures FilesCurrent(Next(w, ev))
  {
    match ev {
      case Init(child, tag, c, answers) => InitKeepsFilesCurrent(w, child, tag, c);
      case Seal(child, tag, data, policy, key, save, answers) =>
        SealKeepsFilesCurrent(w, child, tag, data, policy, key);
      case Unseal(child, blob, answers) =>
        LoadKeepsFilesCurrent(w, "");
        UnsealOnlyLoads(w, child, blob, answers);
      case Restart =>
    }
  }

  /**
   Leaving the files alone is enough for that: in every undisturbed run, with any
   number of restarts, the files stay current and no pair ever lapses.
   */
  lemma {:induction false} UndisturbedRunsNeverLapse(name: string, events: seq<Event>)
    requires Possible(name, events) && AllUndisturbed(name, events)
    ensures FilesCurrent(Run(name, events))
  {
    if events != [] {
      var k := |events| - 1;
      RunsKeepInv(name, events[..k]);
      UndisturbedRunsNeverLapse(name, events[..k]);
      NextKeepsFilesCurrent(Run(name, events[..k]), events[k]);
    }
  }

  // ----- single calls

  /** A blob just sealed unseals again, to the same data under the same policy. */
  lemma SealThenUnseal(h: Host, lower: LowerUnseal, child: string, tag: string, data: seq<Byte>, policy: string,
                       save: SaveOutcome, lower': LowerUnseal)
    requires SealStep(h, lower, child, tag, data, policy, save).1.Ok?
    ensures var (h', r) := SealStep(h, lower, child, tag, data, policy, save);
            UnsealStep(h', lower', child, r.value) == (h', Ok((data, policy)))
  {
    var h1 := WithTable(h, lower, "");
    var program := ProgramName(h, child);
    var c := Increment(Counter(h1.table.value, program, tag).value);
    UpdatedCounters(h1.table.value, program, tag, c);
  }

  function Raised(now: Option<Int64>, c: Int64): Int64 {
    if now.Some? && now.value > c then now.value else c
  }

  /** Initialising a counter raises it to the given value, or leaves it if it is higher already. */
  lemma InitCounterTakesTheMaximum(h: Host, lower: LowerUnseal, child: string, tag: string, c: Int64)
    requires tag != ""
    ensures var before := WithTable(h, lower, tag).table;
            var after := InitCounterStep(h, lower, child, tag, c).table;
            && before.Some? && after.Some?
            && Counter(after.value, ProgramName(h, child), tag) ==
                 Some(Raised(Counter(before.value, ProgramName(h, child), tag), c))
  {
    var t := WithTable(h, lower, tag).table.value;
    UpdatedCounters(t, ProgramName(h, child), tag, c);
  }

  /** A seal raises the counter of its own pair by one, wrap-around aside, even if the policy is then refused. */
  lemma SealRaisesItsCounter(h: Host, lower: LowerUnseal, child: string, tag: string, data: seq<Byte>, policy: string,
                             save: SaveOutcome)
    requires GetCounterStep(h, lower, child, tag).1.Ok?
    ensures var now := GetCounterStep(h, lower, child, tag).1.value;
            var (h', r) := SealStep(h, lower, child, tag, data, policy, save);
            var next := if now == 0x7FFF_FFFF_FFFF_FFFF then -0x8000_0000_0000_0000 else now + 1;
            && h'.table.Some? && Counter(h'.table.value, h.name + child, tag) == Some(next)
            && (r.Ok? <==> policy == "self" || policy == "few" || policy == "any")
            && (r.Err? ==> r == Err(UnsupportedPolicy))
            && (r.Ok? ==> r.value.entry == Entry(h.name + child, tag, next) && r.value.data == data)
  {
    var t, now := WithTable(h, lower, "").table.value, GetCounterStep(h, lower, child, tag).1.value;
    UpdatedCounters(t, ProgramName(h, child), tag, Increment(now));
  }

  /** A complete save leaves the new table on disk, protected under the newest lower seal. */
  lemma CompleteSeal(w: World, child: string, tag: string, data: seq<Byte>, policy: string, key: Key, answers: bool)
    requires SealStep(w.host, Lower(w.hostSeals, answers), child, tag, data, policy, Outcome(w, key, Complete)).1.Ok?
    ensures var lower := Lower(w.hostSeals, answers);
            var sealed := Next(w, Seal(child, tag, data, policy, key, Complete, answers));
            var newest := HostBlob(|w.hostSeals|, key);
            && sealed.issued ==
                    w.issued + [SealStep(w.host, lower, child, tag, data, policy, Outcome(w, key, Complete)).1.value]
            && sealed.hostSeals == w.hostSeals + [newest]
            && sealed.host.name == w.host.name && sealed.host.table.Some?
            && sealed.host.keysFile == Some(newest)
            && sealed.host.tableFile == Some(ProtectedTable(key, sealed.host.table.value))
            && sealed.host == SealStep(w.host, lower, child, tag, data, policy, Outcome(w, key, Complete)).0
  {
  }

  /**
   After a complete save, a restarted host with untouched files has its table back, and
   the new blob still unseals.
   */
  lemma SealSurvivesRestart(w: World, child: string, tag: string, data: seq<Byte>, policy: string, key: Key,
                            answers: bool)
    requires SealStep(w.host, Lower(w.hostSeals, answers), child, tag, data, policy, Outcome(w, key, Complete)).1.Ok?
    ensures var lower := Lower(w.hostSeals, answers);
            var blob := SealStep(w.host, lower, child, tag, data, policy, Outcome(w, key, Complete)).1.value;
            var sealed := Next(w, Seal(child, tag, data, policy, key, Complete, answers));
            var restarted := Next(sealed, Restart);
            && sealed.issued == w.issued + [blob]
            && sealed.host.table.Some?
            && Load(restarted.host, Lower(restarted.hostSeals, true)) == Read(sealed.host.table.value)
            && UnsealStep(restarted.host, Lower(restarted.hostSeals, true), child, blob).1 == Ok((data, policy))
  {
    CompleteSeal(w, child, tag, data, policy, key, answers);
    var sealed := Next(w, Seal(child, tag, data, policy, key, Complete, answers));
    var restarted := Next(sealed, Restart);
    var lower, lower' := Lower(w.hostSeals, answers), Lower(restarted.hostSeals, true);
    var blob := sealed.issued[|w.issued|];
    assert Load(restarted.host, lower') == Read(sealed.host.table.value);
    SealThenUnseal(w.host, lower, child, tag, data, policy, Outcome(w, key, Complete), lower');
    UnsealAfterRestart(sealed.host, restarted.host, lower', child, blob);
  }

  /** The lower host gives back a key, and the table on disk is protected under another one. */
  predicate KeyDoesNotFit(h: Host, lower: LowerUnseal) {
    && h.keysFile.Some? && lower(h.keysFile.value).Some?
    && h.tableFile.Some? && h.tableFile.value.key != lower(h.keysFile.value).value
  }

  /**
   A host whose saved table does not open: asking for a counter crashes it, while
   initialising a labelled one starts a new table, with only that counter in it.
   */
  lemma UnreadableTable(h: Host, lower: LowerUnseal, child: string, tag: string, c: Int64)
    ensures GetCounterStep(h, lower, child, tag).1 == Err(Crash) <==> h.table.None? && KeyDoesNotFit(h, lower)
    ensures h.table.None? && KeyDoesNotFit(h, lower) && tag != "" ==>
              InitCounterStep(h, lower, child, tag, c).table == Some([Entry(h.name + child, tag, c)])
  {
    assert Updated([], h.name + child, tag, c) == [Entry(h.name + child, tag, c)];
  }

  /** Disk, lower host and count of unsaved seals after a seal, by how far its save got. */
  predicate SavedSoFar(w: World, w': World, key: Key, save: SaveResult) {
    var blob := HostBlob(|w.hostSeals|, key);
    && w'.host.table.Some?
    && w'.host.sealsSinceSave == (if save.Complete? then 0 else w.host.sealsSinceSave + 1)
    && w'.hostSeals == (if save.NotSealed? then w.hostSeals else w.hostSeals + [blob])
    && w'.host.keysFile == (if save.HalfWritten? || save.Complete? then Some(blob) else w.host.keysFile)
    && w'.host.tableFile == (if save.Complete? then Some(ProtectedTable(key, w'.host.table.value))
                             else w.host.tableFile)
  }

  lemma LoadAfterSave(w: World, w': World, key: Key, save: SaveResult)
    requires DiskInv(w) && !SealedKey(w.hostSeals, key) && SavedSoFar(w, w', key, save)
    ensures var h, lower := w'.host.(table := None, sealsSinceSave := 0), Lower(w'.hostSeals, true);
            match save
            case NotSealed => Load(h, lower) == Load(w.host, Lower(w.hostSeals, true))
            case NotWritten => Load(h, lower) == Empty
            case HalfWritten => if w.host.tableFile.Some? then KeyDoesNotFit(h, lower) else Load(h, lower) == Empty
            case Complete => Load(h, lower) == Read(w'.host.table.value)
  {
    if w.host.tableFile.Some? {
      assert SealedKey(w.hostSeals, w.host.tableFile.value.key);
    }
    if w.host.keysFile.Some? {
      assert SealedKey(w.hostSeals, w.host.keysFile.value.key);
    }
  }

  lemma SealSavesSoFar(w: World, child: string, tag: string, data: seq<Byte>, policy: string, key: Key,
                       save: SaveResult, answers: bool)
    requires SealStep(w.host, Lower(w.hostSeals, answers), child, tag, data, policy, Outcome(w, key, save)).1.Ok?
    ensures SavedSoFar(w, SealNext(w, child, tag, data, policy, key, save, answers), key, save)
  {
  }

  /**
   What is left of a seal after a restart, by how far its save got.  If the keys were
   not sealed the files are as before; sealed keys that are not written are lost, and
   the old ones with them; keys without a table do not open the old one; a complete
   save brings the new table back.
   */
  lemma PartialSaves(w: World, child: string, tag: string, data: seq<Byte>, policy: string, key: Key,
                     save: SaveResult, answers: bool)
    requires Inv(w) && !SealedKey(w.hostSeals, key)
    requires SealStep(w.host, Lower(w.hostSeals, answers), child, tag, data, policy, Outcome(w, key, save)).1.Ok?
    ensures var sealed := Next(w, Seal(child, tag, data, policy, key, save, answers));
            var h, lower := Next(sealed, Restart).host, Lower(sealed.hostSeals, true);
            && SavedSoFar(w, sealed, key, save) && h.table.None?
            && match save
               case NotSealed => Load(h, lower) == Load(w.host, Lower(w.hostSeals, true))
               case NotWritten => Load(h, lower) == Empty
               case HalfWritten => if w.host.tableFile.Some? then KeyDoesNotFit(h, lower) else Load(h, lower) == Empty
               case Complete => Load(h, lower) == Read(sealed.host.table.value)
  {
    SealSavesSoFar(w, child, tag, data, policy, key, save, answers);
    LoadAfterSave(w, Next(w, Seal(child, tag, data, policy, key, save, answers)), key, save);
  }

  /** A host that gets its table back answers as before. */
  lemma UnsealAfterRestart(h: Host, h': Host, lower: LowerUnseal, child: string, blob: Blob)
    requires h.table.Some? && h'.table.None? && h'.name == h.name && Load(h', lower) == Read(h.table.value)
    ensures UnsealStep(h', lower, child, blob).1 == UnsealStep(h, lower, child, blob).1
  {
  }

  /** Short of a restart or a counter wrapping around, no counter ever goes down. */
  lemma CountersNeverDecrease(w: World, ev: Event, program: string, tag: string)
    requires w.host.table.Some? && !ev.Restart?
    requires ev.Seal? ==> !Wraps(w.host, ev.child, ev.tag)
    ensures var t := Next(w, ev).host.table;
            var before := Counter(w.host.table.value, program, tag);
            && t.Some?
            && (before.Some? ==>
                  Counter(t.value, program, tag).Some? && before.value <= Counter(t.value, program, tag).value)
  {
    if ev.Init? || ev.Seal? {
      var t, name := w.host.table.value, ProgramName(w.host, ev.child);
      var now := Counter(t, name, ev.tag);
      if ev.Init? {
        UpdatedCounters(t, name, ev.tag, ev.counter);
      } else if now.Some? {
        UpdatedCounters(t, name, ev.tag, Increment(now.value));
      }
    }
  }

  /** Under policy "any" only the caller's own counter is compared, so a blob's age does not matter. */
  lemma AnyPolicyComparesTheCallersCounter(h: Host, lower: LowerUnseal, child: string, blob: Blob)
    requires h.table.Some? && blob.policy == "any" && blob.entry.tag != ""
    ensures UnsealStep(h, lower, child, blob).1.Ok? <==>
              Counter(h.table.value, ProgramName(h, child), blob.entry.tag) == Some(blob.entry.counter)
    ensures CanRevive(h, lower, child, blob) <==> !Retired(h.table.value, ProgramName(h, child), blob.entry)
  {
    ReviveIsExact(h, lower, child, blob);
  }
}
