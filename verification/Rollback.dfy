/**
 Rollback-protected sealing in a Linux host.  A counter per hosted program and
 label is raised by every seal and stored in the sealed blob; unsealing compares
 the two.  The counter table is saved under fresh keys, which the lower host
 seals with rollback protection of its own.
 */
module Rollback {
  import opened Wrappers

  const MAX_INT64: int := 0x7FFF_FFFF_FFFF_FFFF

  type Int64 = x: int | -MAX_INT64 - 1 <= x <= MAX_INT64

  datatype Entry = Entry(program: string, tag: string, counter: Int64)

  type Table = seq<Entry>

  /** Adding one to the largest value wraps around to the smallest. */
  function Increment(c: Int64): Int64 {
    if c == MAX_INT64 then -MAX_INT64 - 1 else c + 1
  }

  // ----- the counter table

  predicate Names(e: Entry, program: string, tag: string) {
    e.program == program && e.tag == tag
  }

  /** The position of the first entry for the program and label. */
  function IndexOf(t: Table, program: string, tag: string): (r: Option<nat>)
    ensures r.Some? ==> r.value < |t| && Names(t[r.value], program, tag)
    ensures r.Some? ==> forall i :: 0 <= i < r.value ==> !Names(t[i], program, tag)
    ensures r.None? ==> forall i :: 0 <= i < |t| ==> !Names(t[i], program, tag)
  {
    if t == [] then None
    else if Names(t[0], program, tag) then Some(0)
    else
      match IndexOf(t[1..], program, tag)
      case None => None
      case Some(i) => Some(i + 1)
  }

  function Counter(t: Table, program: string, tag: string): Option<Int64> {
    match IndexOf(t, program, tag)
    case None => None
    case Some(i) => Some(t[i].counter)
  }

  function Updated(t: Table, program: string, tag: string, c: Int64): Table {
    match IndexOf(t, program, tag)
    case None => t + [Entry(program, tag, c)]
    case Some(i) => t[i := t[i].(counter := c)]
  }

  /** At most one entry per program and label. */
  ghost predicate UniqueEntries(t: Table) {
    forall i, j :: 0 <= i < j < |t| ==> !Names(t[j], t[i].program, t[i].tag)
  }

  lemma IndexIsFirst(t: Table, program: string, tag: string, i: nat)
    requires i < |t| && Names(t[i], program, tag)
    requires forall j :: 0 <= j < i ==> !Names(t[j], program, tag)
    ensures IndexOf(t, program, tag) == Some(i)
  {
  }

  /** An update sets one counter, leaves every other alone and keeps entries unique. */
  lemma UpdatedCounters(t: Table, program: string, tag: string, c: Int64)
    ensures Counter(Updated(t, program, tag, c), program, tag) == Some(c)
    ensures forall p, l :: (p, l) != (program, tag) ==> Counter(Updated(t, program, tag, c), p, l) == Counter(t, p, l)
    ensures UniqueEntries(t) ==> UniqueEntries(Updated(t, program, tag, c))
  {
    var u := Updated(t, program, tag, c);
    match IndexOf(t, program, tag) {
      case None =>
        IndexIsFirst(u, program, tag, |t|);
      case Some(i) =>
        assert forall j :: 0 <= j < |t| ==> u[j].program == t[j].program && u[j].tag == t[j].tag;
        IndexIsFirst(u, program, tag, i);
    }
    forall p, l | (p, l) != (program, tag) ensures Counter(u, p, l) == Counter(t, p, l) {
      OtherCounter(t, program, tag, c, p, l);
    }
  }

  lemma OtherCounter(t: Table, program: string, tag: string, c: Int64, p: string, l: string)
    requires (p, l) != (program, tag)
    ensures Counter(Updated(t, program, tag, c), p, l) == Counter(t, p, l)
  {
    var u := Updated(t, program, tag, c);
    assert forall j :: 0 <= j < |t| ==> u[j].program == t[j].program && u[j].tag == t[j].tag;
    match IndexOf(t, p, l) {
      case Some(k) =>
        IndexIsFirst(u, p, l, k);
      case None =>
        assert forall j :: 0 <= j < |u| ==> !Names(u[j], p, l);
    }
  }

  class RollbackCounterTable {
    var entries: Table

    constructor (t: Table)
      ensures entries == t
    {
      entries := t;
    }

    method LookupRollbackEntry(program: string, tag: string) returns (r: Option<nat>)
      ensures r == IndexOf(entries, program, tag)
    {
      for i := 0 to |entries|
        invariant forall j :: 0 <= j < i ==> !Names(entries[j], program, tag)
      {
        if Names(entries[i], program, tag) {
          IndexIsFirst(entries, program, tag, i);
          return Some(i);
        }
      }
      r := None;
    }

    method UpdateRollbackEntry(program: string, tag: string, c: Int64)
      modifies this
      ensures entries == Updated(old(entries), program, tag, c)
    {
      var found := LookupRollbackEntry(program, tag);
      var i: nat;
      if found.None? {
        i := |entries|;
        entries := entries + [Entry(program, tag, 0)];
      } else {
        i := found.value;
      }
      entries := entries[i := entries[i].(counter := c)];
    }
  }

  // ----- sealed blobs, saved tables and the disk

  /** The content of a blob that only this host can encrypt and decrypt. */
  datatype Blob = Blob(policy: string, policyInfo: Option<string>, entry: Entry, data: seq<Byte>)

  /** Keys for the encryption of a table, as they are handed to the lower host. */
  type Key = seq<Byte>

  /** Keys of the table, sealed by the lower host in its `serial`-th seal. */
  datatype HostBlob = HostBlob(serial: nat, key: Key)

  /** A table encrypted and authenticated under a key; no other key opens it. */
  datatype ProtectedTable = ProtectedTable(key: Key, table: Table)

  /** What the lower host answers to an unseal request. */
  type LowerUnseal = HostBlob -> Option<Key>

  datatype Host = Host(
    name: string,
    table: Option<Table>,
    sealsSinceSave: nat,
    keysFile: Option<HostBlob>,
    tableFile: Option<ProtectedTable>)

  datatype RollbackError = NoCounter | UnsupportedPolicy | NotAuthorized | BadCounter | Crash

  /** How far saving the table gets. */
  datatype SaveOutcome =
    | SealFailed
    | KeysNotWritten(blob: HostBlob)
    | TableNotWritten(blob: HostBlob)
    | Saved(blob: HostBlob)

  /** The printed name of a child is the host's name followed by the child's subprincipal. */
  function ProgramName(h: Host, child: string): string {
    h.name + child
  }

  datatype Loaded = Empty | Read(table: Table) | Unreadable

  /** Reading the saved table: without keys or without a table file the host starts from scratch. */
  function Load(h: Host, lower: LowerUnseal): Loaded {
    match h.keysFile
    case None => Empty
    case Some(blob) =>
      match lower(blob)
      case None => Empty
      case Some(key) =>
        match h.tableFile
        case None => Empty
        case Some(p) => if p.key == key then Read(p.table) else Unreadable
  }

  /** The host after `InitCounter` has made sure there is a table; asking with an empty label can leave none. */
  function WithTable(h: Host, lower: LowerUnseal, tag: string): Host {
    if h.table.Some? then h
    else
      match Load(h, lower)
      case Empty => h.(table := Some([]))
      case Read(t) => h.(table := Some(t))
      case Unreadable => if tag == "" then h else h.(table := Some([]))
  }

  function InitCounterStep(h: Host, lower: LowerUnseal, child: string, tag: string, c: Int64): Host {
    var h1 := WithTable(h, lower, tag);
    if tag == "" then h1
    else
      var program := ProgramName(h, child);
      match Counter(h1.table.value, program, tag)
      case None => h1.(table := Some(Updated(h1.table.value, program, tag, c)))
      case Some(current) => if current <= c then h1.(table := Some(Updated(h1.table.value, program, tag, c))) else h1
  }

  /** Without a table even after loading, the lookup dereferences nil. */
  function GetCounterStep(h: Host, lower: LowerUnseal, child: string, tag: string)
    : (Host, Result<Int64, RollbackError>)
  {
    var h1 := WithTable(h, lower, "");
    match h1.table
    case None => (h1, Err(Crash))
    case Some(t) =>
      match Counter(t, ProgramName(h, child), tag)
      case None => (h1, Err(NoCounter))
      case Some(c) => (h1, Ok(c))
  }

  /** The owner recorded by each policy; `None` stands for an unsupported policy. */
  function PolicyInfo(policy: string, child: string): Option<Option<string>> {
    if policy == "self" || policy == "few" then Some(Some(child))
    else if policy == "any" then Some(None)
    else None
  }

  function Save(h: Host, outcome: SaveOutcome): Host
    requires h.table.Some?
  {
    match outcome
    case SealFailed => h
    case KeysNotWritten(_) => h
    case TableNotWritten(blob) => h.(keysFile := Some(blob))
    case Saved(blob) =>
      h.(keysFile := Some(blob), tableFile := Some(ProtectedTable(blob.key, h.table.value)), sealsSinceSave := 0)
  }

  /** The counter goes up before the policy is looked at; only a sealed blob leads to a save. */
  function SealStep(h: Host, lower: LowerUnseal, child: string, tag: string, data: seq<Byte>, policy: string,
                    save: SaveOutcome)
    : (Host, Result<Blob, RollbackError>)
  {
    var (h1, got) := GetCounterStep(h, lower, child, tag);
    match got
    case Err(e) => (h1, Err(e))
    case Ok(current) =>
      var c, program := Increment(current), ProgramName(h, child);
      var h2 := h1.(table := Some(Updated(h1.table.value, program, tag, c)));
      match PolicyInfo(policy, child)
      case None => (h2, Err(UnsupportedPolicy))
      case Some(info) =>
        (Save(h2.(sealsSinceSave := h2.sealsSinceSave + 1), save), Ok(Blob(policy, info, Entry(program, tag, c), data)))
  }

  predicate MayUnseal(blob: Blob, child: string) {
    && PolicyInfo(blob.policy, child).Some?
    && (blob.policy != "any" ==> blob.policyInfo == Some(child))
  }

  function UnsealStep(h: Host, lower: LowerUnseal, child: string, blob: Blob)
    : (Host, Result<(seq<Byte>, string), RollbackError>)
  {
    if PolicyInfo(blob.policy, child).None? then (h, Err(UnsupportedPolicy))
    else if !MayUnseal(blob, child) then (h, Err(NotAuthorized))
    else
      var (h1, got) := GetCounterStep(h, lower, child, blob.entry.tag);
      match got
      case Err(e) => (h1, Err(e))
      case Ok(c) => if blob.entry.counter != c then (h1, Err(BadCounter)) else (h1, Ok((blob.data, blob.policy)))
  }

  // ----- the host as an object

  class LinuxHost {
    const name: string
    var rbTable: RollbackCounterTable?
    var sealsSinceSave: nat
    var keysFile: Option<HostBlob>
    var tableFile: Option<ProtectedTable>

    function Snapshot(): Host
      reads this, rbTable
    {
      Host(name, if rbTable == null then None else Some(rbTable.entries), sealsSinceSave, keysFile, tableFile)
    }

    constructor (name: string, keysFile: Option<HostBlob>, tableFile: Option<ProtectedTable>)
      ensures Snapshot() == Host(name, None, 0, keysFile, tableFile)
    {
      this.name := name;
      rbTable := null;
      sealsSinceSave := 0;
      this.keysFile, this.tableFile := keysFile, tableFile;
    }

    /** Reads the saved table, if there is none in memory. */
    method EnsureTable(lower: LowerUnseal, tag: string)
      modifies this`rbTable
      ensures Snapshot() == old(WithTable(Snapshot(), lower, tag))
      ensures rbTable == old(rbTable) || fresh(rbTable)
    {
      if rbTable == null && keysFile.Some? {
        var keys := lower(keysFile.value);
        if keys.Some? {
          if tableFile.None? {
            rbTable := new RollbackCounterTable([]);
          } else if tableFile.value.key == keys.value {
            rbTable := new RollbackCounterTable(tableFile.value.table);
          }
          if tag == "" {
            return;
          }
        }
      }
      if rbTable == null {
        rbTable := new RollbackCounterTable([]);
      }
    }

    method InitCounter(lower: LowerUnseal, child: string, tag: string, c: Int64)
      modifies this`rbTable, rbTable
      ensures Snapshot() == InitCounterStep(old(Snapshot()), lower, child, tag, c)
    {
      EnsureTable(lower, tag);
      if tag == "" {
        return;
      }
      var program := name + child;
      var e := rbTable.LookupRollbackEntry(program, tag);
      if e.None? || rbTable.entries[e.value].counter <= c {
        rbTable.UpdateRollbackEntry(program, tag, c);
      }
    }

    method GetCounter(lower: LowerUnseal, child: string, tag: string) returns (r: Result<Int64, RollbackError>)
      modifies this`rbTable
      ensures (Snapshot(), r) == GetCounterStep(old(Snapshot()), lower, child, tag)
      ensures rbTable == old(rbTable) || fresh(rbTable)
    {
      if rbTable == null {
        EnsureTable(lower, "");
      }
      if rbTable == null {
        return Err(Crash);
      }
      var e := rbTable.LookupRollbackEntry(name + child, tag);
      if e.None? {
        return Err(NoCounter);
      }
      r := Ok(rbTable.entries[e.value].counter);
    }

    method SaveHostRollbackTableWithNewKeys(outcome: SaveOutcome) returns (ok: bool)
      requires rbTable != null
      modifies this`keysFile, this`tableFile
      ensures Snapshot().(sealsSinceSave := if ok then 0 else sealsSinceSave) == Save(old(Snapshot()), outcome)
    {
      if outcome.SealFailed? || outcome.KeysNotWritten? {
        return false;
      }
      keysFile := Some(outcome.blob);
      if outcome.TableNotWritten? {
        return false;
      }
      tableFile := Some(ProtectedTable(outcome.blob.key, rbTable.entries));
      ok := true;
    }

    method RollbackProtectedSeal(lower: LowerUnseal, child: string, tag: string, data: seq<Byte>, policy: string,
                                 save: SaveOutcome)
      returns (r: Result<Blob, RollbackError>)
      modifies this, rbTable
      ensures (Snapshot(), r) == SealStep(old(Snapshot()), lower, child, tag, data, policy, save)
    {
      var got := GetCounter(lower, child, tag);
      if got.Err? {
        return Err(got.error);
      }
      var c := Increment(got.value);
      rbTable.UpdateRollbackEntry(name + child, tag, c);
      var info := PolicyInfo(policy, child);
      if info.None? {
        return Err(UnsupportedPolicy);
      }
      sealsSinceSave := sealsSinceSave + 1;
      var ok := SaveHostRollbackTableWithNewKeys(save);
      if ok {
        sealsSinceSave := 0;
      }
      r := Ok(Blob(policy, info.value, Entry(name + child, tag, c), data));
    }

    method RollbackProtectedUnseal(lower: LowerUnseal, child: string, blob: Blob)
      returns (r: Result<(seq<Byte>, string), RollbackError>)
      modifies this`rbTable
      ensures (Snapshot(), r) == UnsealStep(old(Snapshot()), lower, child, blob)
    {
      if PolicyInfo(blob.policy, child).None? {
        return Err(UnsupportedPolicy);
      }
      if !MayUnseal(blob, child) {
        return Err(NotAuthorized);
      }
      var got := GetCounter(lower, child, blob.entry.tag);
      if got.Err? {
        return Err(got.error);
      }
      if blob.entry.counter != got.value {
        return Err(BadCounter);
      }
      r := Ok((blob.data, blob.policy));
    }
  }
}
