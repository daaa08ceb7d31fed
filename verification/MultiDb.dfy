/** The databases of one connection: `main`, `temp` and attached ones. */
module MultiDb {
  import opened Wrappers
  import opened AsciiCase

  const DB_MAIN := 0
  const DB_TEMP := 1
  const MAX_ATTACHED := 10

  const MAIN_DB_NAME := "main"
  const TEMP_DB_NAME := "temp"
  const TEMP_DB_NAME_ALT := "sqlite_temp"

  // ---- identifiers

  predicate EqIgnoreCase(a: string, b: string) { Lower(a) == Lower(b) }

  predicate Quoted(id: string) {
    id != [] && (id[0], id[|id| - 1]) in {('"', '"'), ('[', ']'), ('`', '`')}
  }

  /** Strip one pair of quotes and lower the case; `None` where slicing a lone quote panics. */
  function Normalize(id: string): Option<string> {
    if !Quoted(id) then Some(Lower(id))
    else if |id| < 2 then None
    else Some(Lower(id[1..|id| - 1]))
  }

  // ---- tables, pagers and slots

  /** A table object: only B-tree tables carry the index of their database. */
  datatype Table = BTree(id: nat, db: nat) | OtherTable(id: nat)

  datatype TxnState = NoTxn | Read | Write

  /** The locks a pager holds on its write-ahead log. */
  datatype Pager = Pager(readLocks: nat, writeLock: bool)

  datatype AuxDbKind = Temp | Attached

  datatype AuxDb = AuxDb(name: string, kind: AuxDbKind, tables: map<string, Table>, txn: TxnState, pager: Pager)

  type Slots = seq<Option<AuxDb>>

  /** Stamp every B-tree table with the index of its database. */
  function Retag(tables: map<string, Table>, db: nat): map<string, Table> {
    map name | name in tables :: if tables[name].BTree? then BTree(tables[name].id, db) else tables[name]
  }

  method RetagSchemaDbIndex(tables: map<string, Table>, db: nat) returns (r: map<string, Table>)
    ensures r == Retag(tables, db)
  {
    var todo := tables.Keys;
    var retagged: map<string, Table> := map[];
    while todo != {}
      invariant todo <= tables.Keys
      invariant retagged.Keys <= tables.Keys - todo
      invariant forall n :: n in tables && n !in todo ==>
                  if tables[n].BTree? && tables[n].db != db then n in retagged && retagged[n] == BTree(tables[n].id, db)
                  else n !in retagged
      decreases todo
    {
      var name :| name in todo;
      if tables[name].BTree? && tables[name].db != db {
        retagged := retagged[name := BTree(tables[name].id, db)];
      }
      todo := todo - {name};
    }
    r := tables + retagged;
  }
}

/** Attaching and detaching databases. */
module Registry {
  import opened Wrappers
  import opened MultiDb

  predicate Live(slots: Slots, i: nat) { i < |slots| && slots[i].Some? }

  predicate IsAttachedAs(slot: Option<AuxDb>, name: string) {
    slot.Some? && slot.value.kind.Attached? && EqIgnoreCase(slot.value.name, name)
  }

  /** Position of the first attached database of that name, from `i` on. */
  function Position(slots: Slots, name: string, i: nat): Option<nat>
    requires i <= |slots|
    decreases |slots| - i
  {
    if i == |slots| then None
    else if IsAttachedAs(slots[i], name) then Some(i)
    else Position(slots, name, i + 1)
  }

  datatype Lookup = Panics | Missing | At(index: nat)

  /** The registry index a schema name stands for. */
  function DbIndexByName(slots: Slots, name: string): Lookup {
    match Normalize(name)
    case None => Panics
    case Some(n) =>
      if EqIgnoreCase(n, MAIN_DB_NAME) then At(DB_MAIN)
      else if EqIgnoreCase(n, TEMP_DB_NAME) || EqIgnoreCase(n, TEMP_DB_NAME_ALT) then At(DB_TEMP)
      else match Position(slots, n, 0)
           case Some(i) => if i >= 2 then At(i) else Missing
           case None => Missing
  }

  function DbNameForIndex(slots: Slots, db: nat): Option<string> {
    if db == DB_MAIN then Some(MAIN_DB_NAME)
    else if db == DB_TEMP then Some(TEMP_DB_NAME)
    else if Live(slots, db) then Some(slots[db].value.name) else None
  }

  /** What opening the file of a new database came to. */
  datatype Opening = Opens(tables: map<string, Table>) | OpenFails | CatalogLocked

  datatype Outcome =
    | Done(index: nat)
    | InUse | InTransaction | TooMany | Failed
    | CannotDetach | NoSuchDatabase | Locked
    | Panicked

  function Fresh(name: string, kind: AuxDbKind, tables: map<string, Table>, index: nat): AuxDb {
    AuxDb(name, kind, Retag(tables, index), NoTxn, Pager(0, false))
  }

  function Padded(slots: Slots): Slots {
    if |slots| == 0 then [None, None] else if |slots| == 1 then slots + [None] else slots
  }

  function EnsureTemp(slots: Slots, opening: Opening): (Slots, Outcome) {
    if Live(slots, DB_TEMP) then (slots, Done(DB_TEMP))
    else if !opening.Opens? then (slots, Failed)
    else (Padded(slots)[DB_TEMP := Some(Fresh(TEMP_DB_NAME, Temp, opening.tables, DB_TEMP))], Done(DB_TEMP))
  }

  function CountLive(slots: Slots): nat {
    if slots == [] then 0 else (if slots[0].Some? then 1 else 0) + CountLive(slots[1..])
  }

  /** First free slot from `i` on, or the end. */
  function FirstFree(slots: Slots, i: nat): (r: nat)
    requires i <= |slots|
    ensures i <= r <= |slots| && (r < |slots| ==> slots[r].None?)
    ensures forall j :: i <= j < r ==> slots[j].Some?
    decreases |slots| - i
  {
    if i == |slots| || slots[i].None? then i else FirstFree(slots, i + 1)
  }

  function PlaceAttached(slots: Slots, name: string, opening: Opening): (Slots, Outcome)
    requires !opening.OpenFails?
  {
    var padded := Padded(slots);
    var index := FirstFree(padded, 2);
    var grown := if index == |padded| then padded + [None] else padded;
    if opening.CatalogLocked? then (grown, Failed)
    else (grown[index := Some(Fresh(name, Attached, opening.tables, index))], Done(index))
  }

  function Attach(slots: Slots, autoCommit: bool, alias: string, opening: Opening): (Slots, Outcome) {
    match Normalize(alias)
    case None => (slots, Panicked)
    case Some(name) =>
      if EqIgnoreCase(name, MAIN_DB_NAME) || EqIgnoreCase(name, TEMP_DB_NAME) then (slots, InUse)
      else match DbIndexByName(slots, name)
           case Panics => (slots, Panicked)
           case At(_) => (slots, InUse)
           case Missing =>
             if !autoCommit then (slots, InTransaction)
             else if |slots| > 2 && CountLive(slots[2..]) >= MAX_ATTACHED then (slots, TooMany)
             else if opening.OpenFails? then (slots, Failed)
             else PlaceAttached(slots, name, opening)
  }

  function Detach(slots: Slots, autoCommit: bool, alias: string): (Slots, Outcome) {
    match Normalize(alias)
    case None => (slots, Panicked)
    case Some(name) =>
      if EqIgnoreCase(name, MAIN_DB_NAME) || EqIgnoreCase(name, TEMP_DB_NAME) then (slots, CannotDetach)
      else match DbIndexByName(slots, name)
           case Panics => (slots, Panicked)
           case Missing => (slots, NoSuchDatabase)
           case At(index) =>
             if !autoCommit then (slots, InTransaction)
             else if index >= |slots| then (slots, Panicked)
             else (slots[index := None],
                   if slots[index].Some? && !slots[index].value.txn.NoTxn? then Locked else Done(index))
  }

  // ---- the connection object

  class Connection {
    var auxDbs: Slots
    var autoCommit: bool

    constructor ()
      ensures auxDbs == [] && autoCommit
    {
      auxDbs, autoCommit := [], true;
    }

    method IndexByName(name: string) returns (r: Lookup)
      ensures r == DbIndexByName(auxDbs, name)
    {
      hide EqIgnoreCase, Normalize, IsAttachedAs;
      var normalized := Normalize(name);
      if normalized.None? { return Panics; }
      var n := normalized.value;
      if EqIgnoreCase(n, MAIN_DB_NAME) { return At(DB_MAIN); }
      if EqIgnoreCase(n, TEMP_DB_NAME) || EqIgnoreCase(n, TEMP_DB_NAME_ALT) { return At(DB_TEMP); }
      var i := 0;
      while i < |auxDbs| && !IsAttachedAs(auxDbs[i], n)
        invariant i <= |auxDbs| && Position(auxDbs, n, 0) == Position(auxDbs, n, i)
      {
        i := i + 1;
      }
      return if 2 <= i < |auxDbs| then At(i) else Missing;
    }

    method EnsureTempDb(opening: Opening) returns (outcome: Outcome)
      modifies this`auxDbs
      ensures (auxDbs, outcome) == EnsureTemp(old(auxDbs), opening)
    {
      if Live(auxDbs, DB_TEMP) { return Done(DB_TEMP); }
      if !opening.Opens? { return Failed; }
      Pad();
      auxDbs := auxDbs[DB_TEMP := Some(Fresh(TEMP_DB_NAME, Temp, opening.tables, DB_TEMP))];
      return Done(DB_TEMP);
    }

    method Pad()
      modifies this`auxDbs
      ensures auxDbs == Padded(old(auxDbs))
    {
      while |auxDbs| <= DB_TEMP
        invariant Padded(auxDbs) == Padded(old(auxDbs))
        decreases 2 - |auxDbs|
      {
        auxDbs := auxDbs + [None];
      }
    }

    method CountAttached() returns (n: nat)
      ensures n == if |auxDbs| > 2 then CountLive(auxDbs[2..]) else 0
    {
      n := 0;
      var i := 2;
      while i < |auxDbs|
        invariant 2 <= i && (|auxDbs| > 2 ==> i <= |auxDbs| && n + CountLive(auxDbs[i..]) == CountLive(auxDbs[2..]))
        invariant |auxDbs| <= 2 ==> n == 0
        decreases |auxDbs| - i
      {
        assert auxDbs[i..][1..] == auxDbs[i + 1..];
        if auxDbs[i].Some? { n := n + 1; }
        i := i + 1;
      }
    }

    method AttachDb(alias: string, opening: Opening) returns (outcome: Outcome)
      modifies this`auxDbs
      ensures (auxDbs, outcome) == Attach(old(auxDbs), autoCommit, alias, opening)
    {
      hide EqIgnoreCase, Normalize, DbIndexByName;
      var normalized := Normalize(alias);
      if normalized.None? { return Panicked; }
      var name := normalized.value;
      if EqIgnoreCase(name, MAIN_DB_NAME) || EqIgnoreCase(name, TEMP_DB_NAME) { return InUse; }
      var found := IndexByName(name);
      if found.Panics? { return Panicked; }
      if found.At? { return InUse; }
      if !autoCommit { return InTransaction; }
      var attached := CountAttached();
      if attached >= MAX_ATTACHED { return TooMany; }
      if opening.OpenFails? { return Failed; }
      Pad();
      var index := 2;
      while index < |auxDbs| && auxDbs[index].Some?
        invariant 2 <= index <= |auxDbs| && FirstFree(auxDbs, 2) == FirstFree(auxDbs, index)
      {
        index := index + 1;
      }
      if index == |auxDbs| { auxDbs := auxDbs + [None]; }
      if opening.CatalogLocked? { return Failed; }
      auxDbs := auxDbs[index := Some(Fresh(name, Attached, opening.tables, index))];
      return Done(index);
    }

    method DetachDb(alias: string) returns (outcome: Outcome)
      modifies this`auxDbs
      ensures (auxDbs, outcome) == Detach(old(auxDbs), autoCommit, alias)
    {
      hide EqIgnoreCase, Normalize, DbIndexByName;
      var normalized := Normalize(alias);
      if normalized.None? { return Panicked; }
      var name := normalized.value;
      if EqIgnoreCase(name, MAIN_DB_NAME) || EqIgnoreCase(name, TEMP_DB_NAME) { return CannotDetach; }
      var found := IndexByName(name);
      if found.Panics? { return Panicked; }
      if found.Missing? { return NoSuchDatabase; }
      if !autoCommit { return InTransaction; }
      var index := found.index;
      if index >= |auxDbs| { return Panicked; }
      var slot := auxDbs[index];
      auxDbs := auxDbs[index := None];
      if slot.Some? && !slot.value.txn.NoTxn? { return Locked; }
      return Done(index);
    }
  }
}
