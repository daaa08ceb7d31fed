/** The catalog a statement is compiled against when several databases are in reach. */
module CatalogOverlay {
  import opened AsciiCase
  import opened Wrappers
  import opened MultiDb
  import opened Registry
  import opened RegistryTheorems

  const SCHEMA_TABLE_NAME := "sqlite_schema"
  const TEMP_SCHEMA_TABLE_NAME := "sqlite_temp_schema"

  type Tables = map<string, Table>

  /** The merged view: tables by key, and the owning database of each key placed
      outside `main`. */
  datatype Catalog = Catalog(tables: Tables, objectDb: map<string, nat>)

  predicate HasDot(s: string) { '.' in s }

  function Qualified(db: string, name: string): string { db + "." + name }

  function Put(c: Catalog, key: string, table: Table, db: nat): Catalog {
    Catalog(c.tables[key := table], c.objectDb[key := db])
  }

  /** One turn of the overlay loop. */
  function OverlayOne(c: Catalog, name: string, table: Table, dbName: string, db: nat, shadow: bool): Catalog {
    if HasDot(name) then c else
      var q := Put(c, Qualified(dbName, name), table, db);
      if name == SCHEMA_TABLE_NAME && db != DB_MAIN then
        if db == DB_TEMP then Put(q, TEMP_SCHEMA_TABLE_NAME, table, db) else q
      else if shadow || name !in q.tables then Put(q, name, table, db) else q
  }

  function OverlaySeq(c: Catalog, source: Tables, names: seq<string>, dbName: string, db: nat, shadow: bool): Catalog
    requires forall n :: n in names ==> n in source
    decreases names
  {
    if names == [] then c
    else OverlaySeq(OverlayOne(c, names[0], source[names[0]], dbName, db, shadow), source, names[1..], dbName, db, shadow)
  }

  /** An order in which the hash map may hand out its keys. */
  ghost predicate Enumerates(names: seq<string>, source: Tables) {
    && (forall n :: n in names <==> n in source)
    && (forall i, j :: 0 <= i < j < |names| ==> names[i] != names[j])
  }

  method OverlaySchema(target: Catalog, source: Tables, names: seq<string>, dbName: string, db: nat, shadow: bool)
    returns (c: Catalog)
    requires forall n :: n in names ==> n in source
    ensures c == OverlaySeq(target, source, names, dbName, db, shadow)
  {
    c := target;
    for i := 0 to |names|
      invariant OverlaySeq(c, source, names[i..], dbName, db, shadow) == OverlaySeq(target, source, names, dbName, db, shadow)
    {
      assert names[i..][1..] == names[i + 1..];
      var name := names[i];
      if !HasDot(name) {
        var table := source[name];
        var qualified := Qualified(dbName, name);
        ghost var before := c;
        c := Catalog(c.tables[qualified := table], c.objectDb[qualified := db]);
        if name == SCHEMA_TABLE_NAME && db != DB_MAIN {
          if db == DB_TEMP {
            c := Catalog(c.tables[TEMP_SCHEMA_TABLE_NAME := table], c.objectDb[TEMP_SCHEMA_TABLE_NAME := db]);
          }
        } else if shadow || name !in c.tables {
          c := Catalog(c.tables[name := table], c.objectDb[name := db]);
        }
        assert c == OverlayOne(before, name, table, dbName, db, shadow);
      }
    }
  }

  // ---- what one overlay does to each key

  /** What a key holds: a table and the database it is attributed to. */
  datatype Entry = Absent | Found(table: Table, db: nat)

  function EntryAt(c: Catalog, key: string): Entry {
    if key !in c.tables then Absent
    else Found(c.tables[key], if key in c.objectDb then c.objectDb[key] else DB_MAIN)
  }

  /** The key a name of this database is entered under without qualification, if any. */
  predicate EntersUnqualified(name: string, db: nat) {
    !HasDot(name) && (name == SCHEMA_TABLE_NAME ==> db == DB_MAIN)
  }

  /** No name of `temp` competes with the alias of its schema table. */
  predicate OrderFree(source: Tables, db: nat) {
    !(db == DB_TEMP && SCHEMA_TABLE_NAME in source && TEMP_SCHEMA_TABLE_NAME in source)
  }

  lemma {:induction false} QualifiedInjective(d: string, n: string, e: string, m: string)
    requires !HasDot(n) && !HasDot(m)
    ensures HasDot(Qualified(d, n))
    ensures Qualified(d, n) == Qualified(e, m) <==> d == e && n == m
  {
    var q := Qualified(d, n);
    assert q[|d|] == '.';
    if q == Qualified(e, m) {
      assert q[|e|] == '.';
      assert forall i :: |d| < i < |q| ==> q[i] == n[i - |d| - 1];
      assert forall i :: |e| < i < |q| ==> q[i] == m[i - |e| - 1];
      assert |d| == |e|;
      assert d == q[..|d|] && e == q[..|e|] && n == q[|d| + 1..] && m == q[|e| + 1..];
    }
  }

  ghost predicate NoRepeats(names: seq<string>) {
    forall i, j :: 0 <= i < j < |names| ==> names[i] != names[j]
  }

  /** The entry of an undotted key after overlaying a database that has the names. */
  function UnqualifiedEntry(before: Entry, source: Tables, has: set<string>, db: nat, shadow: bool, key: string): Entry
    requires has <= source.Keys
  {
    if db == DB_TEMP && key == TEMP_SCHEMA_TABLE_NAME && SCHEMA_TABLE_NAME in has then Found(source[SCHEMA_TABLE_NAME], db)
    else if key in has && EntersUnqualified(key, db) && (shadow || before.Absent?) then Found(source[key], db)
    else before
  }

  lemma OneUnqualified(c: Catalog, name: string, source: Tables, dbName: string, db: nat, shadow: bool, key: string)
    requires name in source && !HasDot(key)
    ensures EntryAt(OverlayOne(c, name, source[name], dbName, db, shadow), key)
            == UnqualifiedEntry(EntryAt(c, key), source, {name}, db, shadow, key)
  {
    if !HasDot(name) { QualifiedInjective(dbName, name, dbName, name); }
  }

  lemma {:induction false} UnqualifiedAfter(
      c: Catalog, source: Tables, names: seq<string>, dbName: string, db: nat, shadow: bool, key: string)
    requires NoRepeats(names) && (forall n :: n in names ==> n in source) && !HasDot(key)
    requires key == TEMP_SCHEMA_TABLE_NAME ==> OrderFree(source, db)
    ensures EntryAt(OverlaySeq(c, source, names, dbName, db, shadow), key)
            == UnqualifiedEntry(EntryAt(c, key), source, (set n | n in names), db, shadow, key)
    decreases names
  {
    if names != [] {
      hide OverlayOne, HasDot, EntryAt;
      var c1 := OverlayOne(c, names[0], source[names[0]], dbName, db, shadow);
      OneUnqualified(c, names[0], source, dbName, db, shadow, key);
      UnqualifiedAfter(c1, source, names[1..], dbName, db, shadow, key);
    }
  }

  lemma OneQualified(c: Catalog, name: string, table: Table, dbName: string, db: nat, shadow: bool, key: string)
    requires HasDot(key)
    ensures EntryAt(OverlayOne(c, name, table, dbName, db, shadow), key)
            == if !HasDot(name) && key == Qualified(dbName, name) then Found(table, db) else EntryAt(c, key)
  {
  }

  /** The entry of a dotted key: that of the database's own table, or unchanged. */
  lemma {:induction false} QualifiedAfter(
      c: Catalog, source: Tables, names: seq<string>, dbName: string, db: nat, shadow: bool, d: string, n: string)
    requires (forall m :: m in names ==> m in source) && !HasDot(n)
    ensures EntryAt(OverlaySeq(c, source, names, dbName, db, shadow), Qualified(d, n))
            == if d == dbName && n in names then Found(source[n], db) else EntryAt(c, Qualified(d, n))
    decreases names
  {
    if names != [] {
      var name := names[0];
      var c1 := OverlayOne(c, name, source[name], dbName, db, shadow);
      QualifiedInjective(d, n, d, n);
      OneQualified(c, name, source[name], dbName, db, shadow, Qualified(d, n));
      if !HasDot(name) { QualifiedInjective(d, n, dbName, name); }
      hide OverlayOne, HasDot, EntryAt, Qualified;
      QualifiedAfter(c1, source, names[1..], dbName, db, shadow, d, n);
    }
  }

  // ---- the merged catalog

  ghost predicate Orders(main: Tables, slots: Slots, mainOrder: seq<string>, orders: seq<seq<string>>) {
    Enumerates(mainOrder, main) && SlotOrders(slots, orders)
  }

  ghost predicate SlotOrders(slots: Slots, orders: seq<seq<string>>) {
    |orders| == |slots|
    && forall i :: 0 <= i < |slots| && slots[i].Some? ==> Enumerates(orders[i], slots[i].value.tables)
  }

  function OverlaySlot(c: Catalog, slots: Slots, orders: seq<seq<string>>, i: nat, shadow: bool): Catalog
    requires i < |slots| && SlotOrders(slots, orders)
  {
    if slots[i].None? then c
    else OverlaySeq(c, slots[i].value.tables, orders[i], slots[i].value.name, i, shadow)
  }

  function OverlayAttached(c: Catalog, slots: Slots, orders: seq<seq<string>>, i: nat): Catalog
    requires SlotOrders(slots, orders)
    decreases |slots| - i
  {
    if i >= |slots| then c else OverlayAttached(OverlaySlot(c, slots, orders, i, false), slots, orders, i + 1)
  }

  /** `main`, then the attached databases in slot order, then `temp` on top. */
  function Resolved(main: Tables, slots: Slots, mainOrder: seq<string>, orders: seq<seq<string>>): Catalog
    requires Orders(main, slots, mainOrder, orders)
  {
    var withMain := OverlaySeq(Catalog(main, map[]), main, mainOrder, MAIN_DB_NAME, DB_MAIN, false);
    var attached := OverlayAttached(withMain, slots, orders, 2);
    if DB_TEMP < |slots| then OverlaySlot(attached, slots, orders, DB_TEMP, true) else attached
  }

  method ResolvedSchema(main: Tables, slots: Slots, mainOrder: seq<string>, orders: seq<seq<string>>) returns (r: Option<Catalog>)
    requires Orders(main, slots, mainOrder, orders)
    ensures r == if exists i :: 0 <= i < |slots| && slots[i].Some? then Some(Resolved(main, slots, mainOrder, orders)) else None
  {
    hide OverlaySeq;
    if forall i :: 0 <= i < |slots| ==> slots[i].None? { return None; }
    var merged := OverlaySchema(Catalog(main, map[]), main, mainOrder, MAIN_DB_NAME, DB_MAIN, false);
    var i := 2;
    ghost var start := merged;
    while i < |slots|
      invariant OverlayAttached(merged, slots, orders, i) == OverlayAttached(start, slots, orders, 2)
    {
      if slots[i].Some? {
        merged := OverlaySchema(merged, slots[i].value.tables, orders[i], slots[i].value.name, i, false);
      }
      i := i + 1;
    }
    if DB_TEMP < |slots| && slots[DB_TEMP].Some? {
      var temp := slots[DB_TEMP].value;
      merged := OverlaySchema(merged, temp.tables, orders[DB_TEMP], temp.name, DB_TEMP, true);
    }
    return Some(merged);
  }

  // ---- name resolution

  function TablesAt(slots: Slots, i: nat): Tables {
    if i < |slots| && slots[i].Some? then slots[i].value.tables else map[]
  }

  /** The lowest slot from `i` on whose database has the table. */
  function FirstWith(slots: Slots, name: string, i: nat): Entry
    decreases |slots| - i
  {
    if i >= |slots| then Absent
    else if name in TablesAt(slots, i) then Found(TablesAt(slots, i)[name], i)
    else FirstWith(slots, name, i + 1)
  }

  /** What an unqualified name means: `temp`, else `main`, else the lowest attached
      slot; the schema table is always `main`'s, and `temp`'s has an alias. */
  function Meaning(main: Tables, slots: Slots, name: string): Entry {
    var temp := TablesAt(slots, DB_TEMP);
    if name == SCHEMA_TABLE_NAME then (if name in main then Found(main[name], DB_MAIN) else Absent)
    else if name == TEMP_SCHEMA_TABLE_NAME && SCHEMA_TABLE_NAME in temp then Found(temp[SCHEMA_TABLE_NAME], DB_TEMP)
    else if name in temp then Found(temp[name], DB_TEMP)
    else if name in main then Found(main[name], DB_MAIN)
    else FirstWith(slots, name, 2)
  }

  lemma AfterMain(main: Tables, mainOrder: seq<string>, name: string)
    requires Enumerates(mainOrder, main) && !HasDot(name)
    ensures EntryAt(OverlaySeq(Catalog(main, map[]), main, mainOrder, MAIN_DB_NAME, DB_MAIN, false), name)
            == if name in main then Found(main[name], DB_MAIN) else Absent
  {
    hide OverlaySeq;
    UnqualifiedAfter(Catalog(main, map[]), main, mainOrder, MAIN_DB_NAME, DB_MAIN, false, name);
  }

  lemma {:induction false} AfterAttached(c: Catalog, slots: Slots, orders: seq<seq<string>>, i: nat, name: string)
    requires SlotOrders(slots, orders) && i >= 2 && !HasDot(name)
    ensures EntryAt(OverlayAttached(c, slots, orders, i), name)
            == if name == SCHEMA_TABLE_NAME || EntryAt(c, name).Found? then EntryAt(c, name) else FirstWith(slots, name, i)
    decreases |slots| - i
  {
    hide OverlaySeq, EntryAt, HasDot;
    if i < |slots| {
      if slots[i].Some? {
        UnqualifiedAfter(c, slots[i].value.tables, orders[i], slots[i].value.name, i, false, name);
      }
      AfterAttached(OverlaySlot(c, slots, orders, i, false), slots, orders, i + 1, name);
    }
  }

  /** The schema table of main is never shadowed, and that of temp is reached by its own name. */
  lemma SchemaTablesMean(main: Tables, slots: Slots)
    ensures Meaning(main, slots, "sqlite_schema") == if "sqlite_schema" in main then Found(main["sqlite_schema"], 0) else Absent
    ensures "sqlite_schema" in TablesAt(slots, 1) ==> Meaning(main, slots, "sqlite_temp_schema") == Found(TablesAt(slots, 1)["sqlite_schema"], 1)
  {
    assert |"sqlite_schema"| == 13 && |"sqlite_temp_schema"| == 18;
  }

  /** Every undotted name resolves to what it means, whatever the hash order; only the
      alias of `temp`'s schema table needs that `temp` has no table of that name. */
  lemma UnqualifiedResolves(main: Tables, slots: Slots, mainOrder: seq<string>, orders: seq<seq<string>>, name: string)
    requires Orders(main, slots, mainOrder, orders) && !HasDot(name)
    requires name == TEMP_SCHEMA_TABLE_NAME ==> OrderFree(TablesAt(slots, DB_TEMP), DB_TEMP)
    ensures EntryAt(Resolved(main, slots, mainOrder, orders), name) == Meaning(main, slots, name)
  {
    hide OverlaySeq, EntryAt, HasDot, OverlayAttached;
    var withMain := OverlaySeq(Catalog(main, map[]), main, mainOrder, MAIN_DB_NAME, DB_MAIN, false);
    AfterMain(main, mainOrder, name);
    AfterAttached(withMain, slots, orders, 2, name);
    if DB_TEMP < |slots| && slots[DB_TEMP].Some? {
      var temp := slots[DB_TEMP].value;
      UnqualifiedAfter(OverlayAttached(withMain, slots, orders, 2), temp.tables, orders[DB_TEMP], temp.name, DB_TEMP, true, name);
    }
  }

  lemma {:induction false} QualifiedThroughAttached(c: Catalog, slots: Slots, orders: seq<seq<string>>, i: nat, d: string, n: string)
    requires SlotOrders(slots, orders) && i >= 2 && !HasDot(n)
    requires forall j :: i <= j < |slots| && slots[j].Some? ==> slots[j].value.name != d
    ensures EntryAt(OverlayAttached(c, slots, orders, i), Qualified(d, n)) == EntryAt(c, Qualified(d, n))
    decreases |slots| - i
  {
    hide OverlaySeq, EntryAt, HasDot, Qualified;
    if i < |slots| {
      if slots[i].Some? {
        QualifiedAfter(c, slots[i].value.tables, orders[i], slots[i].value.name, i, false, d, n);
      }
      QualifiedThroughAttached(OverlaySlot(c, slots, orders, i, false), slots, orders, i + 1, d, n);
    }
  }

  lemma {:induction false} QualifiedInAttached(c: Catalog, slots: Slots, orders: seq<seq<string>>, i: nat, k: nat, n: string)
    requires SlotOrders(slots, orders) && 2 <= i <= k < |slots| && slots[k].Some? && !HasDot(n) && DistinctNames(slots)
    ensures var d := slots[k].value.name;
            EntryAt(OverlayAttached(c, slots, orders, i), Qualified(d, n))
            == if n in slots[k].value.tables then Found(slots[k].value.tables[n], k) else EntryAt(c, Qualified(d, n))
    decreases |slots| - i
  {
    hide OverlaySeq, EntryAt, HasDot, Qualified;
    var d := slots[k].value.name;
    if slots[i].Some? {
      QualifiedAfter(c, slots[i].value.tables, orders[i], slots[i].value.name, i, false, d, n);
    }
    var c1 := OverlaySlot(c, slots, orders, i, false);
    if i == k {
      QualifiedThroughAttached(c1, slots, orders, i + 1, d, n);
    } else {
      QualifiedInAttached(c1, slots, orders, i + 1, k, n);
    }
  }

  /** The catalog of a database by its index; `main` is index 0. */
  function TablesOf(main: Tables, slots: Slots, k: nat): Tables {
    if k == DB_MAIN then main else TablesAt(slots, k)
  }

  function NameOf(slots: Slots, k: nat): string
    requires k <= DB_TEMP || Live(slots, k)
  {
    DbNameForIndex(slots, k).value
  }

  /** A qualified name stands for that database's own table; if it has none, for
      whatever `main` holds under the dotted key itself. */
  lemma QualifiedResolves(main: Tables, slots: Slots, mainOrder: seq<string>, orders: seq<seq<string>>, k: nat, n: string)
    requires Orders(main, slots, mainOrder, orders) && WellFormed(slots) && DistinctNames(slots)
    requires (k == DB_MAIN || Live(slots, k)) && !HasDot(n)
    ensures var key := Qualified(NameOf(slots, k), n);
            EntryAt(Resolved(main, slots, mainOrder, orders), key)
            == if n in TablesOf(main, slots, k) then Found(TablesOf(main, slots, k)[n], k)
               else EntryAt(Catalog(main, map[]), key)
  {
    hide OverlaySeq, EntryAt, HasDot, Qualified, OverlayAttached, Reserved, Tagged;
    var start := Catalog(main, map[]);
    var withMain := OverlaySeq(start, main, mainOrder, MAIN_DB_NAME, DB_MAIN, false);
    var attached := OverlayAttached(withMain, slots, orders, 2);
    var d := NameOf(slots, k);
    NamesApart(slots, k);
    QualifiedAfter(start, main, mainOrder, MAIN_DB_NAME, DB_MAIN, false, d, n);
    if k >= 2 {
      QualifiedInAttached(withMain, slots, orders, 2, k, n);
    } else {
      QualifiedThroughAttached(withMain, slots, orders, 2, d, n);
    }
    if DB_TEMP < |slots| && slots[DB_TEMP].Some? {
      var temp := slots[DB_TEMP].value;
      assert SlotFits(slots[DB_TEMP], DB_TEMP);
      QualifiedAfter(attached, temp.tables, orders[DB_TEMP], temp.name, DB_TEMP, true, d, n);
    }
  }

  /** The three kinds of database names never coincide. */
  lemma NamesApart(slots: Slots, k: nat)
    requires WellFormed(slots) && (k == DB_MAIN || Live(slots, k))
    ensures MAIN_DB_NAME != TEMP_DB_NAME
    ensures k >= 2 ==> NameOf(slots, k) != MAIN_DB_NAME && NameOf(slots, k) != TEMP_DB_NAME
    ensures k < 2 ==> forall j :: 2 <= j < |slots| && slots[j].Some? ==> slots[j].value.name != NameOf(slots, k)
  {
    hide Lower, Tagged;
    assert MAIN_DB_NAME[0] != TEMP_DB_NAME[0];
    forall j | 2 <= j < |slots| && slots[j].Some?
      ensures slots[j].value.name != MAIN_DB_NAME && slots[j].value.name != TEMP_DB_NAME
    {
      assert SlotFits(slots[j], j);
    }
  }

  /** A B-tree table reached by name carries the index of the database it is in. */
  lemma MeaningIsTagged(main: Tables, slots: Slots, name: string)
    requires WellFormed(slots) && Tagged(main, DB_MAIN)
    ensures EntryIsTagged(Meaning(main, slots, name))
  {
    forall i | 0 <= i < |slots| && slots[i].Some? ensures Tagged(slots[i].value.tables, i) {
      assert SlotFits(slots[i], i);
    }
    FirstWithIsTagged(slots, name, 2);
  }

  /** A B-tree table carries the index of the database it was found in. */
  predicate EntryIsTagged(e: Entry) { e.Found? && e.table.BTree? ==> e.table.db == e.db }

  /** Whatever an undotted name or a qualified one resolves to in the merged catalog is tagged. */
  lemma ResolvedIsTagged(main: Tables, slots: Slots, mainOrder: seq<string>, orders: seq<seq<string>>, k: nat, n: string)
    requires Orders(main, slots, mainOrder, orders) && WellFormed(slots) && Tagged(main, DB_MAIN) && !HasDot(n)
    ensures (n == TEMP_SCHEMA_TABLE_NAME ==> OrderFree(TablesAt(slots, DB_TEMP), DB_TEMP)) ==>
              EntryIsTagged(EntryAt(Resolved(main, slots, mainOrder, orders), n))
    ensures DistinctNames(slots) && (k == DB_MAIN || Live(slots, k)) ==>
              EntryIsTagged(EntryAt(Resolved(main, slots, mainOrder, orders), Qualified(NameOf(slots, k), n)))
  {
    hide Resolved, Meaning, HasDot, Qualified, WellFormed, DistinctNames, OrderFree, Orders;
    if n == TEMP_SCHEMA_TABLE_NAME ==> OrderFree(TablesAt(slots, DB_TEMP), DB_TEMP) {
      UnqualifiedResolves(main, slots, mainOrder, orders, n);
      MeaningIsTagged(main, slots, n);
    }
    if DistinctNames(slots) && (k == DB_MAIN || Live(slots, k)) {
      QualifiedResolves(main, slots, mainOrder, orders, k, n);
      if k != DB_MAIN { SlotIsTagged(slots, k); }
    }
  }

  lemma SlotIsTagged(slots: Slots, k: nat)
    requires WellFormed(slots) && Live(slots, k)
    ensures Tagged(slots[k].value.tables, k)
  {
    assert SlotFits(slots[k], k);
  }

  lemma {:induction false} FirstWithIsTagged(slots: Slots, name: string, i: nat)
    requires forall j :: 0 <= j < |slots| && slots[j].Some? ==> Tagged(slots[j].value.tables, j)
    ensures var e := FirstWith(slots, name, i); e.Found? && e.table.BTree? ==> e.table.db == e.db
    decreases |slots| - i
  {
    if i < |slots| && name !in TablesAt(slots, i) { FirstWithIsTagged(slots, name, i + 1); }
  }

  /** The slot chosen for an attached name is the lowest that has it. */
  lemma {:induction false} FirstWithIsLowest(slots: Slots, name: string, i: nat)
    ensures match FirstWith(slots, name, i)
            case Found(table, k) => i <= k && name in TablesAt(slots, k) && table == TablesAt(slots, k)[name]
                                    && forall j :: i <= j < k ==> name !in TablesAt(slots, j)
            case Absent => forall j :: i <= j ==> name !in TablesAt(slots, j)
    decreases |slots| - i
  {
    if i < |slots| && name !in TablesAt(slots, i) { FirstWithIsLowest(slots, name, i + 1); }
  }

  /** With no auxiliary database the merged catalog answers undotted names as `main` does. */
  lemma MainAloneIsTheSame(main: Tables, slots: Slots, mainOrder: seq<string>, orders: seq<seq<string>>, name: string)
    requires Orders(main, slots, mainOrder, orders) && !HasDot(name)
    requires forall i :: 0 <= i < |slots| ==> slots[i].None?
    ensures EntryAt(Resolved(main, slots, mainOrder, orders), name) == EntryAt(Catalog(main, map[]), name)
  {
    hide Resolved;
    UnqualifiedResolves(main, slots, mainOrder, orders, name);
    FirstWithIsLowest(slots, name, 2);
  }

  // ---- when the hash order shows

  lemma {:induction false} OverlaySeqAppend(
      c: Catalog, source: Tables, a: seq<string>, b: seq<string>, dbName: string, db: nat, shadow: bool)
    requires forall n :: n in a + b ==> n in source
    requires forall n :: n in a || n in b ==> n in source
    ensures OverlaySeq(c, source, a + b, dbName, db, shadow)
            == OverlaySeq(OverlaySeq(c, source, a, dbName, db, shadow), source, b, dbName, db, shadow)
    decreases a
  {
    hide OverlayOne;
    if a == [] {
      assert a + b == b;
    } else {
      assert (a + b)[1..] == a[1..] + b;
      OverlaySeqAppend(OverlayOne(c, a[0], source[a[0]], dbName, db, shadow), source, a[1..], b, dbName, db, shadow);
    }
  }

  ghost function Listing(s: set<string>): (r: seq<string>)
    ensures NoRepeats(r) && forall n :: n in r <==> n in s
    decreases s
  {
    if s == {} then [] else
      var x :| x in s;
      [x] + Listing(s - {x})
  }

  lemma LastTwoDecide(c: Catalog, source: Tables, rest: seq<string>, first: string, second: string, dbName: string)
    requires {first, second} == {SCHEMA_TABLE_NAME, TEMP_SCHEMA_TABLE_NAME} && first != second
    requires first in source && second in source && forall n :: n in rest ==> n in source
    ensures forall n :: n in rest + [first, second] ==> n in source
    ensures EntryAt(OverlaySeq(c, source, rest + [first, second], dbName, DB_TEMP, true), TEMP_SCHEMA_TABLE_NAME)
            == Found(source[second], DB_TEMP)
  {
    OverlaySeqAppend(c, source, rest, [first, second], dbName, DB_TEMP, true);
    var c0 := OverlaySeq(c, source, rest, dbName, DB_TEMP, true);
    hide OverlayOne, EntryAt;
    var c1 := OverlayOne(c0, first, source[first], dbName, DB_TEMP, true);
    var c2 := OverlayOne(c1, second, source[second], dbName, DB_TEMP, true);
    assert [first, second][1..] == [second] && [second][1..] == [];
    assert OverlaySeq(c1, source, [second], dbName, DB_TEMP, true) == OverlaySeq(c2, source, [], dbName, DB_TEMP, true) == c2;
    assert OverlaySeq(c0, source, [first, second], dbName, DB_TEMP, true) == c2;
    OneUnqualified(c1, second, source, dbName, DB_TEMP, true, TEMP_SCHEMA_TABLE_NAME);
  }

  ghost predicate SameWhateverTheOrder(c: Catalog, source: Tables, dbName: string) {
    forall a, b :: Enumerates(a, source) && Enumerates(b, source) ==>
      EntryAt(OverlaySeq(c, source, a, dbName, DB_TEMP, true), TEMP_SCHEMA_TABLE_NAME)
      == EntryAt(OverlaySeq(c, source, b, dbName, DB_TEMP, true), TEMP_SCHEMA_TABLE_NAME)
  }

  /** What the alias of `temp`'s schema table stands for is independent of the hash
      order exactly when `temp` has no other table of that name. */
  lemma AliasIsOrderFreeIff(c: Catalog, source: Tables, dbName: string)
    requires SCHEMA_TABLE_NAME in source && TEMP_SCHEMA_TABLE_NAME in source ==>
               source[SCHEMA_TABLE_NAME] != source[TEMP_SCHEMA_TABLE_NAME]
    ensures SameWhateverTheOrder(c, source, dbName) <==> OrderFree(source, DB_TEMP)
  {
    if OrderFree(source, DB_TEMP) {
      OrderFreeIsEnough(c, source, dbName);
    } else {
      OrderFreeIsNeeded(c, source, dbName);
    }
  }

  lemma OrderFreeIsEnough(c: Catalog, source: Tables, dbName: string)
    requires OrderFree(source, DB_TEMP)
    ensures SameWhateverTheOrder(c, source, dbName)
  {
    hide OverlaySeq, EntryAt;
    forall a, b | Enumerates(a, source) && Enumerates(b, source)
      ensures EntryAt(OverlaySeq(c, source, a, dbName, DB_TEMP, true), TEMP_SCHEMA_TABLE_NAME)
              == EntryAt(OverlaySeq(c, source, b, dbName, DB_TEMP, true), TEMP_SCHEMA_TABLE_NAME)
    {
      UnqualifiedAfter(c, source, a, dbName, DB_TEMP, true, TEMP_SCHEMA_TABLE_NAME);
      UnqualifiedAfter(c, source, b, dbName, DB_TEMP, true, TEMP_SCHEMA_TABLE_NAME);
      assert (set n | n in a) == (set n | n in b);
    }
  }

  lemma EndsWithPair(source: Tables, rest: seq<string>, s: string, t: string)
    requires s in source && t in source && s != t
    requires NoRepeats(rest) && forall n :: n in rest <==> n in source.Keys - {s, t}
    ensures Enumerates(rest + [s, t], source)
  {
    var names := rest + [s, t];
    forall n ensures n in names <==> n in source {
      assert n in names <==> n in rest || n == s || n == t;
    }
    forall i, j | 0 <= i < j < |names| ensures names[i] != names[j] {
      assert i < |rest| ==> names[i] in rest;
    }
  }

  lemma OrderFreeIsNeeded(c: Catalog, source: Tables, dbName: string)
    requires !OrderFree(source, DB_TEMP)
    requires SCHEMA_TABLE_NAME in source && TEMP_SCHEMA_TABLE_NAME in source ==>
               source[SCHEMA_TABLE_NAME] != source[TEMP_SCHEMA_TABLE_NAME]
    ensures !SameWhateverTheOrder(c, source, dbName)
  {
    hide OverlaySeq, EntryAt, Enumerates, NoRepeats;
    var s, t := SCHEMA_TABLE_NAME, TEMP_SCHEMA_TABLE_NAME;
    assert |s| != |t|;
    var rest := Listing(source.Keys - {s, t});
    EndsWithPair(source, rest, s, t);
    EndsWithPair(source, rest, t, s);
    LastTwoDecide(c, source, rest, s, t, dbName);
    LastTwoDecide(c, source, rest, t, s, dbName);
    var a, b := rest + [s, t], rest + [t, s];
    assert Enumerates(a, source) && Enumerates(b, source);
    assert EntryAt(OverlaySeq(c, source, a, dbName, DB_TEMP, true), TEMP_SCHEMA_TABLE_NAME)
        != EntryAt(OverlaySeq(c, source, b, dbName, DB_TEMP, true), TEMP_SCHEMA_TABLE_NAME);
  }
}
