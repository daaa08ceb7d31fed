/** Names, lookups and single steps of the registry, said without its own functions. */
module RegistryLaws {
  import opened Wrappers
  import opened AsciiCase
  import opened MultiDb
  import opened Registry
  import opened RegistryTheorems

  // ---- quotes

  /** The identifier is this text between a pair of quotes. */
  predicate Wraps(id: string, x: string) { id in {"\"" + x + "\"", "[" + x + "]", "`" + x + "`"} }

  ghost predicate Bare(id: string) { id !in {"\"", "`"} && forall x :: !Wraps(id, x) }

  lemma WrappedIsQuoted(id: string, x: string)
    requires Wraps(id, x)
    ensures |id| >= 2 && Quoted(id) && id[1..|id| - 1] == x
  {
  }

  /** One pair of quotes comes off, and the rest is taken in lower case. */
  lemma NormalizeMeans(id: string, x: string)
    ensures Wraps(id, x) ==> Normalize(id) == Some(Lower(x))
    ensures Bare(id) ==> Normalize(id) == Some(Lower(id))
    ensures id in {"\"", "`"} ==> Normalize(id) == None
    ensures id in {"\"", "`"} || Bare(id) || exists y :: Wraps(id, y)
  {
    hide Lower;
    if Wraps(id, x) { WrappedIsQuoted(id, x); }
    if Quoted(id) && |id| >= 2 {
      var y := id[1..|id| - 1];
      assert id == [id[0]] + y + [id[|id| - 1]];
      assert Wraps(id, y);
    }
    if |id| == 1 { assert id == [id[0]]; }
  }

  /** The name is called this, in any case and at most one pair of quotes. */
  ghost predicate Called(name: string, target: string) {
    (Bare(name) && SameButCase(name, target)) || exists x :: Wraps(name, x) && SameButCase(x, target)
  }

  lemma CalledIff(name: string, target: string)
    ensures Called(name, target) <==> Normalize(name).Some? && EqIgnoreCase(Normalize(name).value, target)
  {
    hide Lower, SameButCase, Bare, Wraps, Normalize;
    NormalizeMeans(name, "");
    LoweredAgain(name, target);
    if Bare(name) {
      LowerIff(name, target);
      NotBoth(name);
    } else if x :| Wraps(name, x) {
      NormalizeMeans(name, x);
      LoweredAgain(x, target);
      LowerIff(x, target);
      forall y | Wraps(name, y) ensures y == x {
        WrappedIsQuoted(name, x);
        WrappedIsQuoted(name, y);
      }
    } else {
      NormalizeMeans(name, "");
    }
  }

  lemma NotBoth(name: string)
    requires Bare(name)
    ensures forall x :: !Wraps(name, x)
  {
  }

  lemma LoweredAgain(x: string, target: string)
    ensures EqIgnoreCase(Lower(x), target) <==> Lower(x) == Lower(target)
  {
    LowerIdempotent(x);
  }

  // ---- lookups

  ghost predicate AttachedCalled(slots: Slots, i: nat, name: string) {
    i < |slots| && slots[i].Some? && slots[i].value.kind.Attached? && Called(name, slots[i].value.name)
  }

  /** `main`, then `temp` under its two names, then the first attached database so called. */
  lemma LookupMeans(slots: Slots, name: string, i: nat)
    requires WellFormed(slots)
    ensures var r := DbIndexByName(slots, name);
            && (r == At(0) <==> Called(name, "main"))
            && (r == At(1) <==> Called(name, "temp") || Called(name, "sqlite_temp"))
            && (i >= 2 ==>
                  (r == At(i) <==>
                   && !Called(name, "main") && !Called(name, "temp") && !Called(name, "sqlite_temp")
                   && AttachedCalled(slots, i, name) && forall j: nat :: j < i ==> !AttachedCalled(slots, j, name)))
            && (r.Panics? <==> name in {"\"", "`"})
  {
    hide Normalize, EqIgnoreCase, Called, Lower, WellFormed, AttachedCalled, IsAttachedAs;
    assert MAIN_DB_NAME == "main" && TEMP_DB_NAME == "temp" && TEMP_DB_NAME_ALT == "sqlite_temp";
    CalledIff(name, "main");
    CalledIff(name, "temp");
    CalledIff(name, "sqlite_temp");
    NormalizeMeans(name, "");
    PanicsIff(name);
    if Normalize(name).Some? {
      var n := Normalize(name).value;
      MainIsNotTemp(n);
      PositionFinds(slots, n, 0);
      forall j: nat ensures AttachedCalled(slots, j, name) <==> j < |slots| && IsAttachedAs(slots[j], n) {
        AttachedCalledIff(slots, j, name);
      }
      forall j: nat | j < |slots| && j < 2 ensures !IsAttachedAs(slots[j], n) { NotAttached(slots, j, n); }
      if AttachedCalled(slots, i, name) && forall j: nat :: j < i ==> !AttachedCalled(slots, j, name) {
        assert Position(slots, n, 0).Some?;
        assert AttachedCalled(slots, Position(slots, n, 0).value, name);
      }
    } else {
      NobodyCalled(slots, i, name);
    }
  }

  lemma NobodyCalled(slots: Slots, i: nat, name: string)
    requires Normalize(name).None?
    ensures !AttachedCalled(slots, i, name)
  {
    hide Normalize, EqIgnoreCase, Called;
    if i < |slots| && slots[i].Some? { CalledIff(name, slots[i].value.name); }
  }

  lemma AttachedCalledIff(slots: Slots, j: nat, name: string)
    requires Normalize(name).Some?
    ensures AttachedCalled(slots, j, name) <==> j < |slots| && IsAttachedAs(slots[j], Normalize(name).value)
  {
    hide Normalize, EqIgnoreCase, Called;
    if j < |slots| && slots[j].Some? {
      CalledIff(name, slots[j].value.name);
      Symmetric(Normalize(name).value, slots[j].value.name);
    }
  }

  lemma NotAttached(slots: Slots, j: nat, name: string)
    requires WellFormed(slots) && j < |slots| && j < 2
    ensures !IsAttachedAs(slots[j], name)
  {
    hide Lower, Reserved, EqIgnoreCase;
    assert SlotFits(slots[j], j);
  }

  lemma Symmetric(a: string, b: string)
    ensures EqIgnoreCase(a, b) <==> EqIgnoreCase(b, a)
  {
  }

  lemma PanicsIff(name: string)
    ensures Normalize(name).None? <==> name in {"\"", "`"}
  {
    hide Lower;
    NormalizeMeans(name, "");
    if name !in {"\"", "`"} && !Bare(name) {
      var y :| Wraps(name, y);
      NormalizeMeans(name, y);
    }
  }

  /** A name in another case looks up the same database. */
  lemma LookupIgnoresCase(slots: Slots, a: string, b: string)
    requires SameButCase(a, b)
    ensures DbIndexByName(slots, a) == DbIndexByName(slots, b)
  {
    hide Lower, Position;
    QuotesAlike(a, b);
    LowerIff(a, b);
    if Quoted(a) && |a| >= 2 {
      var x, y := a[1..|a| - 1], b[1..|b| - 1];
      assert SameButCase(x, y);
      LowerIff(x, y);
    }
  }

  lemma QuotesAlike(a: string, b: string)
    requires SameButCase(a, b)
    ensures Quoted(a) <==> Quoted(b)
  {
    hide SmallLetter;
    if a != [] {
      CasesAre(a[0], b[0]);
      CasesAre(b[0], a[0]);
      CasesAre(a[|a| - 1], b[|b| - 1]);
      CasesAre(b[|b| - 1], a[|a| - 1]);
    }
  }

  // ---- what a new database holds

  /** The same tables by name, kind and id, each B-tree one belonging to slot `i`. */
  ghost predicate SameTables(before: map<string, Table>, after: map<string, Table>, i: nat) {
    && after.Keys == before.Keys
    && forall n :: n in before ==>
         match before[n]
         case BTree(id, _) => after[n] == BTree(id, i)
         case OtherTable(id) => after[n] == OtherTable(id)
  }

  /** Opened under this name with these tables: no transaction, no lock. */
  ghost predicate IsNew(aux: AuxDb, name: string, kind: AuxDbKind, tables: map<string, Table>, i: nat) {
    aux.name == name && aux.kind == kind && aux.txn.NoTxn? && aux.pager == Pager(0, false) && SameTables(tables, aux.tables, i)
  }

  lemma FreshIsNew(name: string, kind: AuxDbKind, tables: map<string, Table>, i: nat)
    ensures IsNew(Fresh(name, kind, tables, i), name, kind, tables, i)
  {
  }

  ghost predicate OthersAsBefore(before: Slots, after: Slots, i: nat) {
    && |after| >= |before|
    && forall j :: 0 <= j < |after| && j != i ==> after[j] == if j < |before| then before[j] else None
  }

  /** A live temp is left alone. Otherwise nothing changes unless the file opens, and then slot 1
      holds the new temp and every other slot is as before. */
  lemma EnsureTempIs(slots: Slots, opening: Opening)
    ensures var (after, outcome) := EnsureTemp(slots, opening);
            && (Live(slots, 1) ==> after == slots && outcome == Done(1))
            && (!Live(slots, 1) && !opening.Opens? ==> after == slots && outcome == Failed)
            && (!Live(slots, 1) && opening.Opens? ==>
                  && outcome == Done(1) && Live(after, 1) && IsNew(after[1].value, "temp", Temp, opening.tables, 1)
                  && OthersAsBefore(slots, after, 1) && (|slots| >= 2 ==> |after| == |slots|))
  {
    hide Fresh, IsNew;
    if opening.Opens? { FreshIsNew("temp", Temp, opening.tables, 1); }
  }

  /** An attach puts the new database into the lowest free slot from 2 on, under the alias
      stripped and in lower case, and leaves every other slot alone. */
  lemma AttachIs(slots: Slots, autoCommit: bool, alias: string, opening: Opening)
    requires Attach(slots, autoCommit, alias, opening).1.Done?
    ensures var (after, outcome) := Attach(slots, autoCommit, alias, opening);
            var i := outcome.index;
            && i >= 2 && !Live(slots, i) && (forall j: nat :: 2 <= j < i ==> Live(slots, j))
            && opening.Opens? && Normalize(alias).Some? && Live(after, i)
            && IsNew(after[i].value, Normalize(alias).value, Attached, opening.tables, i)
            && OthersAsBefore(slots, after, i)
  {
    hide Fresh, IsNew, Attach, Normalize;
    AttachFillsOneSlot(slots, autoCommit, alias, opening);
    AttachGrows(slots, autoCommit, alias, opening);
    var i := Attach(slots, autoCommit, alias, opening).1.index;
    FreshIsNew(Normalize(alias).value, Attached, opening.tables, i);
  }

  lemma AttachGrows(slots: Slots, autoCommit: bool, alias: string, opening: Opening)
    ensures |Attach(slots, autoCommit, alias, opening).0| >= |slots|
  {
    hide Normalize, DbIndexByName, EqIgnoreCase, Fresh;
  }

  /** The name an alias is looked up under is free. */
  ghost predicate Free(slots: Slots, alias: string) {
    && LookedUp(alias).Some? && !NamesMainOrTemp(alias)
    && !Reserved(LookedUp(alias).value) && !NameTaken(slots, LookedUp(alias).value)
  }

  /** Why an attach is refused. */
  lemma AttachRefusals(slots: Slots, autoCommit: bool, alias: string, opening: Opening)
    requires WellFormed(slots)
    ensures var outcome := Attach(slots, autoCommit, alias, opening).1;
            && (outcome == InUse <==> !StripsToNothing(alias) && !Free(slots, alias))
            && (outcome == InTransaction <==> Free(slots, alias) && !autoCommit)
            && (outcome == TooMany <==> Free(slots, alias) && autoCommit && !HasFreeSlot(slots))
            && (outcome == Failed <==> Free(slots, alias) && autoCommit && HasFreeSlot(slots) && !opening.Opens?)
  {
    hide Normalize, DbIndexByName, EqIgnoreCase, NameTaken, HasFreeSlot, WellFormed, CountLive, StripsToNothing;
    LookupFailsIff(alias);
    if NamesMainOrTemp(alias) { ReservedIsPlain(alias); }
    if Normalize(alias).Some? {
      MissingIff(slots, Normalize(alias).value);
      LookupPanicsIff(slots, Normalize(alias).value);
    }
    FormBounds(slots);
    TooManyIff(slots);
  }

  lemma LookupPanicsIff(slots: Slots, name: string)
    ensures DbIndexByName(slots, name).Panics? <==> Normalize(name).None?
  {
    hide Normalize, EqIgnoreCase, Position;
  }

  /** A detach empties the slot the alias names, or nothing. */
  lemma DetachIs(slots: Slots, autoCommit: bool, alias: string)
    ensures var (after, outcome) := Detach(slots, autoCommit, alias);
            && (outcome.Done? || outcome.Locked? ==>
                  && autoCommit && Normalize(alias).Some? && DbIndexByName(slots, Normalize(alias).value).At?
                  && var i := DbIndexByName(slots, Normalize(alias).value).index;
                  && i < |slots| && after == slots[i := None] && (outcome.Done? ==> outcome.index == i)
                  && (outcome.Locked? <==> Live(slots, i) && !slots[i].value.txn.NoTxn?))
            && (!outcome.Done? && !outcome.Locked? ==> after == slots)
  {
    hide Normalize, DbIndexByName, EqIgnoreCase;
  }

  /** Why a detach is refused. */
  lemma DetachRefusals(slots: Slots, autoCommit: bool, alias: string)
    ensures var outcome := Detach(slots, autoCommit, alias).1;
            var missing := LookedUp(alias).Some? && DbIndexByName(slots, Normalize(alias).value).Missing?;
            && (outcome == CannotDetach <==> NamesMainOrTemp(alias))
            && (outcome == NoSuchDatabase <==> !NamesMainOrTemp(alias) && missing)
            && (outcome == InTransaction <==> !NamesMainOrTemp(alias) && LookedUp(alias).Some? && !missing && !autoCommit)
  {
    hide Normalize, EqIgnoreCase, Position;
    if NamesMainOrTemp(alias) { ReservedIsPlain(alias); }
  }
}
