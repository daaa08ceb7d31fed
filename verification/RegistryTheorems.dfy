/** What every run of attach, detach and temp creation keeps. */
module RegistryTheorems {
  import opened Wrappers
  import opened AsciiCase
  import opened MultiDb
  import opened Registry

  predicate Reserved(name: string) {
    EqIgnoreCase(name, MAIN_DB_NAME) || EqIgnoreCase(name, TEMP_DB_NAME) || EqIgnoreCase(name, TEMP_DB_NAME_ALT)
  }

  /** Every B-tree table in the catalog of slot `i` carries the index `i`. */
  ghost predicate Tagged(tables: map<string, Table>, i: nat) {
    forall n :: n in tables && tables[n].BTree? ==> tables[n].db == i
  }

  ghost predicate SlotFits(slot: Option<AuxDb>, i: nat) {
    slot.Some? ==>
      var aux := slot.value;
      && i > 0 && Tagged(aux.tables, i)
      && (i == DB_TEMP ==> aux.kind.Temp? && aux.name == TEMP_DB_NAME)
      && (i >= 2 ==> aux.kind.Attached? && !Reserved(aux.name) && Lower(aux.name) == aux.name)
  }

  /** Slot 0 empty, slot 1 empty or `temp`, the others attached under unreserved
      names; at most ten attached. */
  ghost predicate WellFormed(slots: Slots) {
    |slots| <= 12 && forall i :: 0 <= i < |slots| ==> SlotFits(slots[i], i)
  }

  ghost predicate DistinctNames(slots: Slots) {
    forall i, j :: 2 <= i < j < |slots| && slots[i].Some? && slots[j].Some? ==>
      slots[i].value.name != slots[j].value.name
  }

  lemma {:induction false} FullCount(slots: Slots)
    requires forall i :: 0 <= i < |slots| ==> slots[i].Some?
    ensures CountLive(slots) == |slots|
    decreases slots
  {
    if slots != [] { FullCount(slots[1..]); }
  }

  lemma {:induction false} CountBound(slots: Slots)
    ensures CountLive(slots) <= |slots|
    decreases slots
  {
    if slots != [] { CountBound(slots[1..]); }
  }

  /** A position found is that of an attached database of the name; none is missed. */
  lemma {:induction false} PositionFinds(slots: Slots, name: string, i: nat)
    requires i <= |slots|
    ensures match Position(slots, name, i)
            case Some(k) => i <= k < |slots| && IsAttachedAs(slots[k], name)
                            && forall j :: i <= j < k ==> !IsAttachedAs(slots[j], name)
            case None => forall j :: i <= j < |slots| ==> !IsAttachedAs(slots[j], name)
    decreases |slots| - i
  {
    if i < |slots| { PositionFinds(slots, name, i + 1); }
  }

  lemma RetagTags(tables: map<string, Table>, i: nat)
    ensures Tagged(Retag(tables, i), i)
  {
  }

  // ---- single steps

  lemma EnsureTempKeeps(slots: Slots, opening: Opening)
    requires WellFormed(slots)
    ensures WellFormed(EnsureTemp(slots, opening).0)
    ensures DistinctNames(slots) ==> DistinctNames(EnsureTemp(slots, opening).0)
    ensures EnsureTemp(slots, opening).1.Done? <==> Live(EnsureTemp(slots, opening).0, DB_TEMP)
  {
    hide Reserved, Lower, Retag, Tagged;
    if opening.Opens? {
      RetagTags(opening.tables, DB_TEMP);
    }
  }

  lemma PlaceAttachedKeeps(slots: Slots, name: string, opening: Opening)
    requires WellFormed(slots) && !opening.OpenFails? && !Reserved(name) && Lower(name) == name
    requires |slots| > 2 ==> CountLive(slots[2..]) < MAX_ATTACHED
    ensures WellFormed(PlaceAttached(slots, name, opening).0)
  {
    hide Reserved, Lower;
    var padded := Padded(slots);
    var index := FirstFree(padded, 2);
    if index == |padded| && |slots| > 2 {
      assert forall i :: 0 <= i < |slots[2..]| ==> slots[2..][i] == padded[2 + i];
      FullCount(slots[2..]);
    }
    if opening.Opens? {
      RetagTags(opening.tables, index);
    }
  }

  /** A successful attach fills the lowest free slot from 2 on and changes no other. */
  lemma AttachFillsOneSlot(slots: Slots, autoCommit: bool, alias: string, opening: Opening)
    ensures var (after, outcome) := Attach(slots, autoCommit, alias, opening);
            outcome.Done? ==>
              var i := outcome.index;
              && autoCommit && opening.Opens? && Normalize(alias).Some?
              && 2 <= i < |after| && !Live(slots, i)
              && after[i] == Some(Fresh(Normalize(alias).value, Attached, opening.tables, i))
              && (forall j :: 2 <= j < i ==> Live(slots, j))
              && (forall j :: 0 <= j < |slots| && j != i ==> j < |after| && after[j] == slots[j])
              && (forall j :: |slots| <= j < |after| && j != i ==> after[j].None?)
  {
    hide EqIgnoreCase, DbIndexByName;
  }

  lemma NormalizedIsLower(id: string)
    requires Normalize(id).Some?
    ensures Lower(Normalize(id).value) == Normalize(id).value
  {
    LowerIdempotent(if Quoted(id) then id[1..|id| - 1] else id);
  }

  lemma AttachKeepsForm(slots: Slots, autoCommit: bool, alias: string, opening: Opening)
    requires WellFormed(slots)
    ensures WellFormed(Attach(slots, autoCommit, alias, opening).0)
  {
    hide EqIgnoreCase, DbIndexByName, Normalize, WellFormed, PlaceAttached, Reserved;
    var normalized := Normalize(alias);
    if normalized.Some? {
      var name := normalized.value;
      NormalizedIsLower(alias);
      if !EqIgnoreCase(name, MAIN_DB_NAME) && !EqIgnoreCase(name, TEMP_DB_NAME) && DbIndexByName(slots, name).Missing? {
        MissingIsUnreserved(slots, name);
        if !opening.OpenFails? && (|slots| > 2 ==> CountLive(slots[2..]) < MAX_ATTACHED) {
          PlaceAttachedKeeps(slots, name, opening);
        }
      }
    }
  }

  lemma AltIsUnquoted(name: string)
    requires EqIgnoreCase(name, TEMP_DB_NAME_ALT)
    ensures Normalize(name) == Some(Lower(name)) && EqIgnoreCase(Lower(name), TEMP_DB_NAME_ALT)
  {
    hide Lower;
    assert Lower(TEMP_DB_NAME_ALT)[0] == LowerChar('s') == 's';
    assert LowerChar(name[0]) == 's';
    assert !Quoted(name);
    LowerIdempotent(name);
  }

  lemma MissingIsUnreserved(slots: Slots, name: string)
    requires !EqIgnoreCase(name, MAIN_DB_NAME) && !EqIgnoreCase(name, TEMP_DB_NAME)
    requires DbIndexByName(slots, name).Missing?
    ensures !Reserved(name)
  {
    hide EqIgnoreCase, Normalize, Position;
    if EqIgnoreCase(name, TEMP_DB_NAME_ALT) {
      AltIsUnquoted(name);
    }
  }

  lemma DetachKeeps(slots: Slots, autoCommit: bool, alias: string)
    requires WellFormed(slots)
    ensures WellFormed(Detach(slots, autoCommit, alias).0)
    ensures DistinctNames(slots) ==> DistinctNames(Detach(slots, autoCommit, alias).0)
  {
    hide EqIgnoreCase, DbIndexByName;
  }

  // ---- when an attach succeeds

  lemma {:induction false} FullIff(slots: Slots)
    ensures CountLive(slots) == |slots| <==> forall i :: 0 <= i < |slots| ==> slots[i].Some?
    decreases slots
  {
    CountBound(slots);
    if slots != [] {
      CountBound(slots[1..]);
      FullIff(slots[1..]);
      assert forall i :: 0 < i < |slots| ==> slots[i] == slots[1..][i - 1];
    }
  }

  predicate HasFreeSlot(slots: Slots) {
    exists i :: 2 <= i < 12 && !Live(slots, i)
  }

  lemma TooManyIff(slots: Slots)
    requires |slots| <= 12
    ensures |slots| > 2 && CountLive(slots[2..]) >= MAX_ATTACHED <==> !HasFreeSlot(slots)
  {
    hide CountLive;
    if |slots| < 12 {
      assert !Live(slots, 11);
      if |slots| > 2 { CountBound(slots[2..]); }
    } else {
      var rest := slots[2..];
      CountBound(rest);
      FullIff(rest);
      if i :| 2 <= i < 12 && !Live(slots, i) { assert rest[i - 2].None?; }
      if i :| 0 <= i < |rest| && rest[i].None? { assert !Live(slots, i + 2); }
    }
  }

  lemma FormBounds(slots: Slots)
    requires WellFormed(slots)
    ensures |slots| <= 12
  {
  }

  predicate NameTaken(slots: Slots, name: string) {
    exists j :: 2 <= j < |slots| && slots[j].Some? && slots[j].value.name == name
  }

  lemma AttachedAsIff(slots: Slots, name: string, j: nat)
    requires WellFormed(slots) && Lower(name) == name && j < |slots|
    ensures IsAttachedAs(slots[j], name) <==> j >= 2 && slots[j].Some? && slots[j].value.name == name
  {
    hide Lower, Tagged, Reserved;
    assert SlotFits(slots[j], j);
  }

  lemma MissingIff(slots: Slots, name: string)
    requires WellFormed(slots)
    ensures DbIndexByName(slots, name).Missing? <==>
            Normalize(name).Some? && !Reserved(Normalize(name).value) && !NameTaken(slots, Normalize(name).value)
  {
    hide Normalize, EqIgnoreCase, IsAttachedAs, WellFormed, Position;
    if Normalize(name).Some? {
      NormalizedIsLower(name);
      var inner := Normalize(name).value;
      PositionFinds(slots, inner, 0);
      forall j: nat | j < |slots| ensures IsAttachedAs(slots[j], inner) <==> j >= 2 && slots[j].Some? && slots[j].value.name == inner {
        AttachedAsIff(slots, inner, j);
      }
    }
  }

  /** The name an alias is looked up under: stripped of quotes twice. */
  function LookedUp(alias: string): Option<string> {
    match Normalize(alias)
    case None => None
    case Some(name) => Normalize(name)
  }

  predicate NamesMainOrTemp(alias: string) {
    Normalize(alias).Some? && (EqIgnoreCase(Normalize(alias).value, MAIN_DB_NAME) || EqIgnoreCase(Normalize(alias).value, TEMP_DB_NAME))
  }

  /** An alias is attached exactly outside a transaction, if the file opens, the name it is
      looked up under is neither reserved nor taken, and one of the ten slots is free. A refused
      attach leaves every database where it is. */
  lemma AttachSucceedsIff(slots: Slots, autoCommit: bool, alias: string, opening: Opening)
    requires WellFormed(slots)
    ensures var (after, outcome) := Attach(slots, autoCommit, alias, opening);
            && (outcome.Done? <==>
                && autoCommit && opening.Opens? && !NamesMainOrTemp(alias) && HasFreeSlot(slots)
                && LookedUp(alias).Some? && !Reserved(LookedUp(alias).value) && !NameTaken(slots, LookedUp(alias).value))
            && (!outcome.Done? ==> forall j :: 0 <= j < |after| ==> after[j] == if j < |slots| then slots[j] else None)
            && |after| >= |slots|
  {
    hide Normalize, DbIndexByName, EqIgnoreCase, NameTaken, HasFreeSlot, WellFormed, CountLive;
    if Normalize(alias).Some? { MissingIff(slots, Normalize(alias).value); }
    FormBounds(slots);
    TooManyIff(slots);
  }

  // ---- distinct names

  lemma AtMostTenAttached(slots: Slots)
    requires WellFormed(slots) && |slots| > 2
    ensures CountLive(slots[2..]) <= 10
  {
    CountBound(slots[2..]);
  }

  /** An alias that is still quoted once its quotes are stripped: the name is stored
      with the inner quotes, but looked up without them. */
  predicate DoublyQuoted(alias: string) {
    match Normalize(alias)
    case None => false
    case Some(name) =>
      match Normalize(name)
      case None => false
      case Some(inner) => inner != name && !Reserved(inner)
  }

  lemma DoublyQuotedExample()
    ensures DoublyQuoted("\"[x]\"")
  {
    hide Lower;
    var alias, name := "\"[x]\"", "[x]";
    assert alias[1..|alias| - 1] == name && name[1..|name| - 1] == "x";
    assert Lower(name) == name && Lower("x") == "x";
    assert |Lower(MAIN_DB_NAME)| == 4 && |Lower(TEMP_DB_NAME)| == 4 && |Lower(TEMP_DB_NAME_ALT)| == 11;
  }

  /** Otherwise an accepted alias is new. */
  lemma AcceptedIsNew(slots: Slots, alias: string, j: nat)
    requires WellFormed(slots) && !DoublyQuoted(alias)
    requires Normalize(alias).Some? && DbIndexByName(slots, Normalize(alias).value).Missing?
    requires 2 <= j && Live(slots, j)
    ensures slots[j].value.name != Normalize(alias).value
  {
    hide Normalize, Lower;
    var name := Normalize(alias).value;
    assert Normalize(name) == Some(name);
    PositionFinds(slots, name, 0);
    assert SlotFits(slots[j], j) && !IsAttachedAs(slots[j], name);
  }

  lemma AttachKeepsDistinct(slots: Slots, autoCommit: bool, alias: string, opening: Opening)
    requires WellFormed(slots) && DistinctNames(slots) && !DoublyQuoted(alias)
    ensures DistinctNames(Attach(slots, autoCommit, alias, opening).0)
  {
    hide Normalize, EqIgnoreCase, DbIndexByName, DoublyQuoted, WellFormed;
    var (after, outcome) := Attach(slots, autoCommit, alias, opening);
    if outcome.Done? {
      AttachFillsOneSlot(slots, autoCommit, alias, opening);
      forall j | 2 <= j && Live(slots, j) ensures slots[j].value.name != Normalize(alias).value {
        AcceptedIsNew(slots, alias, j);
      }
    }
  }

  /** A connection whose only attached database already has the stored name. */
  function AttachedOnce(name: string): Slots {
    [None, None, Some(Fresh(name, Attached, map[], 2))]
  }

  lemma DoublyQuotedAttachesTwice(alias: string)
    requires DoublyQuoted(alias)
    ensures var name := Normalize(alias).value;
            && WellFormed(AttachedOnce(name)) && DistinctNames(AttachedOnce(name))
            && !DistinctNames(Attach(AttachedOnce(name), true, alias, Opens(map[])).0)
  {
    hide Lower, EqIgnoreCase;
    var name := Normalize(alias).value;
    var inner := Normalize(name).value;
    NormalizedIsLower(alias);
    NormalizedIsLower(name);
    QuotedIsUnreserved(name);
    var slots := AttachedOnce(name);
    RetagTags(map[], 2);
    NotReservedMeans(name, inner);
    PositionFinds(slots, inner, 0);
    assert DbIndexByName(slots, name).Missing?;
    assert CountLive(slots[2..]) == 1;
    var after := Attach(slots, true, alias, Opens(map[])).0;
    assert |after| == 4 && after[2].value.name == after[3].value.name;
  }

  lemma NotReservedMeans(name: string, inner: string)
    requires Lower(name) == name && Lower(inner) == inner && inner != name && !Reserved(inner) && !Reserved(name)
    ensures !EqIgnoreCase(name, inner)
    ensures !EqIgnoreCase(name, MAIN_DB_NAME) && !EqIgnoreCase(name, TEMP_DB_NAME)
    ensures !EqIgnoreCase(inner, MAIN_DB_NAME) && !EqIgnoreCase(inner, TEMP_DB_NAME)
    ensures !EqIgnoreCase(inner, TEMP_DB_NAME_ALT)
  {
  }

  lemma QuotedIsUnreserved(name: string)
    requires Normalize(name).Some? && Normalize(name).value != name && Lower(name) == name
    ensures !Reserved(name)
  {
    hide Lower;
    assert Lower(MAIN_DB_NAME)[0] == 'm' && Lower(TEMP_DB_NAME)[0] == 't' && Lower(TEMP_DB_NAME_ALT)[0] == 's';
    assert name[0] in {'"', '[', '`'};
  }

  /** Attaching keeps names distinct in every registry exactly when the alias is not
      doubly quoted. */
  lemma AttachKeepsDistinctIff(alias: string)
    ensures !DoublyQuoted(alias) <==>
            forall slots: Slots, autoCommit: bool, opening: Opening :: WellFormed(slots) && DistinctNames(slots) ==>
              DistinctNames(Attach(slots, autoCommit, alias, opening).0)
  {
    if DoublyQuoted(alias) {
      DoublyQuotedAttachesTwice(alias);
    } else {
      forall slots: Slots, autoCommit: bool, opening: Opening | WellFormed(slots) && DistinctNames(slots)
        ensures DistinctNames(Attach(slots, autoCommit, alias, opening).0)
      {
        AttachKeepsDistinct(slots, autoCommit, alias, opening);
      }
    }
  }

  /** Looking up the name of a live attached slot finds that slot exactly when the
      name is not itself quoted. */
  lemma NameIndexInverseIff(slots: Slots, i: nat)
    requires WellFormed(slots) && DistinctNames(slots) && i >= 2 && Live(slots, i)
    ensures DbIndexByName(slots, DbNameForIndex(slots, i).value) == At(i)
            <==> Normalize(slots[i].value.name) == Some(slots[i].value.name)
  {
    hide Normalize, Lower;
    var name := slots[i].value.name;
    assert SlotFits(slots[i], i);
    if Normalize(name).Some? {
      var n := Normalize(name).value;
      NormalizedIsLower(name);
      PositionFinds(slots, n, 0);
      forall j | 0 <= j < |slots| && IsAttachedAs(slots[j], n) ensures slots[j].value.name == n && j >= 2 {
        assert SlotFits(slots[j], j);
      }
    }
  }

  // ---- detach

  /** A lone quote character, which cannot be stripped. */
  predicate LoneQuote(id: string) { id == "\"" || id == "`" }

  lemma NormalizeFailsIff(id: string)
    ensures Normalize(id).None? <==> LoneQuote(id)
  {
    hide Lower;
  }

  /** A lone quote, by itself or within quotes. */
  predicate StripsToNothing(alias: string) {
    LoneQuote(alias) || (|alias| == 3 && Quoted(alias) && LoneQuote(alias[1..2]))
  }

  lemma LookupFailsIff(alias: string)
    ensures LookedUp(alias).None? <==> StripsToNothing(alias)
  {
    hide Lower;
    NormalizeFailsIff(alias);
    if Normalize(alias).Some? {
      var name := Normalize(alias).value;
      NormalizeFailsIff(name);
      var inner := if Quoted(alias) then alias[1..|alias| - 1] else alias;
      assert name == Lower(inner) && |name| == |inner|;
      if |name| == 1 {
        assert name[0] == LowerChar(inner[0]);
        assert LoneQuote(name) <==> LoneQuote(inner);
        if Quoted(alias) { assert alias[1..2] == inner; }
      }
    }
  }

  /** Attach panics exactly on a lone quote. */
  lemma AttachPanicsIff(slots: Slots, autoCommit: bool, alias: string, opening: Opening)
    ensures Attach(slots, autoCommit, alias, opening).1 == Panicked <==> StripsToNothing(alias)
  {
    hide Normalize, EqIgnoreCase, Position, StripsToNothing;
    LookupFailsIff(alias);
    if NamesMainOrTemp(alias) { ReservedIsPlain(alias); }
  }

  lemma ReservedIsPlain(alias: string)
    requires NamesMainOrTemp(alias)
    ensures LookedUp(alias).Some?
  {
    hide Lower;
    var name := Normalize(alias).value;
    NormalizeFailsIff(name);
    assert |Lower(name)| == |name| && |Lower(MAIN_DB_NAME)| == 4 && |Lower(TEMP_DB_NAME)| == 4;
  }

  /** The slot vector is too short for the slot the alias stands for. */
  predicate OutOfBounds(slots: Slots, alias: string) {
    && !NamesMainOrTemp(alias) && LookedUp(alias).Some?
    && var name := LookedUp(alias).value;
       if EqIgnoreCase(name, MAIN_DB_NAME) then |slots| == 0
       else (EqIgnoreCase(name, TEMP_DB_NAME) || EqIgnoreCase(name, TEMP_DB_NAME_ALT)) && |slots| <= 1
  }

  predicate DetachPanics(slots: Slots, autoCommit: bool, alias: string) {
    StripsToNothing(alias) || (autoCommit && OutOfBounds(slots, alias))
  }

  /** Detach panics exactly on a lone quote or, in autocommit mode, on a second name of main or
      temp while their slots do not exist. */
  lemma DetachPanicsIff(slots: Slots, autoCommit: bool, alias: string)
    ensures Detach(slots, autoCommit, alias).1 == Panicked <==> DetachPanics(slots, autoCommit, alias)
  {
    hide Normalize, EqIgnoreCase, StripsToNothing;
    LookupFailsIff(alias);
    if NamesMainOrTemp(alias) { ReservedIsPlain(alias); }
    if LookedUp(alias).Some? { PositionFinds(slots, LookedUp(alias).value, 0); }
  }

  lemma FreshDetachExample()
    ensures Detach([], true, "sqlite_temp").1 == Panicked
  {
    hide Lower, Normalize, EqIgnoreCase, DbIndexByName;
    AltNamesTemp([]);
  }

  /** `sqlite_temp` passes the check of reserved names and is looked up as temp. */
  lemma AltNamesTemp(slots: Slots)
    ensures var name := Normalize("sqlite_temp");
            && name.Some? && DbIndexByName(slots, name.value) == At(DB_TEMP)
            && !EqIgnoreCase(name.value, MAIN_DB_NAME) && !EqIgnoreCase(name.value, TEMP_DB_NAME)
  {
    hide Lower, Normalize;
    var alias := "sqlite_temp";
    AltIsUnquoted(alias);
    AltIsUnquoted(Lower(alias));
    LowerIdempotent(alias);
    assert |Lower(alias)| == 11 && |Lower(Lower(alias))| == 11 && |Lower(MAIN_DB_NAME)| == 4 && |Lower(TEMP_DB_NAME)| == 4;
  }

  /** The alias names a database with an open transaction. */
  predicate NamesOpenDatabase(slots: Slots, alias: string) {
    && Normalize(alias).Some?
    && (var name := Normalize(alias).value;
        var found := DbIndexByName(slots, name);
        && !EqIgnoreCase(name, MAIN_DB_NAME) && !EqIgnoreCase(name, TEMP_DB_NAME)
        && found.At? && Live(slots, found.index) && !slots[found.index].value.txn.NoTxn?)
  }

  /** A detach either succeeds or fails and leaves the registry alone, unless it panics or, in
      autocommit mode, the database has an open transaction: then it is dropped and the call
      still fails. */
  lemma DetachAllOrNothingIff(slots: Slots, autoCommit: bool, alias: string)
    ensures var (after, outcome) := Detach(slots, autoCommit, alias);
            (outcome.Done? || (after == slots && outcome != Panicked)) <==>
            !(autoCommit && NamesOpenDatabase(slots, alias)) && !DetachPanics(slots, autoCommit, alias)
  {
    hide Normalize, EqIgnoreCase, DbIndexByName, DetachPanics;
    DetachPanicsIff(slots, autoCommit, alias);
    var (after, outcome) := Detach(slots, autoCommit, alias);
    if outcome == Locked {
      var i := DbIndexByName(slots, Normalize(alias).value).index;
      assert after[i] != slots[i];
    }
  }

  /** `temp` is dropped by a detach exactly when it is named by the alias `sqlite_temp`,
      or through a second layer of quotes, outside a transaction. */
  lemma DetachDropsTempIff(slots: Slots, autoCommit: bool, alias: string)
    requires WellFormed(slots) && Live(slots, DB_TEMP)
    ensures !Live(Detach(slots, autoCommit, alias).0, DB_TEMP) <==>
            && autoCommit && Normalize(alias).Some?
            && !EqIgnoreCase(Normalize(alias).value, TEMP_DB_NAME) && !EqIgnoreCase(Normalize(alias).value, MAIN_DB_NAME)
            && Normalize(Normalize(alias).value).Some?
            && (var inner := Normalize(Normalize(alias).value).value;
                EqIgnoreCase(inner, TEMP_DB_NAME) || EqIgnoreCase(inner, TEMP_DB_NAME_ALT))
  {
    hide Normalize, Lower;
    if Normalize(alias).Some? && Normalize(Normalize(alias).value).Some? {
      PositionFinds(slots, Normalize(Normalize(alias).value).value, 0);
      MainIsNotTemp(Normalize(Normalize(alias).value).value);
    }
  }

  lemma MainIsNotTemp(name: string)
    ensures EqIgnoreCase(name, MAIN_DB_NAME) ==>
            !EqIgnoreCase(name, TEMP_DB_NAME) && !EqIgnoreCase(name, TEMP_DB_NAME_ALT)
  {
    hide Lower;
    assert Lower(MAIN_DB_NAME)[0] == 'm' && Lower(TEMP_DB_NAME)[0] == 't' && Lower(TEMP_DB_NAME_ALT)[0] == 's';
  }

  // ---- detaches that go wrong

  predicate OneLetter(name: string) { |name| == 1 && 'a' <= name[0] <= 'z' }

  lemma OneLetterIsPlain(name: string)
    requires OneLetter(name)
    ensures Normalize(name) == Some(name) && Lower(name) == name && !Reserved(name)
  {
    hide Lower;
    assert Lower(name) == name;
    assert |Lower(name)| == 1 && |Lower(MAIN_DB_NAME)| == 4 && |Lower(TEMP_DB_NAME)| == 4 && |Lower(TEMP_DB_NAME_ALT)| == 11;
  }

  lemma DetachLetter(slots: Slots, name: string, i: nat)
    requires WellFormed(slots) && DistinctNames(slots) && OneLetter(name) && i >= 2 && Live(slots, i)
    requires slots[i].value.name == name
    ensures Detach(slots, true, name) == (slots[i := None], if slots[i].value.txn.NoTxn? then Done(i) else Locked)
  {
    hide Normalize, Lower, DbIndexByName, WellFormed, DistinctNames;
    OneLetterIsPlain(name);
    NameIndexInverseIff(slots, i);
  }

  /** DETACH of a database with an open transaction: refused, and gone. */
  lemma LockedDetachExample(aux: AuxDb)
    requires SlotFits(Some(aux), 2) && aux.name == "a" && !aux.txn.NoTxn?
    ensures Detach([None, None, Some(aux)], true, "a") == ([None, None, None], Locked)
  {
    hide Detach, SlotFits, DistinctNames;
    var slots: Slots := [None, None, Some(aux)];
    OneAttachedFits(aux);
    DetachLetter(slots, "a", 2);
    assert slots[2 := None] == [None, None, None];
  }

  lemma OneAttachedFits(aux: AuxDb)
    requires SlotFits(Some(aux), 2)
    ensures WellFormed([None, None, Some(aux)]) && DistinctNames([None, None, Some(aux)])
  {
    hide Lower, Reserved, Tagged;
  }

  /** DETACH sqlite_temp drops temp. */
  lemma DetachTempExample(aux: AuxDb)
    requires SlotFits(Some(aux), DB_TEMP) && aux.txn.NoTxn?
    ensures Detach([None, Some(aux)], true, "sqlite_temp") == ([None, None], Done(DB_TEMP))
  {
    hide Lower, Normalize, EqIgnoreCase, DbIndexByName, SlotFits;
    var slots: Slots := [None, Some(aux)];
    AltNamesTemp(slots);
    assert slots[DB_TEMP := None] == [None, None];
  }

  // ---- every run

  datatype Op =
    | DoEnsureTemp(opening: Opening)
    | DoAttach(alias: string, opening: Opening)
    | DoDetach(alias: string)
    | SetAutoCommit(on: bool)

  function Step(slots: Slots, autoCommit: bool, op: Op): (Slots, bool) {
    match op
    case DoEnsureTemp(opening) => (EnsureTemp(slots, opening).0, autoCommit)
    case DoAttach(alias, opening) => (Attach(slots, autoCommit, alias, opening).0, autoCommit)
    case DoDetach(alias) => (Detach(slots, autoCommit, alias).0, autoCommit)
    case SetAutoCommit(on) => (slots, on)
  }

  function Run(slots: Slots, autoCommit: bool, ops: seq<Op>): Slots
    decreases ops
  {
    if ops == [] then slots else
      var (next, auto) := Step(slots, autoCommit, ops[0]);
      Run(next, auto, ops[1..])
  }

  ghost predicate NoDoubleQuotes(ops: seq<Op>) {
    forall op :: op in ops && op.DoAttach? ==> !DoublyQuoted(op.alias)
  }

  lemma StepKeeps(slots: Slots, autoCommit: bool, op: Op)
    requires WellFormed(slots)
    ensures WellFormed(Step(slots, autoCommit, op).0)
    ensures DistinctNames(slots) && NoDoubleQuotes([op]) ==> DistinctNames(Step(slots, autoCommit, op).0)
  {
    hide WellFormed, DistinctNames, DoublyQuoted, Attach, Detach, EnsureTemp;
    match op {
      case DoEnsureTemp(opening) => EnsureTempKeeps(slots, opening);
      case DoAttach(alias, opening) =>
        AttachKeepsForm(slots, autoCommit, alias, opening);
        assert op in [op];
        if DistinctNames(slots) && !DoublyQuoted(alias) { AttachKeepsDistinct(slots, autoCommit, alias, opening); }
      case DoDetach(alias) => DetachKeeps(slots, autoCommit, alias);
      case SetAutoCommit(_) =>
    }
  }

  /** Every run keeps the registry well formed, and with no doubly quoted alias it
      keeps the attached names distinct. */
  lemma {:induction false} RunKeeps(slots: Slots, autoCommit: bool, ops: seq<Op>)
    requires WellFormed(slots)
    ensures WellFormed(Run(slots, autoCommit, ops))
    ensures DistinctNames(slots) && NoDoubleQuotes(ops) ==> DistinctNames(Run(slots, autoCommit, ops))
    decreases ops
  {
    hide WellFormed, DistinctNames, DoublyQuoted, Step;
    if ops != [] {
      StepKeeps(slots, autoCommit, ops[0]);
      var (next, auto) := Step(slots, autoCommit, ops[0]);
      RunKeeps(next, auto, ops[1..]);
    }
  }
}
