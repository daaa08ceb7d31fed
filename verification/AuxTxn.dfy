/** Transactions on the auxiliary databases: what the registry records and what
    locks the pagers really hold. */
module AuxTxn {
  import opened Wrappers
  import opened MultiDb

  // ---- the pager, as far as locks go

  datatype Reply = Granted | Busy | Broken

  /** Take one more shared lock, if the log grants it. */
  function BeginRead(p: Pager, reply: Reply): Pager {
    if reply.Granted? then p.(readLocks := p.readLocks + 1) else p
  }

  /** The write lock is exclusive: whoever holds it, asking again is answered busy. */
  function WriteReply(p: Pager, reply: Reply): Reply {
    if p.writeLock && reply.Granted? then Busy else reply
  }

  function BeginWrite(p: Pager, reply: Reply): Pager {
    if WriteReply(p, reply).Granted? then p.(writeLock := true) else p
  }

  function Unshared(p: Pager): Pager {
    p.(readLocks := if p.readLocks > 0 then p.readLocks - 1 else 0)
  }

  /** Rolling back prunes the page cache and the log; it releases no lock. */
  function RollBack(p: Pager): Pager { p }

  // ---- the registry's operations

  datatype Answer = Proceed | Yield | Error

  function SlotAt(slots: Slots, db: nat): Option<AuxDb> {
    if db < |slots| then slots[db] else None
  }

  function WithRead(aux: AuxDb, reply: Reply): AuxDb {
    if !aux.txn.NoTxn? then aux
    else aux.(pager := BeginRead(aux.pager, reply), txn := if reply.Granted? then Read else NoTxn)
  }

  function WithWrite(aux: AuxDb, reply: Reply): AuxDb {
    if aux.txn.Write? then aux
    else aux.(pager := BeginWrite(aux.pager, reply), txn := if WriteReply(aux.pager, reply).Granted? then Write else aux.txn)
  }

  function AnswerTo(reply: Reply): Answer {
    match reply
    case Granted => Proceed
    case Busy => Yield
    case Broken => Error
  }

  /** Open a read and, when asked, a write transaction on one database; `first` and
      `second` are the log's answers. */
  function BeginOn(aux: AuxDb, write: bool, first: Reply, second: Reply): (AuxDb, Answer) {
    if aux.txn.NoTxn? && !first.Granted? then (aux, AnswerTo(first))
    else
      var reading := WithRead(aux, first);
      if !write || reading.txn.Write? then (reading, Proceed)
      else (WithWrite(reading, second), AnswerTo(WriteReply(reading.pager, second)))
  }

  function Begin(slots: Slots, db: nat, write: bool, first: Reply, second: Reply): (Slots, Answer) {
    if db == DB_MAIN then (slots, Proceed) else
      match SlotAt(slots, db)
      case None => (slots, Error)
      case Some(aux) =>
        var (after, answer) := BeginOn(aux, write, first, second);
        (slots[db := Some(after)], answer)
  }

  datatype Flush = FlushDone | FlushIo | FlushBroken

  datatype AuxTxnEnd = EndDone | EndIo | EndBroken

  /** Release what a transaction holds. */
  function Released(aux: AuxDb): AuxDb {
    match aux.txn
    case Write => aux.(txn := NoTxn, pager := Unshared(aux.pager.(writeLock := false)))
    case Read => aux.(txn := NoTxn, pager := Unshared(aux.pager))
    case NoTxn => aux
  }

  function StepEndOn(aux: AuxDb, flush: Flush): (AuxDb, AuxTxnEnd) {
    if aux.txn.Write? && flush.FlushIo? then (aux, EndIo)
    else if aux.txn.Write? && flush.FlushBroken? then (aux, EndBroken)
    else (Released(aux), EndDone)
  }

  function StepEnd(slots: Slots, db: nat, flush: Flush): (Slots, AuxTxnEnd) {
    match SlotAt(slots, db)
    case None => (slots, EndDone)
    case Some(aux) =>
      var (after, end) := StepEndOn(aux, flush);
      (slots[db := Some(after)], end)
  }

  function RolledBack(aux: AuxDb): AuxDb {
    if aux.txn.NoTxn? then aux else aux.(pager := RollBack(aux.pager), txn := NoTxn)
  }

  function RollbackAll(slots: Slots): Slots {
    seq(|slots|, i requires 0 <= i < |slots| =>
      if slots[i].Some? then Some(RolledBack(slots[i].value)) else None)
  }

  // ---- the commit walk

  predicate IsOpen(slot: Option<AuxDb>) { slot.Some? && !slot.value.txn.NoTxn? }

  /** The databases with an open transaction, from `i` on, in slot order. */
  function OpenFrom(slots: Slots, i: nat): (r: seq<nat>)
    ensures forall d :: d in r ==> i <= d < |slots| && IsOpen(slots[d])
    decreases |slots| - i
  {
    if i >= |slots| then []
    else if IsOpen(slots[i]) then [i] + OpenFrom(slots, i + 1)
    else OpenFrom(slots, i + 1)
  }

  lemma {:induction false} OpenFromHasAll(slots: Slots, i: nat)
    ensures forall d :: i <= d < |slots| && IsOpen(slots[d]) ==> d in OpenFrom(slots, i)
    decreases |slots| - i
  {
    hide IsOpen;
    if i < |slots| { OpenFromHasAll(slots, i + 1); }
  }

  lemma {:induction false} OpenFromAscends(slots: Slots, i: nat)
    ensures forall j, k :: 0 <= j < k < |OpenFrom(slots, i)| ==> OpenFrom(slots, i)[j] < OpenFrom(slots, i)[k]
    decreases |slots| - i
  {
    hide IsOpen;
    if i < |slots| {
      OpenFromAscends(slots, i + 1);
      var rest := OpenFrom(slots, i + 1);
      assert forall j :: 0 <= j < |rest| ==> rest[j] in rest;
    }
  }

  lemma OpenFromIsExact(slots: Slots, i: nat)
    ensures forall d :: i <= d < |slots| && IsOpen(slots[d]) ==> d in OpenFrom(slots, i)
    ensures forall j, k :: 0 <= j < k < |OpenFrom(slots, i)| ==> OpenFrom(slots, i)[j] < OpenFrom(slots, i)[k]
  {
    hide IsOpen, OpenFrom;
    OpenFromHasAll(slots, i);
    OpenFromAscends(slots, i);
  }

  function ReleasedSlot(slot: Option<AuxDb>, i: nat): Option<AuxDb> {
    if i >= 1 && IsOpen(slot) then Some(Released(slot.value)) else slot
  }

  /** Every open transaction of an auxiliary slot released, nothing else changed. */
  function AllReleased(slots: Slots): (r: Slots)
    ensures |r| == |slots| && forall i :: 0 <= i < |slots| ==> r[i] == ReleasedSlot(slots[i], i)
  {
    seq(|slots|, i requires 0 <= i < |slots| => ReleasedSlot(slots[i], i))
  }

  function Total(rounds: seq<nat>): nat {
    if rounds == [] then 0 else rounds[0] + Total(rounds[1..])
  }

  lemma {:induction false} TotalDrops(rounds: seq<nat>, i: nat)
    requires i < |rounds| && rounds[i] > 0
    ensures Total(rounds[i := rounds[i] - 1]) == Total(rounds) - 1
    decreases rounds
  {
    if i == 0 {
      assert rounds[0 := rounds[0] - 1][1..] == rounds[1..];
    } else {
      TotalDrops(rounds[1..], i - 1);
      assert rounds[i := rounds[i] - 1][1..] == rounds[1..][i - 1 := rounds[1..][i - 1] - 1];
    }
  }

  datatype CommitStep = CommitDone | CommitIo | CommitFailed

  /** A write transaction whose flush fails in the end. */
  predicate Breaks(slots: Slots, fails: seq<bool>, i: nat) {
    i < |slots| && i < |fails| && fails[i] && slots[i].Some? && slots[i].value.txn.Write?
  }

  /** The auxiliary databases of a connection and one statement's commit position.
      `rounds[i]` is how often the flush of database `i` still answers that it needs
      more I/O, `fails[i]` whether it then fails. */
  class AuxTransactions {
    var auxDbs: Slots
    var rounds: seq<nat>
    const fails: seq<bool>
    var commitAuxIdx: nat
    ghost var atStart: Slots        // the slots when the running commit began
    ghost var finished: seq<nat>    // the databases it has ended, in order

    constructor (slots: Slots, rounds: seq<nat>, fails: seq<bool>)
      ensures auxDbs == slots && this.rounds == rounds && this.fails == fails && commitAuxIdx == DB_TEMP
    {
      auxDbs, this.rounds, this.fails, commitAuxIdx := slots, rounds, fails, DB_TEMP;
      atStart, finished := slots, [];
    }

    method BeginAuxTxn(db: nat, write: bool, first: Reply, second: Reply) returns (answer: Answer)
      modifies this`auxDbs
      ensures (auxDbs, answer) == Begin(old(auxDbs), db, write, first, second)
    {
      if db == DB_MAIN { return Proceed; }
      if db >= |auxDbs| || auxDbs[db].None? { return Error; }
      var aux := auxDbs[db].value;
      assert auxDbs[db := Some(aux)] == auxDbs;
      if aux.txn.NoTxn? {
        if !first.Granted? { return AnswerTo(first); }
        aux := aux.(pager := BeginRead(aux.pager, first), txn := Read);
        auxDbs := auxDbs[db := Some(aux)];
      }
      if write && !aux.txn.Write? {
        var reply := WriteReply(aux.pager, second);
        if !reply.Granted? { return AnswerTo(reply); }
        aux := aux.(pager := BeginWrite(aux.pager, second), txn := Write);
        auxDbs := auxDbs[db := Some(aux)];
      }
      assert auxDbs == old(auxDbs)[db := Some(aux)];
      return Proceed;
    }

    method RollbackAuxTxns()
      modifies this`auxDbs
      ensures auxDbs == RollbackAll(old(auxDbs))
    {
      for i := 0 to |auxDbs|
        invariant |auxDbs| == |old(auxDbs)|
        invariant forall j :: 0 <= j < |auxDbs| ==>
                    auxDbs[j] == if j < i then RollbackAll(old(auxDbs))[j] else old(auxDbs)[j]
      {
        if auxDbs[i].Some? && !auxDbs[i].value.txn.NoTxn? {
          var aux := auxDbs[i].value;
          auxDbs := auxDbs[i := Some(aux.(pager := RollBack(aux.pager), txn := NoTxn))];
        }
      }
    }

    /** Databases before the position are released, the others as at the start. */
    ghost predicate Walking()
      reads this
    {
      && |rounds| == |fails| == |auxDbs| == |atStart| && commitAuxIdx >= 1
      && (forall i :: 0 <= i < |auxDbs| ==>
            auxDbs[i] == if i < commitAuxIdx then AllReleased(atStart)[i] else atStart[i])
      && finished + OpenFrom(atStart, commitAuxIdx) == OpenFrom(atStart, 1)
      && (forall i :: 1 <= i < commitAuxIdx ==> !Breaks(atStart, fails, i))
    }

    method NextAuxDbWithTxn(from: nat) returns (r: Option<nat>)
      ensures r == if OpenFrom(auxDbs, if from > 1 then from else 1) == [] then None
                   else Some(OpenFrom(auxDbs, if from > 1 then from else 1)[0])
    {
      var i := if from > 1 then from else 1;
      while i < |auxDbs|
        invariant OpenFrom(auxDbs, i) == OpenFrom(auxDbs, if from > 1 then from else 1)
      {
        if IsOpen(auxDbs[i]) { return Some(i); }
        i := i + 1;
      }
      return None;
    }

    method StepEndAuxTxn(db: nat, flush: Flush) returns (end: AuxTxnEnd)
      modifies this`auxDbs
      ensures (auxDbs, end) == StepEnd(old(auxDbs), db, flush)
    {
      if db >= |auxDbs| || auxDbs[db].None? { return EndDone; }
      var aux := auxDbs[db].value;
      assert auxDbs[db := Some(aux)] == auxDbs;
      match aux.txn {
        case Write =>
          if flush.FlushIo? { return EndIo; }
          if flush.FlushBroken? { return EndBroken; }
          auxDbs := auxDbs[db := Some(aux.(txn := NoTxn, pager := Unshared(aux.pager.(writeLock := false))))];
        case Read =>
          auxDbs := auxDbs[db := Some(aux.(txn := NoTxn, pager := Unshared(aux.pager)))];
        case NoTxn =>
      }
      return EndDone;
    }

    /** Ends the transaction of the next open database. */
    method CommitOne(idx: nat) returns (end: AuxTxnEnd)
      requires Walking()
      requires OpenFrom(auxDbs, commitAuxIdx) != [] && idx == OpenFrom(auxDbs, commitAuxIdx)[0]
      modifies this`auxDbs, this`rounds, this`commitAuxIdx, this`finished
      ensures Walking() && old(commitAuxIdx) <= idx < |auxDbs| && |auxDbs| == old(|auxDbs|)
      ensures end.EndIo? ==> Total(rounds) < old(Total(rounds)) && commitAuxIdx == idx
      ensures end.EndBroken? ==> commitAuxIdx == idx && Breaks(atStart, fails, idx)
      ensures end.EndDone? ==> rounds == old(rounds) && commitAuxIdx == idx + 1
    {
      hide AllReleased, Total, Released, OpenFrom, StepEnd;
      OpenAgree(auxDbs, atStart, commitAuxIdx);
      OpenHead(atStart, commitAuxIdx, idx);
      commitAuxIdx := idx;
      assert Walking();
      EndOfOpen(auxDbs, idx, if rounds[idx] > 0 then FlushIo else if fails[idx] then FlushBroken else FlushDone);
      end := StepEndAuxTxn(idx, if rounds[idx] > 0 then FlushIo else if fails[idx] then FlushBroken else FlushDone);
      if end.EndDone? {
        commitAuxIdx, finished := idx + 1, finished + [idx];
      } else {
        if end.EndIo? {
          TotalDrops(rounds, idx);
          rounds := rounds[idx := rounds[idx] - 1];
        }
      }
    }

    /** One call of the commit step: walk on until a flush needs I/O, one fails or all is done. */
    method CommitAuxDbs() returns (r: CommitStep)
      requires Walking()
      modifies this`auxDbs, this`rounds, this`commitAuxIdx, this`finished
      ensures r.CommitIo? ==> Walking() && Total(rounds) < old(Total(rounds))
      ensures r.CommitFailed? ==> Walking() && Breaks(atStart, fails, commitAuxIdx)
      ensures r.CommitDone? ==> auxDbs == AllReleased(atStart) && finished == OpenFrom(atStart, 1) && commitAuxIdx == DB_TEMP
      ensures r.CommitDone? ==> forall i :: i >= 1 ==> !Breaks(atStart, fails, i)
    {
      hide AllReleased, Total, StepEnd, Released, OpenFrom, Breaks;
      var next := NextAuxDbWithTxn(commitAuxIdx);
      while next.Some?
        invariant Walking() && rounds == old(rounds)
        invariant next == if OpenFrom(auxDbs, commitAuxIdx) == [] then None else Some(OpenFrom(auxDbs, commitAuxIdx)[0])
        decreases |auxDbs| - commitAuxIdx
      {
        var end := CommitOne(next.value);
        if end.EndIo? { return CommitIo; }
        if end.EndBroken? { return CommitFailed; }
        next := NextAuxDbWithTxn(commitAuxIdx);
      }
      OpenAgree(auxDbs, atStart, commitAuxIdx);
      WalkEnds(auxDbs, atStart, commitAuxIdx);
      NoneBreaks(atStart, fails, commitAuxIdx);
      commitAuxIdx := DB_TEMP;
      return CommitDone;
    }

    /** The whole commit, called again after each I/O: it ends. If no flush fails, every
        auxiliary transaction is released, each exactly once, in slot order. Otherwise it stops
        at the first that fails, with those before it released and the others untouched. */
    method RunCommit() returns (done: bool)
      requires |rounds| == |fails| == |auxDbs| && commitAuxIdx == DB_TEMP
      modifies this
      ensures done <==> forall i :: i >= 1 ==> !Breaks(old(auxDbs), fails, i)
      ensures done ==> auxDbs == AllReleased(old(auxDbs)) && finished == OpenFrom(old(auxDbs), 1) && commitAuxIdx == DB_TEMP
      ensures !done ==>
                && Breaks(old(auxDbs), fails, commitAuxIdx) && commitAuxIdx >= 1
                && (forall i :: 1 <= i < commitAuxIdx ==> !Breaks(old(auxDbs), fails, i))
                && finished + OpenFrom(old(auxDbs), commitAuxIdx) == OpenFrom(old(auxDbs), 1)
                && |auxDbs| == old(|auxDbs|)
                && forall i :: 0 <= i < |auxDbs| ==>
                     auxDbs[i] == if i < commitAuxIdx then AllReleased(old(auxDbs))[i] else old(auxDbs)[i]
    {
      hide AllReleased, OpenFrom, Breaks;
      atStart, finished := auxDbs, [];
      NothingReleased(auxDbs);
      var r := CommitAuxDbs();
      while r.CommitIo?
        invariant atStart == old(auxDbs)
        invariant !r.CommitDone? ==> Walking()
        invariant r.CommitFailed? ==> Breaks(atStart, fails, commitAuxIdx)
        invariant r.CommitDone? ==> auxDbs == AllReleased(atStart) && finished == OpenFrom(atStart, 1) && commitAuxIdx == DB_TEMP
        invariant r.CommitDone? ==> forall i :: i >= 1 ==> !Breaks(atStart, fails, i)
        decreases if r.CommitIo? then 1 + Total(rounds) else 0
      {
        r := CommitAuxDbs();
      }
      done := r.CommitDone?;
    }
  }

  lemma EndOfOpen(slots: Slots, db: nat, flush: Flush)
    requires db < |slots| && IsOpen(slots[db])
    ensures var (after, end) := StepEnd(slots, db, flush);
            && (end.EndDone? ==> after == slots[db := Some(Released(slots[db].value))] && !(slots[db].value.txn.Write? && !flush.FlushDone?))
            && (end.EndIo? ==> after == slots && flush.FlushIo?)
            && (end.EndBroken? ==> after == slots && flush.FlushBroken? && slots[db].value.txn.Write?)
  {
    assert slots[db := Some(slots[db].value)] == slots;
  }

  lemma NothingReleased(slots: Slots)
    ensures |slots| > 0 ==> AllReleased(slots)[0] == slots[0]
    ensures [] + OpenFrom(slots, 1) == OpenFrom(slots, 1)
  {
  }

  lemma {:induction false} NoneBreaks(slots: Slots, fails: seq<bool>, k: nat)
    requires OpenFrom(slots, k) == [] && forall i :: 1 <= i < k ==> !Breaks(slots, fails, i)
    ensures forall i :: i >= 1 ==> !Breaks(slots, fails, i)
  {
    OpenFromIsExact(slots, k);
  }

  lemma {:induction false} OpenAgree(a: Slots, b: Slots, k: nat)
    requires |a| == |b| && forall i :: k <= i < |a| ==> a[i] == b[i]
    ensures OpenFrom(a, k) == OpenFrom(b, k)
    decreases |a| - k
  {
    if k < |a| { OpenAgree(a, b, k + 1); }
  }

  lemma {:induction false} OpenHead(slots: Slots, k: nat, idx: nat)
    requires OpenFrom(slots, k) != [] && OpenFrom(slots, k)[0] == idx
    ensures k <= idx < |slots| && IsOpen(slots[idx]) && forall i :: k <= i < idx ==> !IsOpen(slots[i])
    ensures OpenFrom(slots, k) == OpenFrom(slots, idx) == [idx] + OpenFrom(slots, idx + 1)
    decreases |slots| - k
  {
    if !IsOpen(slots[k]) { OpenHead(slots, k + 1, idx); }
  }

  lemma WalkEnds(slots: Slots, atStart: Slots, k: nat)
    requires |slots| == |atStart| && k >= 1 && OpenFrom(atStart, k) == []
    requires forall i :: 0 <= i < |slots| ==> slots[i] == if i < k then AllReleased(atStart)[i] else atStart[i]
    ensures slots == AllReleased(atStart)
  {
    OpenFromIsExact(atStart, k);
  }

  lemma {:induction false} NoneOpen(slots: Slots, i: nat)
    requires forall d :: i <= d < |slots| ==> !IsOpen(slots[d])
    ensures OpenFrom(slots, i) == []
    decreases |slots| - i
  {
    if i < |slots| { NoneOpen(slots, i + 1); }
  }

  /** Releasing closes every auxiliary transaction; the other slots stay as they are. */
  lemma ReleasedMeansClosed(slots: Slots)
    ensures OpenFrom(AllReleased(slots), 1) == []
    ensures forall i :: 0 <= i < |slots| && i !in OpenFrom(slots, 1) ==> AllReleased(slots)[i] == slots[i]
  {
    OpenFromIsExact(slots, 1);
    hide OpenFrom, AllReleased;
    NoneOpen(AllReleased(slots), 1);
  }

  // ---- recorded state against locks held

  /** The recorded state says exactly which locks the pager holds. */
  predicate Truthful(aux: AuxDb) {
    match aux.txn
    case NoTxn => aux.pager == Pager(0, false)
    case Read => aux.pager == Pager(1, false)
    case Write => aux.pager == Pager(1, true)
  }

  ghost predicate AllTruthful(slots: Slots) {
    forall i :: 0 <= i < |slots| && slots[i].Some? ==> Truthful(slots[i].value)
  }

  predicate AtLeast(a: TxnState, b: TxnState) {
    a == b || b.NoTxn? || a.Write?
  }

  /** After a commit of truthful databases no auxiliary pager holds a lock. */
  lemma CommitReleasesLocks(slots: Slots)
    requires AllTruthful(slots)
    ensures AllTruthful(AllReleased(slots))
    ensures forall i :: 1 <= i < |slots| && slots[i].Some? ==> AllReleased(slots)[i].value.pager == Pager(0, false)
  {
    forall i | 0 <= i < |slots| && slots[i].Some?
      ensures Truthful(AllReleased(slots)[i].value)
      ensures i >= 1 ==> AllReleased(slots)[i].value.pager == Pager(0, false)
    {
      assert Truthful(slots[i].value);
      assert AllReleased(slots)[i] == ReleasedSlot(slots[i], i);
    }
  }

  datatype Op =
    | DoBegin(db: nat, write: bool, first: Reply, second: Reply)
    | DoStepEnd(end: nat, flush: Flush)
    | DoRollback

  function Step(slots: Slots, op: Op): Slots {
    match op
    case DoBegin(db, write, first, second) => Begin(slots, db, write, first, second).0
    case DoStepEnd(db, flush) => StepEnd(slots, db, flush).0
    case DoRollback => RollbackAll(slots)
  }

  function Run(slots: Slots, ops: seq<Op>): Slots
    decreases ops
  {
    if ops == [] then slots else Run(Step(slots, ops[0]), ops[1..])
  }

  /** Beginning never takes a second read lock nor drops to a lower state; it proceeds
      exactly when the state asked for is reached, and a busy write lock leaves a
      read transaction that is recorded as one. */
  lemma BeginIsTruthful(aux: AuxDb, write: bool, first: Reply, second: Reply)
    requires Truthful(aux)
    ensures var (after, answer) := BeginOn(aux, write, first, second);
            && Truthful(after) && after.pager.readLocks <= 1 && AtLeast(after.txn, aux.txn)
            && after == aux.(txn := after.txn, pager := after.pager)
            && (answer.Proceed? <==> AtLeast(after.txn, if write then Write else Read))
            && (!answer.Proceed? && (first.Granted? || !aux.txn.NoTxn?) ==> write && after.txn.Read?)
  {
  }

  lemma StepEndIsTruthful(aux: AuxDb, flush: Flush)
    requires Truthful(aux)
    ensures var (after, end) := StepEndOn(aux, flush);
            && Truthful(after)
            && (end.EndDone? <==> after.txn.NoTxn?)
            && (!end.EndDone? ==> after == aux && aux.txn.Write?)
  {
  }

  /** What a begin asks for, and the first of it that is not granted. */
  predicate RefusedWith(aux: AuxDb, write: bool, first: Reply, second: Reply, reply: Reply) {
    if aux.txn.NoTxn? && !first.Granted? then first == reply
    else write && !aux.txn.Write? && !second.Granted? && second == reply
  }

  /** The read lock is asked for unless a transaction is open, the write lock unless a write is; a
      busy one yields, a broken one is an error, and what was granted before it is kept. */
  lemma BeginAnswers(aux: AuxDb, write: bool, first: Reply, second: Reply)
    requires Truthful(aux)
    ensures var (after, answer) := BeginOn(aux, write, first, second);
            && (answer.Yield? <==> RefusedWith(aux, write, first, second, Busy))
            && (answer.Error? <==> RefusedWith(aux, write, first, second, Broken))
            && (after.txn.NoTxn? <==> aux.txn.NoTxn? && !first.Granted?)
            && (after.txn.Write? <==> aux.txn.Write? || (write && second.Granted? && !after.txn.NoTxn?))
  {
  }

  predicate IsThere(slots: Slots, db: nat) { db < |slots| && slots[db].Some? }

  /** A begin changes no slot but its own; main needs none, and a missing database is an error. */
  lemma BeginTouchesOne(slots: Slots, db: nat, write: bool, first: Reply, second: Reply)
    ensures var (after, answer) := Begin(slots, db, write, first, second);
            && |after| == |slots| && (forall i :: 0 <= i < |slots| && i != db ==> after[i] == slots[i])
            && (db == 0 ==> after == slots && answer == Proceed)
            && (db > 0 && !IsThere(slots, db) ==> after == slots && answer == Error)
            && (db > 0 && IsThere(slots, db) ==> (after[db], answer) == (Some(BeginOn(slots[db].value, write, first, second).0),
                                                                      BeginOn(slots[db].value, write, first, second).1))
  {
    hide BeginOn;
  }

  /** Ending changes no slot but its own; an empty or missing one is done at once. */
  lemma StepEndTouchesOne(slots: Slots, db: nat, flush: Flush)
    ensures var (after, end) := StepEnd(slots, db, flush);
            && |after| == |slots| && (forall i :: 0 <= i < |slots| && i != db ==> after[i] == slots[i])
            && (!IsThere(slots, db) ==> after == slots && end == EndDone)
            && (IsThere(slots, db) && slots[db].value.txn.Write? ==>
                  && (end.EndIo? <==> flush.FlushIo?) && (end.EndBroken? <==> flush.FlushBroken?))
            && (IsThere(slots, db) && !slots[db].value.txn.Write? ==> end.EndDone?)
  {
    hide Released;
  }

  lemma StepIsTruthful(slots: Slots, op: Op)
    requires AllTruthful(slots) && !op.DoRollback?
    ensures AllTruthful(Step(slots, op)) && |Step(slots, op)| == |slots|
  {
    hide Truthful, BeginOn, StepEndOn;
    match op {
      case DoBegin(db, write, first, second) =>
        if db != DB_MAIN && SlotAt(slots, db).Some? { BeginIsTruthful(slots[db].value, write, first, second); }
      case DoStepEnd(db, flush) =>
        if SlotAt(slots, db).Some? { StepEndIsTruthful(slots[db].value, flush); }
    }
  }

  predicate Idle(slots: Slots) {
    forall i :: 0 <= i < |slots| && slots[i].Some? ==> slots[i].value.txn.NoTxn?
  }

  /** A rollback keeps the record true exactly when no transaction was open. */
  lemma RollbackIsTruthfulIff(slots: Slots)
    requires AllTruthful(slots)
    ensures AllTruthful(RollbackAll(slots)) <==> Idle(slots)
  {
    if i :| 0 <= i < |slots| && slots[i].Some? && !slots[i].value.txn.NoTxn? {
      assert !Truthful(RollbackAll(slots)[i].value);
    }
  }

  /** A pager that holds more shared locks than the registry records. */
  predicate Leaks(slots: Slots, i: nat) {
    i < |slots| && slots[i].Some? && slots[i].value.pager.readLocks > (if slots[i].value.txn.NoTxn? then 0 else 1)
  }

  lemma {:induction false} LeakStays(slots: Slots, ops: seq<Op>, i: nat)
    requires Leaks(slots, i)
    ensures Leaks(Run(slots, ops), i)
    decreases ops
  {
    if ops != [] {
      assert Leaks(Step(slots, ops[0]), i);
      LeakStays(Step(slots, ops[0]), ops[1..], i);
    }
  }

  lemma LeakIsUntrue(slots: Slots, i: nat)
    requires Leaks(slots, i)
    ensures !AllTruthful(slots)
  {
    assert !Truthful(slots[i].value);
  }

  /** Every rollback of the run finds no transaction open. */
  predicate RollbacksIdle(slots: Slots, ops: seq<Op>)
    decreases ops
  {
    ops == [] || ((ops[0].DoRollback? ==> Idle(slots)) && RollbacksIdle(Step(slots, ops[0]), ops[1..]))
  }

  /** Over every run, whatever the log answers, the record ends true exactly when no
      rollback met an open transaction. */
  lemma {:induction false} RunIsTruthfulIff(slots: Slots, ops: seq<Op>)
    requires AllTruthful(slots)
    ensures AllTruthful(Run(slots, ops)) <==> RollbacksIdle(slots, ops)
    decreases ops
  {
    hide AllTruthful, Idle;
    if ops != [] {
      var next := Step(slots, ops[0]);
      if ops[0].DoRollback? {
        RollbackIsTruthfulIff(slots);
        if !Idle(slots) {
          var i := OpenSlot(slots);
          LeakStays(next, ops[1..], i);
          LeakIsUntrue(Run(next, ops[1..]), i);
        } else {
          RunIsTruthfulIff(next, ops[1..]);
        }
      } else {
        StepIsTruthful(slots, ops[0]);
        RunIsTruthfulIff(next, ops[1..]);
      }
    }
  }

  lemma OpenSlot(slots: Slots) returns (i: nat)
    requires AllTruthful(slots) && !Idle(slots)
    ensures Leaks(RollbackAll(slots), i)
  {
    i :| 0 <= i < |slots| && slots[i].Some? && !slots[i].value.txn.NoTxn?;
    assert Truthful(slots[i].value);
  }

  // ---- a write transaction that was rolled back

  /** The pager holds the write lock, but the registry does not know. */
  predicate Stuck(slots: Slots, db: nat) {
    db != DB_MAIN && db < |slots| && slots[db].Some? && slots[db].value.pager.writeLock && !slots[db].value.txn.Write?
  }

  lemma RollbackSticks(slots: Slots, db: nat)
    requires AllTruthful(slots) && db != DB_MAIN && db < |slots| && slots[db].Some?
    ensures Stuck(RollbackAll(slots), db) <==> slots[db].value.txn.Write?
  {
    assert Truthful(slots[db].value);
  }

  lemma StepKeepsStuck(slots: Slots, op: Op, db: nat)
    requires Stuck(slots, db)
    ensures Stuck(Step(slots, op), db)
  {
  }

  /** Once stuck, a database never again grants a write transaction, however the
      connection goes on. */
  lemma {:induction false} StuckForever(slots: Slots, ops: seq<Op>, db: nat, first: Reply, second: Reply)
    requires Stuck(slots, db)
    ensures Stuck(Run(slots, ops), db)
    ensures !Begin(Run(slots, ops), db, true, first, second).1.Proceed?
    decreases ops
  {
    if ops != [] {
      StepKeepsStuck(slots, ops[0], db);
      StuckForever(Step(slots, ops[0]), ops[1..], db, first, second);
    }
  }

  /** So after a rollback of an open write transaction no write on that database
      gets through again. */
  lemma RollbackBlocksWrites(slots: Slots, ops: seq<Op>, db: nat, first: Reply, second: Reply)
    requires AllTruthful(slots) && db != DB_MAIN && db < |slots| && slots[db].Some? && slots[db].value.txn.Write?
    ensures !Begin(Run(RollbackAll(slots), ops), db, true, first, second).1.Proceed?
  {
    RollbackSticks(slots, db);
    StuckForever(RollbackAll(slots), ops, db, first, second);
  }

  /** From a fresh database: a write that begins and is rolled back leaves the record false,
      and the next write waits. */
  lemma RolledBackWriteExample(aux: AuxDb, first: Reply, second: Reply)
    requires aux.txn.NoTxn? && aux.pager == Pager(0, false)
    ensures var slots := [None, Some(aux)];
            var after := Run(slots, [DoBegin(DB_TEMP, true, Granted, Granted), DoRollback]);
            && AllTruthful(slots) && !AllTruthful(after)
            && after == [None, Some(aux.(pager := Pager(1, true)))]
            && !Begin(after, DB_TEMP, true, first, second).1.Proceed?
  {
    var slots := [None, Some(aux)];
    var ops := [DoBegin(DB_TEMP, true, Granted, Granted), DoRollback];
    var begun := Step(slots, ops[0]);
    assert begun == [None, Some(aux.(txn := Write, pager := Pager(1, true)))];
    var after := Step(begun, ops[1]);
    assert after == [None, Some(aux.(pager := Pager(1, true)))];
    assert ops[1..][1..] == [] && Run(begun, ops[1..]) == after;
    assert !Truthful(after[DB_TEMP].value);
  }
}
