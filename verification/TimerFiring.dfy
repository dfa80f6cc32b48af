/** What the calls and the interrupt make happen, in terms of the history alone: every call takes
    effect, every overdue task fires once, and its function runs. */
module TimerFiring {
  import opened Options
  import opened MacMemory
  import opened MacTime
  import opened TimerModel

  // ------------------------------------------------------------- calls take effect

  /** A task is installed by an insertion if it was before or a descriptor is free, is out after a
      removal, and armed after a priming if it was installed; no call changes another task's status. */
  lemma InsertTakesEffect(s: State, tm: uint32, trap: bv16, x: uint32)
    requires Refines(s)
    ensures StatusOf(InsTime(s, tm, trap).log, x) ==
      if x == tm && (StatusOf(s.log, tm) != Out || exists i :: 0 <= i < |s.descs| && !s.descs[i].inUse) then Idle
      else StatusOf(s.log, x)
  {
    hide Legal, FreeFrom, FindFrom;
    assert TableStatus(s, tm) == StatusOf(s.log, tm);
    LogSnoc(s.log, Inserted(tm));
    FreeIsFound(s.descs);
  }

  lemma FreeIsFound(d: seq<Desc>)
    ensures FreeFrom(d, 0).Some? <==> exists i :: 0 <= i < |d| && !d[i].inUse
  {
  }

  lemma RemovalTakesEffect(s: State, tm: uint32, now: HostTime, x: uint32)
    requires Refines(s) && now.Valid()
    ensures StatusOf(RmvTime(s, tm, now).log, x) == if x == tm then Out else StatusOf(s.log, x)
  {
    hide Legal, FindFrom, Host2MacTime;
    assert TableStatus(s, tm) == StatusOf(s.log, tm);
    LogSnoc(s.log, Removed(tm));
  }

  /** The delay counts from the scheduled time for an extended task that is marked, otherwise from
      now. */
  lemma PrimingTakesEffect(s: State, tm: uint32, time: int32, now: HostTime, x: uint32)
    requires Refines(s) && WakeupsValid(s.descs) && now.Valid() && time > -TWO31
    ensures var st := StatusOf(PrimeTime(s, tm, time, now).log, x);
      if x == tm && StatusOf(s.log, tm) != Out then
        && st.Armed?
        && (TaskAt(s.tasks, tm).qType & 0x4000 == 0 || TaskAt(s.tasks, tm).wakeUp == 0 ==>
              st.wakeup.Micros() == now.Micros() + Duration(time))
        && (TaskAt(s.tasks, tm).qType & 0x4000 != 0 && TaskAt(s.tasks, tm).wakeUp != 0 && StatusOf(s.log, tm).Armed? ==>
              st.wakeup.Micros() == StatusOf(s.log, tm).wakeup.Micros() + Duration(time))
      else st == StatusOf(s.log, x)
  {
    hide Legal, FindFrom, Duration, Mac2HostTime;
    assert TableStatus(s, tm) == StatusOf(s.log, tm);
    var found := FindDesc(s.descs, tm);
    if found.Some? {
      LogSnoc(s.log, Primed(tm, PrimeTime(s, tm, time, now).descs[found.value].wakeup));
    }
  }

  /** The two task words, before and after, agree in the given bits. */
  predicate SameBits(a: bv16, b: bv16, mask: bv16) {
    a & mask == b & mask
  }

  /** What an insertion writes into the task's record: it clears the active bit and takes the two bits
      below it from the trap word. */
  lemma InsertedRecord(s: State, tm: uint32, trap: bv16, x: uint32)
    ensures var t, t' := TaskAt(s.tasks, x), TaskAt(InsTime(s, tm, trap).tasks, x);
      if x != tm then t' == t
      else SameBits(t'.qType, t.qType, 0x1fff) && SameBits(t'.qType, trap << 4, 0x6000) && SameBits(t'.qType, 0, 0x8000)
           && t' == t.(qType := t'.qType)
  {
    hide FindDesc, InsertedType, SameBits;
    InsertedBits(TaskAt(s.tasks, tm).qType, trap);
  }

  /** A removal clears the active bit, and leaves no time to go if it was clear. */
  lemma RemovedRecord(s: State, tm: uint32, now: HostTime, x: uint32)
    requires WakeupsValid(s.descs) && now.Valid()
    ensures var t, t' := TaskAt(s.tasks, x), TaskAt(RmvTime(s, tm, now).tasks, x);
      if x != tm || FindDesc(s.descs, tm).None? then t' == t
      else SameBits(t'.qType, t.qType, 0x7fff) && SameBits(t'.qType, 0, 0x8000)
           && t' == t.(qType := t'.qType, count := t'.count) && (SameBits(t.qType, 0, 0x8000) ==> t'.count == 0)
  {
    hide FindDesc, Host2MacTime, SameBits, IsActive;
    RemovedBits(TaskAt(s.tasks, tm));
  }

  /** A priming sets the active bit and marks an extended task. */
  lemma PrimedRecord(s: State, tm: uint32, time: int32, now: HostTime, x: uint32)
    requires WakeupsValid(s.descs) && now.Valid() && time > -TWO31
    ensures var t, t' := TaskAt(s.tasks, x), TaskAt(PrimeTime(s, tm, time, now).tasks, x);
      if x != tm || FindDesc(s.descs, tm).None? then t' == t
      else SameBits(t'.qType, t.qType, 0x7fff) && SameBits(t'.qType, 0x8000, 0x8000)
           && t' == t.(qType := t'.qType, wakeUp := if SameBits(t.qType, 0, 0x4000) then t.wakeUp else 0x1234_5678)
  {
    hide FindDesc, NextWakeup, PrimedTask, SameBits;
    PrimedBits(TaskAt(s.tasks, tm));
  }

  lemma InsertedBits(q: bv16, trap: bv16)
    ensures var r := InsertedType(q, trap);
      SameBits(r, q, 0x1fff) && SameBits(r, trap << 4, 0x6000) && SameBits(r, 0, 0x8000)
  {
  }

  lemma RemovedBits(t: Task)
    ensures var r := t.qType & 0x7fff; SameBits(r, t.qType, 0x7fff) && SameBits(r, 0, 0x8000)
    ensures SameBits(t.qType, 0, 0x8000) <==> !IsActive(t)
    ensures !IsActive(t) ==> t.qType & 0x7fff == t.qType
  {
  }

  lemma PrimedBits(t: Task)
    ensures var r := PrimedTask(t);
      && SameBits(r.qType, t.qType, 0x7fff) && SameBits(r.qType, 0x8000, 0x8000)
      && r == t.(qType := r.qType, wakeUp := if SameBits(t.qType, 0, 0x4000) then t.wakeUp else 0x1234_5678)
  {
  }

  // ------------------------------------------------------------- operations that leave a task alone

  /** The operation does not insert, remove or prime tm. */
  predicate Spares(op: Op, tm: uint32) {
    op.tm != tm || op.OpPoke?
  }

  predicate AllSpare(ops: seq<Op>, tm: uint32) {
    forall k :: 0 <= k < |ops| ==> Spares(ops[k], tm)
  }

  /** No operation is about tm at all. */
  predicate NoneNames(ops: seq<Op>, tm: uint32) {
    forall k :: 0 <= k < |ops| ==> ops[k].tm != tm
  }

  /** tm keeps its descriptor, its flags and its count of firings. */
  ghost predicate Keeps(s: State, s': State, tm: uint32) {
    && |s'.descs| == |s.descs| && FindDesc(s'.descs, tm) == FindDesc(s.descs, tm)
    && (forall i :: 0 <= i < |s.descs| && FindDesc(s.descs, tm) == Some(i) ==> s'.descs[i] == s.descs[i])
    && TaskAt(s'.tasks, tm).qType == TaskAt(s.tasks, tm).qType
    && Firings(s'.log, tm) == Firings(s.log, tm)
  }

  lemma FiringsSnoc(log: seq<Event>, e: Event, tm: uint32)
    ensures Firings(log + [e], tm) == Firings(log, tm) + if e.Fired? && e.tm == tm then 1 else 0
  {
    LogSnoc(log, e);
  }

  /** Another task's descriptor changes, or a free one. */
  lemma OthersDescriptor(d: seq<Desc>, j: nat, x: Desc, tm: uint32)
    requires j < |d| && !(d[j].inUse && d[j].task == tm) && !(x.inUse && x.task == tm)
    ensures FindDesc(d[j := x], tm) == FindDesc(d, tm) && FindDesc(d, tm) != Some(j)
  {
    FindSpec(d, tm);
    FindSame(d, d[j := x], tm, 0);
  }

  lemma DoKeeps(s: State, op: Op, tm: uint32)
    requires WakeupsValid(s.descs) && OpValid(op) && Spares(op, tm)
    ensures Keeps(s, Do(s, op), tm)
    ensures op.tm != tm ==> TaskAt(Do(s, op).tasks, tm) == TaskAt(s.tasks, tm)
  {
    hide Firings, FindDesc, Host2MacTime, NextWakeup, PrimedTask, InsertedType, WakeupsValid;
    var d := s.descs;
    var s' := Do(s, op);
    FindSpec(d, op.tm);
    match op {
      case OpInsert(t, trap) =>
        FiringsSnoc(s.log, Inserted(t), tm);
        var j := FreeFrom(d, 0);
        if j.Some? {
          OthersDescriptor(d, j.value, d[j.value].(task := t, inUse := true), tm);
        }
      case OpRemove(t, now) =>
        FiringsSnoc(s.log, Removed(t), tm);
        var j := FindDesc(d, t);
        if j.Some? {
          OthersDescriptor(d, j.value, s'.descs[j.value], tm);
        }
      case OpPrime(t, time, now) =>
        var j := FindDesc(d, t);
        if j.Some? {
          FiringsSnoc(s.log, Primed(t, s'.descs[j.value].wakeup), tm);
          OthersDescriptor(d, j.value, s'.descs[j.value], tm);
        }
      case OpPoke(t, addr, count, wakeUp) =>
    }
  }

  lemma {:induction false} DoAllKeeps(s: State, ops: seq<Op>, tm: uint32)
    requires WakeupsValid(s.descs) && OpsValid(ops) && AllSpare(ops, tm)
    ensures Keeps(s, DoAll(s, ops), tm)
    ensures NoneNames(ops, tm) ==> TaskAt(DoAll(s, ops).tasks, tm) == TaskAt(s.tasks, tm)
    decreases |ops|
  {
    hide Do, Firings, FindDesc;
    if ops != [] {
      DoKeeps(s, ops[0], tm);
      DoAllKeeps(Do(s, ops[0]), ops[1..], tm);
    }
  }

  // ------------------------------------------------------------- the interrupt

  ghost predicate ScriptsValid(scripts: nat -> seq<Op>) {
    forall k :: OpsValid(scripts(k))
  }

  /** One step of the scan at a descriptor that does not hold tm. */
  lemma StepKeeps(s: State, j: nat, now: HostTime, scripts: nat -> seq<Op>, tm: uint32) returns (s': State)
    requires Refines(s) && WakeupsValid(s.descs) && now.Valid() && j < |s.descs| && FindDesc(s.descs, tm) != Some(j)
    requires ScriptsValid(scripts) && AllSpare(scripts(j), tm)
    ensures Refines(s') && WakeupsValid(s'.descs) && Keeps(s, s', tm)
    ensures NoneNames(scripts(j), tm) ==> TaskAt(s'.tasks, tm) == TaskAt(s.tasks, tm)
    ensures Scan(s, j, now, scripts) == Scan(s', j + 1, now, scripts)
  {
    hide Refines, DoAll, Firings, FindFrom, OpsValid;
    s' := s;
    if Due(s, j, now) {
      RefinesFacts(s);
      if s.descs[j].task == tm {
        FoundIsUnique(s.descs, tm, j);
      }
      s' := Expire(s, j, now);
      FiringsSnoc(s.log, Fired(s.descs[j].task, now), tm);
      ExpireRefines(s, j, now);
      if TaskAt(s'.tasks, s.descs[j].task).addr != 0 {
        DoAllKeeps(s', scripts(j), tm);
        DoAllRefines(s', scripts(j));
        s' := DoAll(s', scripts(j));
      }
    }
  }

  /** The scan up to tm's descriptor, and from behind it on. */
  lemma {:induction false} BeforeTurn(s: State, j: nat, i: nat, now: HostTime, scripts: nat -> seq<Op>, tm: uint32)
    returns (s': State)
    requires Refines(s) && WakeupsValid(s.descs) && now.Valid()
    requires j <= i < |s.descs| && FindDesc(s.descs, tm) == Some(i)
    requires ScriptsValid(scripts) && forall k | j <= k < i :: AllSpare(scripts(k), tm)
    ensures Refines(s') && WakeupsValid(s'.descs) && Keeps(s, s', tm)
    ensures (forall k | j <= k < i :: NoneNames(scripts(k), tm)) ==> TaskAt(s'.tasks, tm) == TaskAt(s.tasks, tm)
    ensures Scan(s, j, now, scripts) == Scan(s', i, now, scripts)
    decreases i - j
  {
    hide Refines, DoAll, Scan, FindDesc, Firings, AllSpare, NoneNames;
    s' := s;
    if j < i {
      s' := StepKeeps(s, j, now, scripts, tm);
      s' := BeforeTurn(s', j + 1, i, now, scripts, tm);
    }
  }

  lemma {:induction false} AfterTurn(s: State, j: nat, now: HostTime, scripts: nat -> seq<Op>, tm: uint32)
    requires Refines(s) && WakeupsValid(s.descs) && now.Valid()
    requires forall i :: j <= i < |s.descs| ==> FindDesc(s.descs, tm) != Some(i)
    requires ScriptsValid(scripts) && forall k | j <= k < |s.descs| :: AllSpare(scripts(k), tm)
    ensures Keeps(s, Scan(s, j, now, scripts), tm)
    decreases |s.descs| - j
  {
    hide Refines, DoAll, Scan, FindDesc, Firings, AllSpare;
    if j >= |s.descs| {
      ScanEnds(s, j, now, scripts);
    } else {
      var s' := StepKeeps(s, j, now, scripts, tm);
      AfterTurn(s', j + 1, now, scripts, tm);
    }
  }

  lemma ScanEnds(s: State, j: nat, now: HostTime, scripts: nat -> seq<Op>)
    requires WakeupsValid(s.descs) && now.Valid() && ScriptsValid(scripts) && j >= |s.descs|
    ensures Scan(s, j, now, scripts) == s
  {
  }

  lemma KeepsStatus(s: State, s': State, tm: uint32)
    requires Refines(s) && Refines(s') && Keeps(s, s', tm)
    ensures StatusOf(s'.log, tm) == StatusOf(s.log, tm)
  {
    hide Firings, StatusOf, Legal, FindDesc;
    RefinesFacts(s);
    RefinesFacts(s');
    FindSpec(s.descs, tm);
    assert TableStatus(s, tm) == StatusOf(s.log, tm) && TableStatus(s', tm) == StatusOf(s'.log, tm);
  }

  /** Armed, and the wakeup time has passed. */
  predicate Overdue(log: seq<Event>, tm: uint32, now: HostTime) {
    StatusOf(log, tm).Armed? && StatusOf(log, tm).wakeup.Micros() < now.Micros()
  }

  lemma DueIffOverdue(s: State, i: nat, now: HostTime, tm: uint32)
    requires Refines(s) && WakeupsValid(s.descs) && now.Valid() && i < |s.descs| && FindDesc(s.descs, tm) == Some(i)
    ensures Due(s, i, now) <==> Overdue(s.log, tm, now)
  {
    hide StatusOf, Legal;
    RefinesFacts(s);
    FindSpec(s.descs, tm);
    assert TableStatus(s, tm) == StatusOf(s.log, tm);
  }

  /** tm's turn in the scan, up to where its function runs. */
  lemma TakesTurn(s: State, i: nat, now: HostTime, scripts: nat -> seq<Op>, tm: uint32) returns (s': State)
    requires Refines(s) && WakeupsValid(s.descs) && now.Valid() && i < |s.descs| && FindDesc(s.descs, tm) == Some(i)
    requires ScriptsValid(scripts) && Overdue(s.log, tm, now)
    ensures Refines(s') && WakeupsValid(s'.descs) && s'.descs == s.descs
    ensures Firings(s'.log, tm) == Firings(s.log, tm) + 1 && StatusOf(s'.log, tm) == Idle
    ensures IsExtended(TaskAt(s'.tasks, tm)) == IsExtended(TaskAt(s.tasks, tm))
    ensures TaskAt(s'.tasks, tm).addr == TaskAt(s.tasks, tm).addr
    ensures TaskAt(s'.tasks, tm).wakeUp == TaskAt(s.tasks, tm).wakeUp
    ensures Scan(s, i, now, scripts) ==
      Scan(if TaskAt(s.tasks, tm).addr == 0 then s' else DoAll(s', scripts(i)), i + 1, now, scripts)
  {
    hide Refines, DoAll, Firings, FindFrom, Due;
    DueIffOverdue(s, i, now, tm);
    FindSpec(s.descs, tm);
    s' := Expire(s, i, now);
    ExpireRefines(s, i, now);
    DeactivateFlags(TaskAt(s.tasks, tm).qType);
    FiringsSnoc(s.log, Fired(tm, now), tm);
    LogSnoc(s.log, Fired(tm, now));
  }

  /** Every overdue task fires exactly once in an interrupt and is idle afterwards, and no other task
      fires, whatever the timer functions do as long as they do not insert, remove or prime it. */
  lemma OverdueTaskFires(s: State, now: HostTime, scripts: nat -> seq<Op>, tm: uint32)
    requires Refines(s) && WakeupsValid(s.descs) && now.Valid() && ScriptsValid(scripts)
    requires forall k :: AllSpare(scripts(k), tm)
    ensures var r := Scan(s, 0, now, scripts);
      && Firings(r.log, tm) == Firings(s.log, tm) + (if Overdue(s.log, tm, now) then 1 else 0)
      && StatusOf(r.log, tm) == if Overdue(s.log, tm, now) then Idle else StatusOf(s.log, tm)
  {
    hide Refines, DoAll, Scan, FindDesc, Firings, StatusOf, AllSpare, OpsValid;
    var r := Scan(s, 0, now, scripts);
    ScanRefines(s, 0, now, scripts);
    if Overdue(s.log, tm, now) {
      var i := PlaceOf(s, tm);
      var s1 := BeforeTurn(s, 0, i, now, scripts, tm);
      KeepsStatus(s, s1, tm);
      var e := TakesTurn(s1, i, now, scripts, tm);
      var s2 := if TaskAt(s1.tasks, tm).addr == 0 then e else DoAll(e, scripts(i));
      DoAllKeeps(e, scripts(i), tm);
      DoAllRefines(e, scripts(i));
      SameKeeps(e, tm);
      KeepsStatus(e, s2, tm);
      AfterTurn(s2, i + 1, now, scripts, tm);
      KeepsStatus(s2, r, tm);
    } else {
      NotOverdueKeeps(s, now, scripts, tm);
      KeepsStatus(s, r, tm);
    }
  }

  lemma PlaceOf(s: State, tm: uint32) returns (i: nat)
    requires Refines(s) && StatusOf(s.log, tm) != Out
    ensures i < |s.descs| && FindDesc(s.descs, tm) == Some(i)
  {
    hide StatusOf, Legal;
    assert TableStatus(s, tm) == StatusOf(s.log, tm);
    i := FindDesc(s.descs, tm).value;
  }

  lemma SameKeeps(s: State, tm: uint32)
    ensures Keeps(s, s, tm)
  {
  }

  lemma NotOverdueKeeps(s: State, now: HostTime, scripts: nat -> seq<Op>, tm: uint32)
    requires Refines(s) && WakeupsValid(s.descs) && now.Valid() && ScriptsValid(scripts)
    requires (forall k :: AllSpare(scripts(k), tm)) && !Overdue(s.log, tm, now)
    ensures Keeps(s, Scan(s, 0, now, scripts), tm)
  {
    hide Refines, DoAll, Scan, Firings, StatusOf, AllSpare, OpsValid, FindFrom;
    var found := FindDesc(s.descs, tm);
    if found.Some? {
      var i := found.value;
      FindSpec(s.descs, tm);
      var s1 := BeforeTurn(s, 0, i, now, scripts, tm);
      KeepsStatus(s, s1, tm);
      DueIffOverdue(s1, i, now, tm);
      NotDueIsPassed(s1, i, now, scripts);
      AfterTurn(s1, i + 1, now, scripts, tm);
    } else {
      AfterTurn(s, 0, now, scripts, tm);
    }
  }

  lemma NotDueIsPassed(s: State, i: nat, now: HostTime, scripts: nat -> seq<Op>)
    requires WakeupsValid(s.descs) && now.Valid() && ScriptsValid(scripts) && i < |s.descs| && !Due(s, i, now)
    ensures Scan(s, i, now, scripts) == Scan(s, i + 1, now, scripts)
  {
  }

  /** What a timer function does that primes its own task with delay d. */
  lemma PrimesItself(s: State, i: nat, tm: uint32, d: int32, now: HostTime)
    requires Refines(s) && WakeupsValid(s.descs) && now.Valid() && d > -TWO31
    requires i < |s.descs| && FindDesc(s.descs, tm) == Some(i)
    ensures var r, t := DoAll(s, [OpPrime(tm, d, now)]), TaskAt(s.tasks, tm);
      && Refines(r) && WakeupsValid(r.descs) && FindDesc(r.descs, tm) == Some(i)
      && Firings(r.log, tm) == Firings(s.log, tm) && StatusOf(r.log, tm).Armed?
      && StatusOf(r.log, tm).wakeup.Micros() ==
         (if IsExtended(t) && t.wakeUp != 0 then s.descs[i].wakeup.Micros() else now.Micros()) + Duration(d)
  {
    hide Refines, Firings, Duration, Mac2HostTime, PrimedTask, FindFrom;
    var ops := [OpPrime(tm, d, now)];
    assert ops[1..] == [];
    assert DoAll(s, ops) == PrimeTime(s, tm, d, now);
    DoRefines(s, ops[0]);
    FindSpec(s.descs, tm);
    var r := PrimeTime(s, tm, d, now);
    FindSame(s.descs, r.descs, tm, 0);
    FiringsSnoc(s.log, Primed(tm, r.descs[i].wakeup), tm);
    LogSnoc(s.log, Primed(tm, r.descs[i].wakeup));
  }

  lemma ArmedInTable(s: State, i: nat, tm: uint32)
    requires Refines(s) && i < |s.descs| && FindDesc(s.descs, tm) == Some(i) && StatusOf(s.log, tm).Armed?
    ensures StatusOf(s.log, tm).wakeup == s.descs[i].wakeup
  {
    hide StatusOf, Legal;
    assert TableStatus(s, tm) == StatusOf(s.log, tm);
  }

  /** The function of an overdue task runs, if it has one: when it primes its own task, the task is
      armed afterwards, counting from the time it was scheduled for if it is extended and marked,
      otherwise from the clock. */
  lemma TimerFunctionRuns(s: State, now: HostTime, scripts: nat -> seq<Op>, i: nat, tm: uint32, d: int32,
                          now2: HostTime)
    requires Refines(s) && WakeupsValid(s.descs) && now.Valid() && now2.Valid() && d > -TWO31
    requires ScriptsValid(scripts) && Overdue(s.log, tm, now) && i < |s.descs| && FindDesc(s.descs, tm) == Some(i)
    requires scripts(i) == [OpPrime(tm, d, now2)] && forall k :: k != i ==> NoneNames(scripts(k), tm)
    ensures var st, t := StatusOf(Scan(s, 0, now, scripts).log, tm), TaskAt(s.tasks, tm);
      if t.addr == 0 then st == Idle else
        && st.Armed?
        && st.wakeup.Micros() == Duration(d) +
           if t.qType & 0x4000 != 0 && t.wakeUp != 0 then StatusOf(s.log, tm).wakeup.Micros() else now2.Micros()
    ensures Firings(Scan(s, 0, now, scripts).log, tm) == Firings(s.log, tm) + 1
  {
    hide Refines, DoAll, Scan, FindDesc, Firings, StatusOf, OpsValid, Duration;
    var r := Scan(s, 0, now, scripts);
    ScanRefines(s, 0, now, scripts);
    forall k | k != i ensures AllSpare(scripts(k), tm) {
      assert NoneNames(scripts(k), tm);
    }
    var s1 := BeforeTurn(s, 0, i, now, scripts, tm);
    KeepsStatus(s, s1, tm);
    ArmedInTable(s1, i, tm);
    var e := TakesTurn(s1, i, now, scripts, tm);
    var s2 := e;
    if TaskAt(s1.tasks, tm).addr != 0 {
      PrimesItself(e, i, tm, d, now2);
      s2 := DoAll(e, scripts(i));
    }
    AfterTurn(s2, i + 1, now, scripts, tm);
    KeepsStatus(s2, r, tm);
  }
}
