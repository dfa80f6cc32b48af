/** The Time Manager as a value: descriptor table, task records and a history, and what holds
    after every sequence of calls and interrupts. */
module TimerModel {
  import opened Options
  import opened MacMemory
  import opened MacTime

  const NUM_DESCS: nat := 64

  // Task type word: active and extended flags.
  const ACTIVE: bv16 := 0x8000
  const EXTENDED: bv16 := 0x4000

  datatype Desc = Desc(task: uint32, wakeup: HostTime, inUse: bool)

  /** The words of a task record in Mac memory that the Time Manager touches. */
  datatype Task = Task(qType: bv16, addr: uint32, count: int32, wakeUp: uint32)

  type Tasks = map<uint32, Task>

  const BLANK_TASK: Task := Task(0, 0, 0, 0)

  function TaskAt(m: Tasks, tm: uint32): Task {
    if tm in m then m[tm] else BLANK_TASK
  }

  /** What happened, oldest first. */
  datatype Event =
    | Inserted(tm: uint32)
    | Removed(tm: uint32)
    | Primed(tm: uint32, wakeup: HostTime)
    | Fired(tm: uint32, now: HostTime)
    | AllRemoved

  datatype State = State(descs: seq<Desc>, tasks: Tasks, log: seq<Event>)

  // ------------------------------------------------------------- descriptors

  function FindFrom(d: seq<Desc>, tm: uint32, k: nat): (r: Option<nat>)
    ensures r.Some? ==> k <= r.value < |d| && d[r.value].inUse && d[r.value].task == tm
    ensures r.None? ==> forall i :: k <= i < |d| ==> !(d[i].inUse && d[i].task == tm)
    decreases |d| - k
  {
    if k >= |d| then None else if d[k].inUse && d[k].task == tm then Some(k) else FindFrom(d, tm, k + 1)
  }

  function FindDesc(d: seq<Desc>, tm: uint32): Option<nat> {
    FindFrom(d, tm, 0)
  }

  function FreeFrom(d: seq<Desc>, k: nat): (r: Option<nat>)
    ensures r.Some? ==> k <= r.value < |d| && !d[r.value].inUse
    ensures r.None? ==> forall i :: k <= i < |d| ==> d[i].inUse
    decreases |d| - k
  {
    if k >= |d| then None else if !d[k].inUse then Some(k) else FreeFrom(d, k + 1)
  }

  // ------------------------------------------------------------- calls

  function IsActive(t: Task): bool { t.qType & ACTIVE != 0 }
  function IsExtended(t: Task): bool { t.qType & EXTENDED != 0 }

  /** The type word of a task after insertion: two bits come from the trap word. */
  function InsertedType(q: bv16, trap: bv16): bv16 {
    (q & 0x1fff) | ((trap << 4) & 0x6000)
  }

  function InsTime(s: State, tm: uint32, trap: bv16): State {
    var t := TaskAt(s.tasks, tm);
    var tasks := s.tasks[tm := t.(qType := InsertedType(t.qType, trap))];
    if FindDesc(s.descs, tm).Some? then State(s.descs, tasks, s.log + [Inserted(tm)]) else
    match FreeFrom(s.descs, 0)
    case None => State(s.descs, tasks, s.log)
    case Some(i) => State(s.descs[i := s.descs[i].(task := tm, inUse := true)], tasks, s.log + [Inserted(tm)])
  }

  function RmvTime(s: State, tm: uint32, now: HostTime): State
    requires now.Valid() && forall i :: 0 <= i < |s.descs| ==> s.descs[i].wakeup.Valid()
  {
    match FindDesc(s.descs, tm)
    case None => s
    case Some(i) =>
      var t := TaskAt(s.tasks, tm);
      var t' := if IsActive(t)
                then t.(qType := t.qType & 0x7fff, count := Host2MacTime(SubTime(s.descs[i].wakeup, now)))
                else t.(count := 0);
      State(s.descs[i := s.descs[i].(inUse := false)], s.tasks[tm := t'], s.log + [Removed(tm)])
  }

  /** The new wakeup time of a task with descriptor d. */
  function NextWakeup(d: Desc, t: Task, time: int32, now: HostTime): (r: HostTime)
    requires now.Valid() && d.wakeup.Valid() && time > -TWO31
    ensures r.Valid()
  {
    AddTime(if IsExtended(t) && t.wakeUp != 0 then d.wakeup else now, Mac2HostTime(time))
  }

  /** The record of a task after priming: active, and marked as scheduled if it is extended. */
  function PrimedTask(t: Task): Task {
    Task(t.qType | ACTIVE, t.addr, t.count, if IsExtended(t) then 0x1234_5678 else t.wakeUp)
  }

  function PrimeTime(s: State, tm: uint32, time: int32, now: HostTime): State
    requires now.Valid() && time > -TWO31 && forall i :: 0 <= i < |s.descs| ==> s.descs[i].wakeup.Valid()
  {
    match FindDesc(s.descs, tm)
    case None => s
    case Some(i) =>
      var t := TaskAt(s.tasks, tm);
      var w := NextWakeup(s.descs[i], t, time, now);
      State(s.descs[i := s.descs[i].(wakeup := w)], s.tasks[tm := PrimedTask(t)], s.log + [Primed(tm, w)])
  }

  function Reset(s: State): State {
    State(seq(|s.descs|, i requires 0 <= i < |s.descs| => s.descs[i].(inUse := false)), s.tasks, s.log + [AllRemoved])
  }

  /** What a timer function (or any other Mac program) may do: call the Time Manager, each time at
      some clock reading, or set the other fields of a task record. */
  datatype Op =
    | OpInsert(tm: uint32, trap: bv16)
    | OpRemove(tm: uint32, now: HostTime)
    | OpPrime(tm: uint32, time: int32, now: HostTime)
    | OpPoke(tm: uint32, addr: uint32, count: int32, wakeUp: uint32)

  predicate OpValid(op: Op) {
    match op
    case OpRemove(_, now) => now.Valid()
    case OpPrime(_, time, now) => now.Valid() && time > -TWO31
    case _ => true
  }

  predicate OpsValid(ops: seq<Op>) {
    forall i :: 0 <= i < |ops| ==> OpValid(ops[i])
  }

  predicate WakeupsValid(d: seq<Desc>) {
    forall i :: 0 <= i < |d| ==> d[i].wakeup.Valid()
  }

  function Poke(s: State, tm: uint32, addr: uint32, count: int32, wakeUp: uint32): State {
    s.(tasks := s.tasks[tm := Task(TaskAt(s.tasks, tm).qType, addr, count, wakeUp)])
  }

  function Do(s: State, op: Op): (r: State)
    requires WakeupsValid(s.descs) && OpValid(op)
    ensures WakeupsValid(r.descs) && |r.descs| == |s.descs|
  {
    match op
    case OpInsert(tm, trap) => InsTime(s, tm, trap)
    case OpRemove(tm, now) => RmvTime(s, tm, now)
    case OpPrime(tm, time, now) => PrimeTime(s, tm, time, now)
    case OpPoke(tm, addr, count, wakeUp) => Poke(s, tm, addr, count, wakeUp)
  }

  function DoAll(s: State, ops: seq<Op>): (r: State)
    requires WakeupsValid(s.descs) && OpsValid(ops)
    ensures WakeupsValid(r.descs) && |r.descs| == |s.descs|
    decreases |ops|
  {
    if ops == [] then s else DoAll(Do(s, ops[0]), ops[1..])
  }

  // ------------------------------------------------------------- interrupt

  /** Descriptor i holds a task that is due. */
  predicate Due(s: State, i: nat, now: HostTime)
    requires i < |s.descs| && s.descs[i].wakeup.Valid() && now.Valid()
  {
    s.descs[i].inUse && IsActive(TaskAt(s.tasks, s.descs[i].task)) && CmpTime(s.descs[i].wakeup, now) < 0
  }

  function Expire(s: State, i: nat, now: HostTime): State
    requires i < |s.descs|
  {
    var tm := s.descs[i].task;
    var t := TaskAt(s.tasks, tm);
    State(s.descs, s.tasks[tm := t.(qType := t.qType & 0x7fff)], s.log + [Fired(tm, now)])
  }

  /** The scan of the interrupt from descriptor i on. The timer function found through descriptor
      i, if it runs, performs scripts(i) before the scan goes on. */
  function Scan(s: State, i: nat, now: HostTime, scripts: nat -> seq<Op>): (r: State)
    requires WakeupsValid(s.descs) && now.Valid() && forall k :: OpsValid(scripts(k))
    ensures WakeupsValid(r.descs) && |r.descs| == |s.descs|
    decreases |s.descs| - i
  {
    if i >= |s.descs| then s
    else if !Due(s, i, now) then Scan(s, i + 1, now, scripts)
    else
      var e := Expire(s, i, now);
      var addr := TaskAt(e.tasks, s.descs[i].task).addr;
      Scan(if addr != 0 then DoAll(e, scripts(i)) else e, i + 1, now, scripts)
  }

  datatype Call =
    | CallOp(op: Op)
    | CallInterrupt(now: HostTime, scripts: nat -> seq<Op>)
    | CallReset

  ghost predicate CallValid(c: Call) {
    match c
    case CallOp(op) => OpValid(op)
    case CallInterrupt(now, scripts) => now.Valid() && forall k :: OpsValid(scripts(k))
    case CallReset => true
  }

  ghost function Step(s: State, c: Call): (r: State)
    requires WakeupsValid(s.descs) && CallValid(c)
    ensures WakeupsValid(r.descs) && |r.descs| == |s.descs|
  {
    match c
    case CallOp(op) => Do(s, op)
    case CallInterrupt(now, scripts) => Scan(s, 0, now, scripts)
    case CallReset => Reset(s)
  }

  ghost function Run(s: State, cs: seq<Call>): (r: State)
    requires WakeupsValid(s.descs) && forall i :: 0 <= i < |cs| ==> CallValid(cs[i])
    ensures WakeupsValid(r.descs) && |r.descs| == |s.descs|
    decreases |cs|
  {
    if cs == [] then s else Run(Step(s, cs[0]), cs[1..])
  }

  // ------------------------------------------------------------- the simple picture

  /** A task as its owner sees it. */
  datatype Status = Out | Idle | Armed(wakeup: HostTime)

  /** The status of one task, from the history alone. */
  function StatusOf(log: seq<Event>, tm: uint32): Status {
    if log == [] then Out else
    var before := StatusOf(log[..|log| - 1], tm);
    match log[|log| - 1]
    case Inserted(t) => if t == tm then Idle else before
    case Removed(t) => if t == tm then Out else before
    case Primed(t, w) => if t == tm then Armed(w) else before
    case Fired(t, _) => if t == tm then Idle else before
    case AllRemoved => Out
  }

  /** What may happen after a given history: a firing needs its task armed, with the wakeup time
      past; a priming needs its task installed. */
  predicate EventAllowed(log: seq<Event>, e: Event) {
    && (e.Fired? ==> StatusOf(log, e.tm).Armed? && StatusOf(log, e.tm).wakeup.Micros() < e.now.Micros())
    && (e.Primed? ==> StatusOf(log, e.tm) != Out)
  }

  /** Every event was allowed when it happened. */
  predicate Legal(log: seq<Event>) {
    log == [] || (Legal(log[..|log| - 1]) && EventAllowed(log[..|log| - 1], log[|log| - 1]))
  }

  /** The status of one task, from the descriptor table and the flags in Mac memory. */
  function TableStatus(s: State, tm: uint32): Status {
    match FindDesc(s.descs, tm)
    case None => Out
    case Some(i) => if IsActive(TaskAt(s.tasks, tm)) then Armed(s.descs[i].wakeup) else Idle
  }

  predicate DistinctTasks(d: seq<Desc>) {
    forall i, j :: 0 <= i < j < |d| && d[i].inUse && d[j].inUse ==> d[i].task != d[j].task
  }

  /** The table implements the history. */
  ghost predicate Refines(s: State) {
    && WakeupsValid(s.descs) && DistinctTasks(s.descs) && Legal(s.log)
    && forall tm :: TableStatus(s, tm) == StatusOf(s.log, tm)
  }

  lemma FoundIsUnique(d: seq<Desc>, tm: uint32, i: nat)
    requires DistinctTasks(d) && i < |d| && d[i].inUse && d[i].task == tm
    ensures FindDesc(d, tm) == Some(i)
  {
  }

  lemma LogSnoc(log: seq<Event>, e: Event)
    ensures (log + [e])[..|log|] == log
  {
  }

  // ------------------------------------------------------------- flags

  lemma InsertFlags(q: bv16, trap: bv16)
    ensures InsertedType(q, trap) & ACTIVE == 0
  {
  }

  lemma DeactivateFlags(q: bv16)
    ensures (q & 0x7fff) & ACTIVE == 0
    ensures (q & 0x7fff) & EXTENDED == q & EXTENDED
  {
  }

  lemma ActivateFlags(q: bv16)
    ensures (q | ACTIVE) & ACTIVE != 0
    ensures (q | ACTIVE) & EXTENDED == q & EXTENDED
  {
  }

  // ------------------------------------------------------------- every step refines

  /** A lookup depends only on which descriptors hold the task. */
  lemma {:induction false} FindSame(d: seq<Desc>, d': seq<Desc>, tm: uint32, k: nat)
    requires |d| == |d'|
    requires forall i :: 0 <= i < |d| ==> (d[i].inUse && d[i].task == tm <==> d'[i].inUse && d'[i].task == tm)
    ensures FindFrom(d', tm, k) == FindFrom(d, tm, k)
    decreases |d| - k
  {
    if k < |d| {
      FindSame(d, d', tm, k + 1);
    }
  }

  /** The status an event gives its task. */
  function StatusAfter(e: Event): Status {
    if e.Primed? then Armed(e.wakeup) else if e.Inserted? || e.Fired? then Idle else Out
  }

  /** A step that adds one event for task tm, leaves every other task alone and gives tm the status
      the event says. */
  lemma EventRefines(s: State, s': State, e: Event, tm: uint32)
    requires Refines(s) && WakeupsValid(s'.descs) && DistinctTasks(s'.descs)
    requires s'.log == s.log + [e] && !e.AllRemoved? && e.tm == tm
    requires Legal(s'.log)
    requires TableStatus(s', tm) == StatusAfter(e)
    requires forall x: uint32 :: x != tm ==> TableStatus(s', x) == TableStatus(s, x)
    ensures Refines(s')
  {
    hide TableStatus;
    LogSnoc(s.log, e);
    forall x: uint32 ensures TableStatus(s', x) == StatusOf(s'.log, x) {
      assert TableStatus(s, x) == StatusOf(s.log, x);
    }
  }

  /** Other tasks do not notice when only tm's descriptor and record change. */
  lemma OthersKeepStatus(s: State, s': State, tm: uint32, i: nat, d: Desc, t: Task)
    requires i < |s.descs| && s'.descs == s.descs[i := d] && s'.tasks == s.tasks[tm := t]
    requires s.descs[i].inUse ==> s.descs[i].task == tm
    requires d.inUse ==> d.task == tm
    ensures forall x: uint32 :: x != tm ==> TableStatus(s', x) == TableStatus(s, x)
  {
    forall x: uint32 | x != tm ensures TableStatus(s', x) == TableStatus(s, x) {
      FindSame(s.descs, s'.descs, x, 0);
    }
  }

  lemma InsertRefines(s: State, tm: uint32, trap: bv16)
    requires Refines(s)
    ensures Refines(InsTime(s, tm, trap))
  {
    hide Refines, Legal, StatusOf, FindDesc;
    var s' := InsTime(s, tm, trap);
    var t := TaskAt(s.tasks, tm);
    RefinesFacts(s);
    InsertFlags(t.qType, trap);
    LogSnoc(s.log, Inserted(tm));
    LegalSnoc(s.log, Inserted(tm));
    var found := FindDesc(s.descs, tm);
    var free := FreeFrom(s.descs, 0);
    if found.Some? {
      FindSpec(s.descs, tm);
      assert s.descs[found.value := s.descs[found.value]] == s.descs;
      OthersKeepStatus(s, s', tm, found.value, s.descs[found.value], s'.tasks[tm]);
      EventRefines(s, s', Inserted(tm), tm);
    } else if free.Some? {
      FindSpec(s.descs, tm);
      OthersKeepStatus(s, s', tm, free.value, s'.descs[free.value], s'.tasks[tm]);
      FoundIsUnique(s'.descs, tm, free.value);
      EventRefines(s, s', Inserted(tm), tm);
    } else {
      NoEventRefines(s, s', tm);
    }
  }

  lemma FindSpec(d: seq<Desc>, tm: uint32)
    ensures var r := FindDesc(d, tm);
      && (r.Some? ==> r.value < |d| && d[r.value].inUse && d[r.value].task == tm)
      && (r.None? ==> forall i :: 0 <= i < |d| ==> !(d[i].inUse && d[i].task == tm))
  {
  }

  lemma RefinesFacts(s: State)
    requires Refines(s)
    ensures WakeupsValid(s.descs) && DistinctTasks(s.descs) && Legal(s.log)
    ensures forall tm: uint32 :: TableStatus(s, tm) == StatusOf(s.log, tm)
  {
  }

  lemma LegalSnoc(log: seq<Event>, e: Event)
    requires Legal(log)
    ensures Legal(log + [e]) <==> EventAllowed(log, e)
  {
    LogSnoc(log, e);
  }

  /** A step without an event that keeps every task's status. */
  lemma NoEventRefines(s: State, s': State, tm: uint32)
    requires Refines(s) && s'.descs == s.descs && s'.log == s.log
    requires FindDesc(s.descs, tm).None? || TaskAt(s'.tasks, tm).qType == TaskAt(s.tasks, tm).qType
    requires forall x: uint32 :: x != tm ==> TaskAt(s'.tasks, x) == TaskAt(s.tasks, x)
    ensures Refines(s')
  {
    hide FindDesc, Legal, StatusOf;
    forall x: uint32 ensures TableStatus(s', x) == StatusOf(s'.log, x) {
      assert TableStatus(s, x) == StatusOf(s.log, x);
    }
  }

  lemma RemoveRefines(s: State, tm: uint32, now: HostTime)
    requires Refines(s) && now.Valid()
    ensures WakeupsValid(s.descs) && Refines(RmvTime(s, tm, now))
  {
    hide Refines, Legal, StatusOf, FindDesc, Host2MacTime;
    RefinesFacts(s);
    var s' := RmvTime(s, tm, now);
    LegalSnoc(s.log, Removed(tm));
    FindSpec(s.descs, tm);
    var found := FindDesc(s.descs, tm);
    if found.Some? {
      var i := found.value;
      OthersKeepStatus(s, s', tm, i, s'.descs[i], s'.tasks[tm]);
      FindSpec(s'.descs, tm);
      EventRefines(s, s', Removed(tm), tm);
    }
  }

  lemma PrimeRefines(s: State, tm: uint32, time: int32, now: HostTime)
    requires Refines(s) && now.Valid() && time > -TWO31
    ensures WakeupsValid(s.descs) && Refines(PrimeTime(s, tm, time, now))
  {
    hide Refines, Legal, StatusOf, FindDesc, NextWakeup;
    RefinesFacts(s);
    var s' := PrimeTime(s, tm, time, now);
    ActivateFlags(TaskAt(s.tasks, tm).qType);
    FindSpec(s.descs, tm);
    var found := FindDesc(s.descs, tm);
    if found.Some? {
      var i := found.value;
      var e := Primed(tm, s'.descs[i].wakeup);
      assert TableStatus(s, tm) == StatusOf(s.log, tm);
      LegalSnoc(s.log, e);
      OthersKeepStatus(s, s', tm, i, s'.descs[i], s'.tasks[tm]);
      FoundIsUnique(s'.descs, tm, i);
      EventRefines(s, s', e, tm);
    }
  }

  lemma PokeRefines(s: State, tm: uint32, addr: uint32, count: int32, wakeUp: uint32)
    requires Refines(s)
    ensures Refines(Poke(s, tm, addr, count, wakeUp))
  {
    NoEventRefines(s, Poke(s, tm, addr, count, wakeUp), tm);
  }

  lemma ExpireRefines(s: State, i: nat, now: HostTime)
    requires Refines(s) && now.Valid() && i < |s.descs| && s.descs[i].wakeup.Valid() && Due(s, i, now)
    ensures Refines(Expire(s, i, now))
  {
    hide Refines, Legal, StatusOf, FindDesc;
    RefinesFacts(s);
    var tm := s.descs[i].task;
    var s' := Expire(s, i, now);
    DeactivateFlags(TaskAt(s.tasks, tm).qType);
    FoundIsUnique(s.descs, tm, i);
    assert TableStatus(s, tm) == StatusOf(s.log, tm);
    LegalSnoc(s.log, Fired(tm, now));
    assert s.descs[i := s.descs[i]] == s.descs;
    OthersKeepStatus(s, s', tm, i, s.descs[i], s'.tasks[tm]);
    EventRefines(s, s', Fired(tm, now), tm);
  }

  lemma ResetRefines(s: State)
    requires Refines(s)
    ensures Refines(Reset(s))
  {
    var s' := Reset(s);
    LogSnoc(s.log, AllRemoved);
    forall x: uint32 ensures TableStatus(s', x) == StatusOf(s'.log, x) {
      FindSpec(s'.descs, x);
    }
  }

  lemma DoRefines(s: State, op: Op)
    requires Refines(s) && OpValid(op)
    ensures Refines(Do(s, op))
  {
    hide Refines, InsTime, RmvTime, PrimeTime, Poke;
    match op
    case OpInsert(tm, trap) => InsertRefines(s, tm, trap);
    case OpRemove(tm, now) => RemoveRefines(s, tm, now);
    case OpPrime(tm, time, now) => PrimeRefines(s, tm, time, now);
    case OpPoke(tm, addr, count, wakeUp) => PokeRefines(s, tm, addr, count, wakeUp);
  }

  lemma {:induction false} DoAllRefines(s: State, ops: seq<Op>)
    requires Refines(s) && OpsValid(ops)
    ensures Refines(DoAll(s, ops))
    decreases |ops|
  {
    hide Refines, Do;
    RefinesFacts(s);
    if ops != [] {
      DoRefines(s, ops[0]);
      DoAllRefines(Do(s, ops[0]), ops[1..]);
    }
  }

  /** An interrupt refines the simple picture, whatever the timer functions do. */
  lemma {:induction false} ScanRefines(s: State, i: nat, now: HostTime, scripts: nat -> seq<Op>)
    requires Refines(s) && now.Valid() && forall k :: OpsValid(scripts(k))
    ensures Refines(Scan(s, i, now, scripts))
    decreases |s.descs| - i
  {
    hide Refines, Do, DoAll, Expire;
    RefinesFacts(s);
    if i < |s.descs| {
      if Due(s, i, now) {
        ExpireRefines(s, i, now);
        ExpireKeepsDescs(s, i, now);
        var e := Expire(s, i, now);
        DoAllRefines(e, scripts(i));
        ScanRefines(DoAll(e, scripts(i)), i + 1, now, scripts);
        ScanRefines(e, i + 1, now, scripts);
      } else {
        ScanRefines(s, i + 1, now, scripts);
      }
    }
  }

  lemma ExpireKeepsDescs(s: State, i: nat, now: HostTime)
    requires i < |s.descs|
    ensures Expire(s, i, now).descs == s.descs
  {
  }

  /** After every sequence of calls and interrupts, with any timer functions, the table implements
      the history and the history is legal. */
  lemma {:induction false} EveryRunRefines(s: State, cs: seq<Call>)
    requires Refines(s) && forall i :: 0 <= i < |cs| ==> CallValid(cs[i])
    ensures Refines(Run(s, cs))
    decreases |cs|
  {
    hide Refines, Do, Scan, Reset;
    RefinesFacts(s);
    if cs != [] {
      match cs[0] {
        case CallOp(op) => DoRefines(s, op);
        case CallInterrupt(now, scripts) => ScanRefines(s, 0, now, scripts);
        case CallReset => ResetRefines(s);
      }
      EveryRunRefines(Step(s, cs[0]), cs[1..]);
    }
  }

  // ------------------------------------------------------------- what a legal history means

  function Firings(log: seq<Event>, tm: uint32): nat {
    if log == [] then 0
    else Firings(log[..|log| - 1], tm) + if log[|log| - 1].Fired? && log[|log| - 1].tm == tm then 1 else 0
  }

  function Primings(log: seq<Event>, tm: uint32): nat {
    if log == [] then 0
    else Primings(log[..|log| - 1], tm) + if log[|log| - 1].Primed? && log[|log| - 1].tm == tm then 1 else 0
  }

  /** A task fires at most as often as it was primed; an armed task has a firing to spare. */
  lemma {:induction false} FiringsBounded(log: seq<Event>, tm: uint32)
    requires Legal(log)
    ensures Firings(log, tm) + (if StatusOf(log, tm).Armed? then 1 else 0) <= Primings(log, tm)
    decreases |log|
  {
    if log != [] {
      FiringsBounded(log[..|log| - 1], tm);
    }
  }

  /** Between a removal and the next firing of the same task there is an insertion and after it a
      priming, whose wakeup time had passed. */
  lemma FiringNeedsInsertAndPrime(log: seq<Event>, tm: uint32, i: nat, j: nat) returns (a: nat, b: nat)
    requires Legal(log) && i < j < |log|
    requires (log[i].Removed? && log[i].tm == tm) || log[i].AllRemoved?
    requires log[j].Fired? && log[j].tm == tm
    ensures i < a < b < j
    ensures log[a] == Inserted(tm)
    ensures log[b].Primed? && log[b].tm == tm && log[b].wakeup.Micros() < log[j].now.Micros()
  {
    LegalPrefix(log, j + 1);
    assert log[..j + 1][..j] == log[..j];
    b := LastPriming(log, tm, i, j);
    LegalPrefix(log, b + 1);
    assert log[..b + 1][..b] == log[..b];
    a := LastInsertion(log, tm, i, b);
  }

  lemma {:induction false} LegalPrefix(log: seq<Event>, n: nat)
    requires Legal(log) && n <= |log|
    ensures Legal(log[..n])
    decreases |log|
  {
    if n < |log| {
      LegalPrefix(log[..|log| - 1], n);
      assert log[..|log| - 1][..n] == log[..n];
    } else {
      assert log[..n] == log;
    }
  }

  /** A task that is armed at j, and was out after i, was primed in between with that time. */
  lemma {:induction false} LastPriming(log: seq<Event>, tm: uint32, i: nat, j: nat) returns (b: nat)
    requires i < j <= |log| && ((log[i].Removed? && log[i].tm == tm) || log[i].AllRemoved?)
    requires StatusOf(log[..j], tm).Armed?
    ensures i < b < j && log[b] == Primed(tm, StatusOf(log[..j], tm).wakeup)
    decreases j
  {
    assert log[..j][..j - 1] == log[..j - 1] && log[..j][j - 1] == log[j - 1];
    if log[j - 1].Primed? && log[j - 1].tm == tm {
      b := j - 1;
    } else {
      b := LastPriming(log, tm, i, j - 1);
    }
  }

  /** A task that is installed at j, and was out after i, was inserted in between. */
  lemma {:induction false} LastInsertion(log: seq<Event>, tm: uint32, i: nat, j: nat) returns (a: nat)
    requires Legal(log) && i < j <= |log| && ((log[i].Removed? && log[i].tm == tm) || log[i].AllRemoved?)
    requires StatusOf(log[..j], tm) != Out
    ensures i < a < j && log[a] == Inserted(tm)
    decreases j
  {
    assert log[..j][..j - 1] == log[..j - 1] && log[..j][j - 1] == log[j - 1];
    LegalPrefix(log, j);
    if log[j - 1] == Inserted(tm) {
      a := j - 1;
    } else {
      a := LastInsertion(log, tm, i, j - 1);
    }
  }

  // ------------------------------------------------------------- periodic tasks

  /** Task tm is installed in descriptor i as an extended task that was scheduled before. */
  ghost predicate Periodic(s: State, tm: uint32, i: nat) {
    && FindDesc(s.descs, tm) == Some(i) && i < |s.descs|
    && IsExtended(TaskAt(s.tasks, tm)) && TaskAt(s.tasks, tm).wakeUp != 0
  }

  /** The operation leaves tm alone, or primes it with delay d, or keeps its wakeup mark set. */
  predicate OnlyPrimes(op: Op, tm: uint32, d: int32) {
    match op
    case OpInsert(t, _) => t != tm
    case OpRemove(t, _) => t != tm
    case OpPrime(t, time, _) => t == tm ==> time == d
    case OpPoke(t, _, _, wakeUp) => t == tm ==> wakeUp != 0
  }

  predicate AllOnlyPrime(ops: seq<Op>, tm: uint32, d: int32) {
    forall k :: 0 <= k < |ops| ==> OnlyPrimes(ops[k], tm, d)
  }

  ghost predicate CallOnlyPrimes(c: Call, tm: uint32, d: int32) {
    match c
    case CallOp(op) => OnlyPrimes(op, tm, d)
    case CallInterrupt(_, scripts) => forall k :: AllOnlyPrime(scripts(k), tm, d)
    case CallReset => false
  }

  /** Scheduled time minus d for every priming so far: the moment the schedule started from. */
  function Origin(s: State, tm: uint32, i: nat, d: int32): int
    requires i < |s.descs|
  {
    s.descs[i].wakeup.Micros() - Primings(s.log, tm) * Duration(d)
  }

  /** tm stays periodic in descriptor i and its schedule keeps its origin. */
  ghost predicate OnSchedule(s: State, s': State, tm: uint32, i: nat, d: int32) {
    Periodic(s, tm, i) && Periodic(s', tm, i) && Origin(s', tm, i, d) == Origin(s, tm, i, d)
  }

  lemma PrimingsSnoc(log: seq<Event>, e: Event, tm: uint32)
    ensures Primings(log + [e], tm) == Primings(log, tm) + if e.Primed? && e.tm == tm then 1 else 0
  {
    LogSnoc(log, e);
  }

  lemma PrimeOnSchedule(s: State, tm: uint32, i: nat, d: int32, now: HostTime)
    requires WakeupsValid(s.descs) && DistinctTasks(s.descs) && Periodic(s, tm, i) && now.Valid() && d > -TWO31
    ensures OnSchedule(s, PrimeTime(s, tm, d, now), tm, i, d)
  {
    hide Primings, Duration;
    var s' := PrimeTime(s, tm, d, now);
    ActivateFlags(TaskAt(s.tasks, tm).qType);
    PrimingsSnoc(s.log, Primed(tm, s'.descs[i].wakeup), tm);
    FindSame(s.descs, s'.descs, tm, 0);
    var n := Primings(s.log, tm);
    assert (n + 1) * Duration(d) == n * Duration(d) + Duration(d);
  }

  /** A step that changes neither tm's descriptor nor its flags and mark, and primes it not. */
  lemma OtherOnSchedule(s: State, s': State, tm: uint32, i: nat, d: int32)
    requires Periodic(s, tm, i) && |s'.descs| == |s.descs| && s'.descs[i] == s.descs[i]
    requires forall k :: 0 <= k < |s.descs| ==>
      (s.descs[k].inUse && s.descs[k].task == tm <==> s'.descs[k].inUse && s'.descs[k].task == tm)
    requires IsExtended(TaskAt(s'.tasks, tm)) && TaskAt(s'.tasks, tm).wakeUp != 0
    requires Primings(s'.log, tm) == Primings(s.log, tm)
    ensures OnSchedule(s, s', tm, i, d)
  {
    FindSame(s.descs, s'.descs, tm, 0);
  }

  lemma DoOnSchedule(s: State, op: Op, tm: uint32, i: nat, d: int32)
    requires WakeupsValid(s.descs) && DistinctTasks(s.descs) && Periodic(s, tm, i) && OpValid(op)
    requires OnlyPrimes(op, tm, d)
    requires d > -TWO31
    ensures OnSchedule(s, Do(s, op), tm, i, d)
  {
    hide Primings, Host2MacTime, OnSchedule, NextWakeup;
    var s' := Do(s, op);
    FindSpec(s.descs, tm);
    match op {
      case OpInsert(t, trap) =>
        PrimingsSnoc(s.log, Inserted(t), tm);
        OtherOnSchedule(s, s', tm, i, d);
      case OpRemove(t, now) =>
        PrimingsSnoc(s.log, Removed(t), tm);
        OtherOnSchedule(s, s', tm, i, d);
      case OpPrime(t, time, now) =>
        if t == tm {
          PrimeOnSchedule(s, tm, i, d, now);
        } else {
          var j := FindDesc(s.descs, t);
          if j.Some? {
            PrimingsSnoc(s.log, Primed(t, s'.descs[j.value].wakeup), tm);
          }
          OtherOnSchedule(s, s', tm, i, d);
        }
      case OpPoke(t, addr, count, wakeUp) =>
        OtherOnSchedule(s, s', tm, i, d);
    }
  }

  lemma {:induction false} DoAllOnSchedule(s: State, ops: seq<Op>, tm: uint32, i: nat, d: int32)
    requires Refines(s) && WakeupsValid(s.descs) && Periodic(s, tm, i) && OpsValid(ops) && AllOnlyPrime(ops, tm, d)
    requires d > -TWO31
    ensures OnSchedule(s, DoAll(s, ops), tm, i, d)
    decreases |ops|
  {
    hide Do, Refines, Primings;
    RefinesFacts(s);
    if ops != [] {
      DoOnSchedule(s, ops[0], tm, i, d);
      DoRefines(s, ops[0]);
      DoAllOnSchedule(Do(s, ops[0]), ops[1..], tm, i, d);
    }
  }

  lemma ExpireOnSchedule(s: State, j: nat, now: HostTime, tm: uint32, i: nat, d: int32)
    requires Periodic(s, tm, i) && j < |s.descs|
    ensures OnSchedule(s, Expire(s, j, now), tm, i, d)
  {
    hide Primings;
    var t := s.descs[j].task;
    DeactivateFlags(TaskAt(s.tasks, t).qType);
    PrimingsSnoc(s.log, Fired(t, now), tm);
    OtherOnSchedule(s, Expire(s, j, now), tm, i, d);
  }

  lemma {:induction false} ScanOnSchedule(s: State, j: nat, now: HostTime, scripts: nat -> seq<Op>, tm: uint32, i: nat,
                                          d: int32)
    requires Refines(s) && WakeupsValid(s.descs) && Periodic(s, tm, i) && now.Valid() && d > -TWO31
    requires forall k :: OpsValid(scripts(k)) && AllOnlyPrime(scripts(k), tm, d)
    ensures OnSchedule(s, Scan(s, j, now, scripts), tm, i, d)
    decreases |s.descs| - j
  {
    hide Refines, Do, DoAll, Expire, Due, Primings, OpsValid, AllOnlyPrime;
    if j < |s.descs| {
      assert OpsValid(scripts(j)) && AllOnlyPrime(scripts(j), tm, d);
      if Due(s, j, now) {
        ExpireRefines(s, j, now);
        ExpireKeepsDescs(s, j, now);
        ExpireOnSchedule(s, j, now, tm, i, d);
        var e := Expire(s, j, now);
        DoAllOnSchedule(e, scripts(j), tm, i, d);
        DoAllRefines(e, scripts(j));
        ScanOnSchedule(DoAll(e, scripts(j)), j + 1, now, scripts, tm, i, d);
        ScanOnSchedule(e, j + 1, now, scripts, tm, i, d);
      } else {
        ScanOnSchedule(s, j + 1, now, scripts, tm, i, d);
      }
    }
  }

  /** Drift-free periodic tasks: however late the interrupts run and whatever other tasks do, an
      extended task that is re-primed k times with delay d is scheduled exactly k*d later. */
  lemma {:induction false} PeriodicTaskDoesNotDrift(s: State, cs: seq<Call>, tm: uint32, i: nat, d: int32)
    requires Refines(s) && WakeupsValid(s.descs) && Periodic(s, tm, i) && d > -TWO31
    requires forall k :: 0 <= k < |cs| ==> CallValid(cs[k]) && CallOnlyPrimes(cs[k], tm, d)
    ensures var r := Run(s, cs);
      && Periodic(r, tm, i)
      && r.descs[i].wakeup.Micros() ==
         s.descs[i].wakeup.Micros() + (Primings(r.log, tm) - Primings(s.log, tm)) * Duration(d)
    decreases |cs|
  {
    hide Do, Refines, Primings, Scan, Duration;
    if cs != [] {
      var c := cs[0];
      assert CallValid(c) && CallOnlyPrimes(c, tm, d);
      match c {
        case CallOp(op) =>
          RefinesFacts(s);
          DoOnSchedule(s, op, tm, i, d);
          DoRefines(s, op);
        case CallInterrupt(now, scripts) =>
          ScanOnSchedule(s, 0, now, scripts, tm, i, d);
          ScanRefines(s, 0, now, scripts);
      }
      var s' := Step(s, c);
      PeriodicTaskDoesNotDrift(s', cs[1..], tm, i, d);
      var r := Run(s', cs[1..]);
      SumOfSteps(Primings(s.log, tm), Primings(s'.log, tm), Primings(r.log, tm), Duration(d));
    }
  }

  lemma SumOfSteps(a: int, b: int, c: int, d: int)
    ensures (c - a) * d == (c - b) * d + (b - a) * d == c * d - a * d
    ensures (b - a) * d == b * d - a * d
  {
  }

  // ------------------------------------------------------------- removing and resuming

  /** Removing an active task, inserting it again as a standard task and priming it with the count
      RmvTime left behind schedules it for the time that remained, counted from the new moment:
      exactly, if no more than 0x7fffffff microseconds remained; otherwise less than a
      millisecond early. An overdue task becomes due at once. */
  lemma ResumeKeepsRemainingTime(s: State, tm: uint32, i: nat, trap: bv16, now1: HostTime, now2: HostTime)
    requires WakeupsValid(s.descs) && DistinctTasks(s.descs) && FindDesc(s.descs, tm) == Some(i) && i < |s.descs|
    requires IsActive(TaskAt(s.tasks, tm)) && trap & 0x0400 == 0 && now1.Valid() && now2.Valid()
    requires s.descs[i].wakeup.Micros() - now1.Micros() < TWO31 * 1000
    ensures var left := s.descs[i].wakeup.Micros() - now1.Micros();
      var s2 := InsTime(RmvTime(s, tm, now1), tm, trap);
      var count := TaskAt(s2.tasks, tm).count;
      && WakeupsValid(s2.descs) && count > -TWO31
      && var s3 := PrimeTime(s2, tm, count, now2);
         && FindDesc(s3.descs, tm).Some? && FindDesc(s3.descs, tm).value < |s3.descs|
         && var again := s3.descs[FindDesc(s3.descs, tm).value].wakeup.Micros() - now2.Micros();
            && (left < 0 ==> again == 0)
            && (0 <= left <= 0x7fff_ffff ==> again == left)
            && (0 <= left ==> 0 <= left - again < 1000)
  {
    hide Host2MacTime, Mac2HostTime, Duration;
    var s1 := RmvTime(s, tm, now1);
    var rest := SubTime(s.descs[i].wakeup, now1);
    FreedIsFound(s, s1, tm, i);
    var s2 := InsTime(s1, tm, trap);
    var j := FreeFrom(s1.descs, 0).value;
    FoundIsUnique(s2.descs, tm, j);
    StandardFlags(TaskAt(s1.tasks, tm).qType, trap);
    CountIsPrimable(rest);
    assert TaskAt(s2.tasks, tm).count == Host2MacTime(rest);
    var s3 := PrimeTime(s2, tm, Host2MacTime(rest), now2);
    FoundIsUnique(s3.descs, tm, j);
    EncodingIsCloseIff(rest);
  }

  lemma FreedIsFound(s: State, s1: State, tm: uint32, i: nat)
    requires DistinctTasks(s.descs) && FindDesc(s.descs, tm) == Some(i) && i < |s.descs|
    requires s1.descs == s.descs[i := s.descs[i].(inUse := false)]
    ensures FindDesc(s1.descs, tm).None? && FreeFrom(s1.descs, 0).Some?
  {
    FindSpec(s.descs, tm);
    assert !s1.descs[i].inUse;
  }

  lemma StandardFlags(q: bv16, trap: bv16)
    requires trap & 0x0400 == 0
    ensures InsertedType(q, trap) & EXTENDED == 0
  {
  }

  /** The descriptor the task gets when it is removed and inserted again: the first free one, or its
      own if that comes first. */
  function ClaimedAgain(d: seq<Desc>, i: nat): nat {
    var free := FreeFrom(d, 0);
    if free.Some? && free.value < i then free.value else i
  }

  lemma InsertedAgain(s: State, tm: uint32, i: nat, trap: bv16, now: HostTime)
    requires WakeupsValid(s.descs) && DistinctTasks(s.descs) && FindDesc(s.descs, tm) == Some(i) && i < |s.descs|
    requires trap & 0x0400 != 0 && now.Valid()
    ensures var s', j := InsTime(RmvTime(s, tm, now), tm, trap), ClaimedAgain(s.descs, i);
      && WakeupsValid(s'.descs) && FindDesc(s'.descs, tm) == Some(j) && j < |s'.descs| == |s.descs|
      && s'.descs[j].wakeup == s.descs[j].wakeup
      && IsExtended(TaskAt(s'.tasks, tm)) && TaskAt(s'.tasks, tm).wakeUp == TaskAt(s.tasks, tm).wakeUp
  {
    hide Host2MacTime, InsertedType, FindDesc;
    var s1 := RmvTime(s, tm, now);
    FindSpec(s.descs, tm);
    FreedIsFound(s, s1, tm, i);
    FindSpec(s1.descs, tm);
    FreedIsClaimed(s.descs, i, 0);
    ExtendedFlags(TaskAt(s1.tasks, tm).qType, trap);
    FoundIsUnique(InsTime(s1, tm, trap).descs, tm, ClaimedAgain(s.descs, i));
  }

  lemma PrimedOnSchedule(s: State, tm: uint32, j: nat, time: int32, now: HostTime)
    requires WakeupsValid(s.descs) && FindDesc(s.descs, tm) == Some(j) && j < |s.descs| && now.Valid() && time > -TWO31
    requires IsExtended(TaskAt(s.tasks, tm)) && TaskAt(s.tasks, tm).wakeUp != 0
    ensures var s' := PrimeTime(s, tm, time, now);
      && FindDesc(s'.descs, tm) == Some(j) && j < |s'.descs| == |s.descs|
      && s'.descs[j].wakeup.Micros() == s.descs[j].wakeup.Micros() + Duration(time)
  {
    hide Mac2HostTime, Duration, IsExtended, PrimedTask;
    FindSame(s.descs, PrimeTime(s, tm, time, now).descs, tm, 0);
  }

  /** An extended task that is removed, inserted again and primed while still marked as scheduled
      counts its delay from the time last stored in the descriptor it gets, whosever that was. It
      goes on with its own schedule if and only if no descriptor before its own was free, or the
      first of them holds the same time. */
  lemma ResumedScheduleIff(s: State, tm: uint32, i: nat, trap: bv16, time: int32, now1: HostTime, now2: HostTime)
    requires WakeupsValid(s.descs) && DistinctTasks(s.descs) && FindDesc(s.descs, tm) == Some(i) && i < |s.descs|
    requires trap & 0x0400 != 0 && TaskAt(s.tasks, tm).wakeUp != 0 && time > -TWO31 && now1.Valid() && now2.Valid()
    ensures var s2 := InsTime(RmvTime(s, tm, now1), tm, trap);
      && WakeupsValid(s2.descs)
      && var s3, j := PrimeTime(s2, tm, time, now2), ClaimedAgain(s.descs, i);
         && FindDesc(s3.descs, tm) == Some(j) && j < |s3.descs| == |s.descs|
         && s3.descs[j].wakeup.Micros() == s.descs[j].wakeup.Micros() + Duration(time)
         && (s3.descs[j].wakeup.Micros() == s.descs[i].wakeup.Micros() + Duration(time) <==>
             || (forall k :: 0 <= k < i ==> s.descs[k].inUse)
             || s.descs[j].wakeup.Micros() == s.descs[i].wakeup.Micros())
  {
    hide InsTime, RmvTime, PrimeTime, FindDesc, Duration, IsExtended;
    InsertedAgain(s, tm, i, trap, now1);
    PrimedOnSchedule(InsTime(RmvTime(s, tm, now1), tm, trap), tm, ClaimedAgain(s.descs, i), time, now2);
  }

  lemma {:induction false} FreedIsClaimed(d: seq<Desc>, i: nat, k: nat)
    requires k <= i < |d|
    ensures var free := FreeFrom(d, k);
      FreeFrom(d[i := d[i].(inUse := false)], k) == Some(if free.Some? && free.value < i then free.value else i)
    decreases i - k
  {
    if k < i {
      FreedIsClaimed(d, i, k + 1);
    }
  }

  lemma ExtendedFlags(q: bv16, trap: bv16)
    requires trap & 0x0400 != 0
    ensures InsertedType(q, trap) & EXTENDED != 0
  {
  }

  lemma CountIsPrimable(t: HostTime)
    requires t.Valid() && t.Micros() < TWO31 * 1000
    ensures Host2MacTime(t) > -TWO31
    ensures t.Micros() < 0 ==> Duration(Host2MacTime(t)) == 0
  {
    if t.Micros() > 0x7fff_ffff {
      assert 0 <= t.Micros() / 1000 < TWO31;
    }
  }
}
