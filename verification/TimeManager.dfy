/** The Time Manager as the program runs it: a fixed descriptor array and task records in memory. */
module TimeManager {
  import opened MacMemory
  import opened MacTime
  import opened TimerModel

  const START_OF_TIME: HostTime := HostTime(0, 0)

  class Manager {
    const desc: array<Desc>
    var tasks: Tasks
    ghost var log: seq<Event>

    /** The abstract Time Manager this object implements. */
    ghost function Model(): State
      reads this, desc
    {
      State(desc[..], tasks, log)
    }

    ghost predicate Valid()
      reads this, desc
    {
      desc.Length == NUM_DESCS && Refines(Model()) && WakeupsValid(desc[..])
    }

    constructor (tasks: Tasks)
      ensures Valid() && fresh(desc) && this.tasks == tasks && log == []
    {
      desc := new Desc[NUM_DESCS](_ => Desc(0, START_OF_TIME, false));
      this.tasks, this.log := tasks, [];
      new;
      assert forall i :: 0 <= i < NUM_DESCS ==> !desc[..][i].inUse;
      forall tm: uint32 ensures TableStatus(Model(), tm) == StatusOf(log, tm) {
        FindSpec(desc[..], tm);
      }
    }

    /** Take the first free descriptor for a task; -1 if there is none. */
    method AllocDesc(tm: uint32) returns (r: int)
      requires desc.Length == NUM_DESCS
      modifies desc
      ensures match FreeFrom(old(desc[..]), 0)
              case None => r == -1 && desc[..] == old(desc[..])
              case Some(i) =>
                r == i && i < desc.Length &&
                desc[..] == old(desc[..])[i := old(desc[..])[i].(task := tm, inUse := true)]
    {
      for i := 0 to NUM_DESCS
        invariant desc[..] == old(desc[..]) && FreeFrom(desc[..], 0) == FreeFrom(desc[..], i)
      {
        if !desc[i].inUse {
          desc[i] := desc[i].(task := tm, inUse := true);
          return i;
        }
      }
      return -1;
    }

    method Find(tm: uint32) returns (r: int)
      requires desc.Length == NUM_DESCS
      ensures match FindDesc(desc[..], tm)
              case None => r == -1
              case Some(i) => r == i && i < desc.Length
    {
      for i := 0 to NUM_DESCS
        invariant FindDesc(desc[..], tm) == FindFrom(desc[..], tm, i)
      {
        if desc[i].inUse && desc[i].task == tm {
          return i;
        }
      }
      return -1;
    }

    method InsTime(tm: uint32, trap: bv16)
      requires Valid()
      modifies this, desc
      ensures Valid() && Model() == TimerModel.InsTime(old(Model()), tm, trap)
    {
      hide Refines, StatusOf, Legal, TableStatus, InsertedType, FreeFrom, FindDesc, WakeupsValid;
      ghost var before := desc[..];
      InsertRefines(Model(), tm, trap);
      var t := TaskAt(tasks, tm);
      tasks := tasks[tm := t.(qType := InsertedType(t.qType, trap))];
      var i := Find(tm);
      if i < 0 {
        i := AllocDesc(tm);
        if i >= 0 {
          ClaimKeepsWakeups(before, i, tm);
        }
      }
      if i >= 0 {
        log := log + [Inserted(tm)];
      }
    }

    method RmvTime(tm: uint32, now: HostTime)
      requires Valid() && now.Valid()
      modifies this, desc
      ensures Valid() && WakeupsValid(old(Model()).descs) && Model() == TimerModel.RmvTime(old(Model()), tm, now)
    {
      hide Refines;
      RemoveRefines(Model(), tm, now);
      var i := Find(tm);
      if i < 0 {
        return;
      }
      var t := TaskAt(tasks, tm);
      if IsActive(t) {
        var remaining := SubTime(desc[i].wakeup, now);
        tasks := tasks[tm := t.(qType := t.qType & 0x7fff, count := Host2MacTime(remaining))];
      } else {
        tasks := tasks[tm := t.(count := 0)];
      }
      desc[i] := desc[i].(inUse := false);
      log := log + [Removed(tm)];
    }

    method PrimeTime(tm: uint32, time: int32, now: HostTime)
      requires Valid() && now.Valid() && time > -TWO31
      modifies this, desc
      ensures Valid() && WakeupsValid(old(Model()).descs)
      ensures Model() == TimerModel.PrimeTime(old(Model()), tm, time, now)
    {
      hide Refines, AddTime, Mac2HostTime, FindDesc, NextWakeup, PrimedTask;
      PrimeRefines(Model(), tm, time, now);
      var i := Find(tm);
      if i < 0 {
        return;
      }
      var t := TaskAt(tasks, tm);
      var delay := Mac2HostTime(time);
      var wakeup;
      var mark := t.wakeUp;
      if IsExtended(t) {
        if t.wakeUp != 0 {
          wakeup := AddTime(desc[i].wakeup, delay);
        } else {
          wakeup := AddTime(now, delay);
        }
        mark := 0x1234_5678;
      } else {
        wakeup := AddTime(now, delay);
      }
      NextWakeupIs(desc[i], t, time, now, wakeup);
      assert desc[i].wakeup == old(desc[..])[i].wakeup;
      desc[i] := desc[i].(wakeup := wakeup);
      assert desc[..] == old(desc[..])[i := old(desc[..])[i].(wakeup := wakeup)];
      PrimedTaskIs(t, mark);
      tasks := tasks[tm := Task(t.qType | ACTIVE, t.addr, t.count, mark)];
      log := log + [Primed(tm, wakeup)];
    }

    /** What a timer function does. */
    method Perform(ops: seq<Op>)
      requires Valid() && OpsValid(ops)
      modifies this, desc
      ensures Valid() && WakeupsValid(old(Model()).descs) && Model() == DoAll(old(Model()), ops)
    {
      hide Refines, TimerModel.InsTime, TimerModel.RmvTime, TimerModel.PrimeTime;
      var k := 0;
      assert ops[0..] == ops;
      while k < |ops|
        invariant k <= |ops| && Valid() && WakeupsValid(old(Model()).descs)
        invariant OpsValid(ops[k..]) && DoAll(Model(), ops[k..]) == DoAll(old(Model()), ops)
      {
        assert ops[k..][0] == ops[k] && ops[k..][1..] == ops[k + 1..];
        match ops[k] {
          case OpInsert(tm, trap) => InsTime(tm, trap);
          case OpRemove(tm, now) => RmvTime(tm, now);
          case OpPrime(tm, time, now) => PrimeTime(tm, time, now);
          case OpPoke(tm, addr, count, wakeUp) =>
            PokeRefines(Model(), tm, addr, count, wakeUp);
            tasks := tasks[tm := Task(TaskAt(tasks, tm).qType, addr, count, wakeUp)];
        }
        k := k + 1;
      }
    }

    /** The 60 Hz interrupt: run the function of every task that is due, in table order. */
    method TimerInterrupt(now: HostTime, scripts: nat -> seq<Op>)
      requires Valid() && now.Valid() && forall k :: OpsValid(scripts(k))
      modifies this, desc
      ensures Valid() && WakeupsValid(old(Model()).descs) && Model() == Scan(old(Model()), 0, now, scripts)
    {
      hide Refines, DoAll, OpsValid;
      for i := 0 to NUM_DESCS
        invariant Valid() && WakeupsValid(old(Model()).descs)
        invariant Scan(Model(), i, now, scripts) == Scan(old(Model()), 0, now, scripts)
      {
        if desc[i].inUse {
          var tm := desc[i].task;
          var t := TaskAt(tasks, tm);
          if IsActive(t) && CmpTime(desc[i].wakeup, now) < 0 {
            ExpireRefines(Model(), i, now);
            tasks := tasks[tm := t.(qType := t.qType & 0x7fff)];
            log := log + [Fired(tm, now)];
            var addr := TaskAt(tasks, tm).addr;
            if addr != 0 {
              Perform(scripts(i));
            }
          }
        }
      }
    }

    /** Emulator reset: all descriptors become free. */
    method TimerReset()
      requires Valid()
      modifies this, desc
      ensures Valid() && Model() == Reset(old(Model()))
    {
      hide Refines;
      ResetRefines(Model());
      for i := 0 to NUM_DESCS
        invariant tasks == old(tasks) && log == old(log)
        invariant forall k :: 0 <= k < NUM_DESCS ==>
          desc[k] == if k < i then old(desc[k]).(inUse := false) else old(desc[k])
      {
        desc[i] := desc[i].(inUse := false);
      }
      log := log + [AllRemoved];
      assert desc[..] == Reset(old(Model())).descs;
    }
  }

  lemma NextWakeupIs(d: Desc, t: Task, time: int32, now: HostTime, w: HostTime)
    requires now.Valid() && d.wakeup.Valid() && time > -TWO31
    requires w == if IsExtended(t) && t.wakeUp != 0 then AddTime(d.wakeup, Mac2HostTime(time))
      else AddTime(now, Mac2HostTime(time))
    ensures w == NextWakeup(d, t, time, now)
  {
  }

  lemma PrimedTaskIs(t: Task, mark: uint32)
    requires mark == if IsExtended(t) then 0x1234_5678 else t.wakeUp
    ensures PrimedTask(t) == Task(t.qType | ACTIVE, t.addr, t.count, mark)
  {
  }

  lemma ClaimKeepsWakeups(d: seq<Desc>, i: nat, tm: uint32)
    requires WakeupsValid(d) && i < |d|
    ensures WakeupsValid(d[i := d[i].(task := tm, inUse := true)])
  {
  }
}
