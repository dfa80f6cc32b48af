/** The SCSI Manager proper: the entry points, on the fixed scatter/gather arrays. */
module ScsiManager {
  import opened MacMemory
  import opened ScatterGather
  import opened TibInterpreter
  import opened ScsiTransfer
  import opened ScsiProtocol
  import opened ScsiAdapter

  /** The used parts of the pointer and length arrays, as a table. */
  function Zip(ptrs: seq<uint32>, lens: seq<uint32>): (t: Table)
    requires |ptrs| == |lens|
    ensures |t| == |ptrs| && forall i :: 0 <= i < |t| ==> t[i] == Range(ptrs[i], lens[i])
  {
    seq(|ptrs|, i requires 0 <= i < |ptrs| => Range(ptrs[i], lens[i]))
  }

  class Manager {
    const ram: MacRam
    const adapter: Adapter
    var phase: Phase
    var fakeStatus: uint16
    var targetId: int
    var reading: bool
    var sgIndex: nat
    const sgPtr: array<uint32>
    const sgLen: array<uint32>
    var sgTotalLength: uint32

    constructor (adapter: Adapter)
      requires adapter.Valid()
      ensures Valid() && this.adapter == adapter && State() == POWER_ON
    {
      this.adapter, this.ram := adapter, adapter.ram;
      phase, fakeStatus, targetId, reading := Free, 0x0000, 8, false;
      sgPtr := new uint32[SG_TABLE_SIZE];
      sgLen := new uint32[SG_TABLE_SIZE];
      sgIndex, sgTotalLength := 0, 0;
    }

    ghost predicate Valid()
      reads this, adapter
    {
      && ram == adapter.ram && adapter.Valid()
      && sgPtr != sgLen && sgPtr.Length == SG_TABLE_SIZE && sgLen.Length == SG_TABLE_SIZE
      && Apart(sgPtr) && Apart(sgLen)
      && sgIndex <= SG_TABLE_SIZE
    }

    /** The table arrays are not the adapter's buffers. */
    ghost predicate Apart(a: object)
      reads this, adapter
    {
      a != adapter.buffer && a != adapter.cmdBuffer && a != adapter.senseBuffer
    }

    ghost function SgTable(): (t: Table)
      requires sgPtr.Length == SG_TABLE_SIZE && sgLen.Length == SG_TABLE_SIZE && sgIndex <= SG_TABLE_SIZE
      reads this, sgPtr, sgLen
      ensures |t| == sgIndex
    {
      Zip(sgPtr[..sgIndex], sgLen[..sgIndex])
    }

    /** The abstract bus this object implements. */
    ghost function State(): Bus
      requires sgPtr.Length == SG_TABLE_SIZE && sgLen.Length == SG_TABLE_SIZE && sgIndex <= SG_TABLE_SIZE
      reads this, sgPtr, sgLen
    {
      Bus(phase, fakeStatus, targetId, reading, SgTable(), sgTotalLength)
    }

    method Reset() returns (code: int)
      requires Valid()
      modifies this
      ensures Valid() && (State(), code) == ScsiProtocol.Reset(old(State()))
    {
      phase, fakeStatus, sgIndex, targetId := Free, 0x0000, 0, 8;
      return 0;
    }

    method Get() returns (code: int)
      requires Valid()
      modifies this
      ensures Valid() && (State(), code) == ScsiProtocol.Get(old(State()))
    {
      if phase != Free {
        return SC_MGR_BUSY_ERR;
      }
      phase, fakeStatus, reading, sgIndex, sgTotalLength := Arbitrated, 0x0040, false, 0, 0;
      return 0;
    }

    method Select(id: int) returns (code: int)
      requires Valid()
      modifies this
      ensures Valid() && (State(), code) == ScsiProtocol.Select(old(State()), id, adapter.TargetPresent(id))
    {
      if phase != Arbitrated {
        return SC_SEQUENCE_ERR;
      }
      if 0 <= id <= 7 {
        targetId := id;
        if adapter.TargetPresent(targetId) {
          phase, fakeStatus := Selected, 0x006a;
          return 0;
        }
      }
      phase, fakeStatus := Free, 0x0000;
      return SC_COMM_ERR;
    }

    /** The logical unit is taken from the top three bits of the second command byte. */
    method Cmd(length: int, cmd: seq<byte>) returns (code: int)
      requires Valid() && (length in {6, 10, 12} ==> |cmd| == length)
      modifies this, adapter, adapter.cmdBuffer
      ensures Valid()
      ensures var unit := if length in {6, 10, 12} then old(targetId) * 8 + cmd[1] / 32 else 0;
        (State(), code) == Command(old(State()), length, unit in adapter.units)
      ensures code == 0 ==> adapter.cmdBuffer[..length] == cmd && adapter.active == old(targetId) * 8 + cmd[1] / 32
    {
      if phase != Selected {
        return SC_PHASE_ERR;
      }
      if length != 6 && length != 10 && length != 12 {
        return SC_BAD_PARMS_ERR;
      }
      adapter.SetCommand(cmd);
      var ok := adapter.SetTarget(targetId, cmd[1] / 32);
      if !ok {
        phase, fakeStatus := Free, 0x0000;
        return SC_COMM_ERR;
      }
      phase, fakeStatus := DataTransfer, 0x006e;
      return 0;
    }

    /** Merge one range into the table, or open a new entry for it. */
    method Add(r: Range) returns (ok: bool)
      requires Valid()
      modifies this`sgIndex, sgPtr, sgLen
      ensures Valid()
      ensures ok == AddRange(old(SgTable()), r).Some?
      ensures SgTable() == if ok then AddRange(old(SgTable()), r).value else old(SgTable())
    {
      if sgIndex > 0 && r.ptr == sgPtr[sgIndex - 1] as int + sgLen[sgIndex - 1] {
        sgLen[sgIndex - 1] := Wrap(sgLen[sgIndex - 1] as int + r.len);
        return true;
      }
      if sgIndex == SG_TABLE_SIZE {
        return false;
      }
      sgPtr[sgIndex] := r.ptr;
      sgLen[sgIndex] := r.len;
      sgIndex := sgIndex + 1;
      return true;
    }

    /** The interpreter loop. Nothing bounds it in the program: `steps` is only a witness that
        this TIB stops at all. */
    method ExecTib(tib: uint32, ghost steps: nat) returns (code: int)
      requires Valid() && Halts(Start(State(), ram.bytes, tib), steps)
      modifies this`sgIndex, this`sgTotalLength, sgPtr, sgLen, ram
      ensures Valid()
      ensures var o := old(Run(Start(State(), ram.bytes, tib), steps));
        && code == o.code && SgTable() == o.s.table && sgTotalLength == o.s.total && ram.bytes == o.s.mem
    {
      hide Run, Read16, Read32, Write32, Wrap, AddRange;
      ghost var first := Start(State(), ram.bytes, tib);
      ghost var left := steps;
      var pc: int := tib;
      RunOne(first, left);
      while true
        invariant Valid() && 0 <= pc < TWO32
        invariant Run(TibInterpreter.State(ram.bytes, pc, SgTable(), sgTotalLength), left) == Run(first, steps)
        invariant Run(first, steps).Halted?
        decreases left
      {
        ghost var s := TibInterpreter.State(ram.bytes, pc, SgTable(), sgTotalLength);
        RunOne(s, left);
        var cmd := Read16(ram.bytes, pc);
        var ptr: int := Read32(ram.bytes, Wrap(pc + 2));
        var len: int := Read32(ram.bytes, Wrap(pc + 6));
        pc := Wrap(pc + 10);
        if cmd == SC_INC || cmd == SC_NO_INC {
          if cmd == SC_INC {
            ram.bytes := Write32(ram.bytes, Wrap(pc - 8), Wrap(ptr + len));
          }
          var ok := Add(Range(ptr, len));
          if !ok {
            return MEM_FULL_ERR;
          }
          sgTotalLength := Wrap(sgTotalLength + len);
        } else if cmd == SC_ADD {
          ram.bytes := Write32(ram.bytes, ptr, Wrap(Read32(ram.bytes, ptr) + len));
        } else if cmd == SC_MOVE {
          ram.bytes := Write32(ram.bytes, len, Read32(ram.bytes, ptr));
        } else if cmd == SC_LOOP {
          ram.bytes := Write32(ram.bytes, Wrap(pc - 4), Wrap(len - 1));
          if Wrap(len - 1) > 0 {
            pc := Wrap(pc + ptr - 10);
          }
        } else if cmd == SC_NOP {
        } else if cmd == SC_STOP {
          return 0;
        } else if cmd == SC_COMP {
          return SC_COMPARE_ERR;
        } else {
          return SC_BAD_PARMS_ERR;
        }
        left := left - 1;
      }
    }

    method Read(tib: uint32, ghost steps: nat) returns (code: int)
      requires Valid() && (phase == DataTransfer ==> Halts(Start(State(), ram.bytes, tib), steps))
      modifies this, sgPtr, sgLen, ram
      ensures Valid()
      ensures if old(phase) != DataTransfer then
          State() == old(State()) && code == SC_PHASE_ERR && ram.bytes == old(ram.bytes)
        else
          var (b, o) := old(Transfers(State(), true, ram.bytes, tib, steps));
          State() == b && code == o.code && ram.bytes == o.s.mem
    {
      hide Run;
      if phase != DataTransfer {
        return SC_PHASE_ERR;
      }
      reading := true;
      code := ExecTib(tib, steps);
    }

    method Write(tib: uint32, ghost steps: nat) returns (code: int)
      requires Valid() && (phase == DataTransfer ==> Halts(Start(State(), ram.bytes, tib), steps))
      modifies this, sgPtr, sgLen, ram
      ensures Valid()
      ensures if old(phase) != DataTransfer then
          State() == old(State()) && code == SC_PHASE_ERR && ram.bytes == old(ram.bytes)
        else
          var (b, o) := old(Transfers(State(), false, ram.bytes, tib, steps));
          State() == b && code == o.code && ram.bytes == o.s.mem
    {
      hide Run;
      if phase != DataTransfer {
        return SC_PHASE_ERR;
      }
      code := ExecTib(tib, steps);
    }

    /** Send the command and move the data. The message word is cleared before, the status word
        stored after the transfer, which takes memory from `old(...)` with the cleared word to `moved`. */
    method Complete(message: uint32, statusAddr: uint32, canAllocate: bool, reply: DeviceReply)
      returns (code: int, sent: seq<byte>, ghost moved: Memory)
      requires Valid()
      requires phase == DataTransfer ==>
        && sgTotalLength == TotalLength(SgTable())  // less than 4 GB were asked for
        && |reply.data| <= sgTotalLength && |reply.sense| <= SENSE_LENGTH
        && (adapter.SenseAvailable() && adapter.Direct(SgTable()) ==> sgTotalLength <= adapter.buffer.Length)
      modifies this`phase, this`fakeStatus, ram
      modifies adapter`buffer, adapter`senseActual, adapter.buffer, adapter.senseBuffer
      ensures Valid()
      ensures State() == ScsiProtocol.Complete(old(State()), code == 0).0
      ensures old(phase) != DataTransfer ==>
        code == SC_PHASE_ERR && sent == [] && ram.bytes == Write16(old(ram.bytes), message, 0)
      ensures old(phase) == DataTransfer ==>
        var m, t := Write16(old(ram.bytes), message, 0), old(SgTable());
        var room := adapter.Direct(t) || TotalLength(t) <= old(adapter.buffer.Length) || canAllocate;
        && code in {0, SC_COMM_ERR}
        && (!room ==> code == SC_COMM_ERR && sent == [] && moved == m && ram.bytes == Write16(m, statusAddr, 0))
        && (room && old(adapter.SenseAvailable()) ==>
              && adapter.SenseAnswered(code == 0, reading, t, m, moved,
                old(adapter.senseBuffer[..adapter.senseActual]), sent)
              && ram.bytes == Write16(moved, statusAddr, 0))
        && (room && !old(adapter.SenseAvailable()) ==>
              && adapter.CommandAnswered(code == 0, reply.status, reading, t, m, moved, reply, sent)
              && ram.bytes == Write16(moved, statusAddr, reply.status))
    {
      ram.bytes := Write16(ram.bytes, message, 0);
      moved := ram.bytes;
      if phase != DataTransfer {
        return SC_PHASE_ERR, [], moved;
      }
      var table := Zip(sgPtr[..sgIndex], sgLen[..sgIndex]);
      var success, stat, data := adapter.SendCommand(sgTotalLength, reading, table, canAllocate, reply);
      moved := ram.bytes;
      ram.bytes := Write16(ram.bytes, statusAddr, stat);
      phase, fakeStatus := Free, 0x0000;
      return if success then 0 else SC_COMM_ERR, data, moved;
    }
  }

  /** When less than 4 GB were asked for since the last arbitration, the recorded total is the
      table's exact length, and the table moves byte for byte what the TIBs asked for: the device
      is sent the concatenation of all requested ranges, and an answer is spread over them. */
  lemma CompleteMovesWhatWasAsked(cs: seq<Call>, m: Memory, data: seq<byte>)
    requires After(cs).phase == DataTransfer && TotalLength(Account(cs).ranges) < TWO32
    ensures var b, rs := After(cs), Account(cs).ranges;
      && b.total == TotalLength(b.table) == TotalLength(rs)
      && Gather(m, b.table) == Gather(m, rs)
      && (|data| == b.total ==> Scatter(m, b.table, data) == Scatter(m, rs, data))
  {
    hide Do, After, Account, AddAll, AddRange, Gather, Scatter, TotalLength, NoLongChain, Wrap;
    var rs := Account(cs).ranges;
    EveryRunMatchesLedger(cs);
    WrapSmall(TotalLength(rs));
    ShortTotalHasNoLongChain(rs);
    var zeros: seq<byte> := seq(TotalLength(rs), _ => 0);
    MergedTableMovesSameData(m, rs, zeros);
    if |data| == After(cs).total {
      MergedTableMovesSameData(m, rs, data);
    }
  }

  lemma ShortTotalHasNoLongChain(rs: seq<Range>)
    requires TotalLength(rs) < TWO32
    ensures NoLongChain(rs)
  {
    forall i, j | 0 <= i <= j <= |rs| && Chained(rs, i, j)
      ensures TotalLength(rs[i..j]) < TWO32
    {
      assert rs == rs[..i] + rs[i..] && rs[i..] == rs[i..j] + rs[j..];
      ExpandConcat(rs[..i], rs[i..]);
      ExpandConcat(rs[i..j], rs[j..]);
    }
  }

  /** A run that halts takes at least one instruction, and continues with the state after it. */
  lemma RunOne(s: State, n: nat)
    requires Halts(s, n)
    ensures n > 0
    ensures Step(s).Halted? ==> Run(s, n) == Step(s)
    ensures Step(s).Running? ==> Run(s, n) == Run(Step(s).s, n - 1)
  {
  }
}
