/** The AmigaOS back end: one transfer buffer between the device and the scatter/gather table. */
module ScsiAdapter {
  import opened MacMemory
  import opened ScatterGather
  import opened ScsiTransfer

  const SENSE_LENGTH: nat := 256
  const INITIAL_BUFFER: nat := 0x10000
  const REQUEST_SENSE: byte := 0x03

  /** What the device answers to one request: error code, status byte, the data it returned on a
      read (possibly less than asked for) and its autosense data. */
  datatype DeviceReply = DeviceReply(res: int, status: uint16, data: seq<byte>, sense: seq<byte>)

  class Adapter {
    const ram: MacRam
    const directSupported: bool
    const units: set<int>            // opened units, as id * 8 + lun
    var active: int                  // unit selected by SetTarget
    var buffer: array<byte>
    var cmdBuffer: array<byte>
    var senseBuffer: array<byte>
    var senseActual: nat

    constructor (ram: MacRam, directSupported: bool, units: set<int>)
      ensures Valid() && fresh(buffer) && fresh(cmdBuffer) && fresh(senseBuffer)
      ensures this.ram == ram && this.directSupported == directSupported && this.units == units
      ensures senseActual == 0
    {
      this.ram, this.directSupported, this.units := ram, directSupported, units;
      active, senseActual := -1, 0;
      buffer := new byte[INITIAL_BUFFER];
      cmdBuffer := new byte[12];
      senseBuffer := new byte[SENSE_LENGTH];
    }

    ghost predicate Valid()
      reads this
    {
      && buffer != cmdBuffer && buffer != senseBuffer && cmdBuffer != senseBuffer
      && buffer.Length >= INITIAL_BUFFER && cmdBuffer.Length == 12 && senseBuffer.Length == SENSE_LENGTH
      && senseActual <= SENSE_LENGTH
    }

    /** Make room for `size` bytes; a larger buffer replaces the old one. */
    method TryBuffer(size: nat, canAllocate: bool) returns (ok: bool)
      requires Valid()
      modifies this`buffer
      ensures Valid() && (buffer == old(buffer) || fresh(buffer))
      ensures ok == (size <= old(buffer.Length) || canAllocate)
      ensures ok ==> size <= buffer.Length
      ensures size <= old(buffer.Length) || !canAllocate ==> buffer == old(buffer)
    {
      if size <= buffer.Length {
        return true;
      }
      if !canAllocate {
        return false;
      }
      buffer := new byte[size];
      return true;
    }

    method SetCommand(cmd: seq<byte>)
      requires Valid() && |cmd| <= 12
      modifies cmdBuffer
      ensures cmdBuffer[..|cmd|] == cmd
      ensures cmdBuffer[|cmd|..] == old(cmdBuffer[|cmd|..])
    {
      forall i | 0 <= i < |cmd| {
        cmdBuffer[i] := cmd[i];
      }
    }

    predicate TargetPresent(id: int) {
      id * 8 in units
    }

    /** Select a unit; sense data of another unit is forgotten. */
    method SetTarget(id: int, lun: int) returns (ok: bool)
      requires Valid()
      modifies this`active, this`senseActual
      ensures Valid() && ok == (id * 8 + lun in units)
      ensures ok ==> active == id * 8 + lun
      ensures !ok ==> active == old(active)
      ensures senseActual == if ok && active != old(active) then 0 else old(senseActual)
    {
      if id * 8 + lun !in units {
        return false;
      }
      if id * 8 + lun != active {
        senseActual := 0;
      }
      active := id * 8 + lun;
      return true;
    }

    predicate Direct(t: Table) {
      |t| == 1 && t[0].ptr % 2 == 0 && directSupported
    }

    /** The command at hand asks for sense data that is already here. */
    predicate SenseAvailable()
      requires cmdBuffer.Length == 12
      reads this, cmdBuffer
    {
      cmdBuffer[0] == REQUEST_SENSE && senseActual != 0
    }

    /** Copy a range of Mac memory into the buffer. */
    method CopyIn(at: nat, ptr: int, len: nat)
      requires at + len <= buffer.Length
      modifies buffer
      ensures buffer[..at + len] == old(buffer[..at]) + Peeks(ram.bytes, ptr, len)
    {
      ghost var before := buffer[..at];
      forall j | 0 <= j < len {
        buffer[at + j] := Peek(ram.bytes, ptr + j);
      }
      assert buffer[..at] == before;
      assert buffer[at..at + len] == Peeks(ram.bytes, ptr, len);
      assert buffer[..at + len] == buffer[..at] + buffer[at..at + len];
    }

    /** Copy the ranges into the buffer, one after the other. */
    method GatherIntoBuffer(t: Table)
      requires Valid() && TotalLength(t) <= buffer.Length
      modifies buffer
      ensures buffer[..TotalLength(t)] == Gather(ram.bytes, t)
    {
      var at := 0;
      assert t[..0] == [];
      for i := 0 to |t|
        invariant at == TotalLength(t[..i])
        invariant at <= TotalLength(t)
        invariant buffer[..at] == Gather(ram.bytes, t[..i])
      {
        TotalLengthPrefix(t, i);
        var len := t[i].len;
        CopyIn(at, t[i].ptr, len);
        assert t[..i + 1][..i] == t[..i];
        at := at + len;
      }
      assert t[..|t|] == t;
    }

    /** Copy the buffer out to the ranges, one after the other. */
    method ScatterFromBuffer(t: Table)
      requires Valid() && TotalLength(t) <= buffer.Length
      modifies ram
      ensures ram.bytes == Scatter(old(ram.bytes), t, buffer[..])
    {
      var at := 0;
      assert t[..0] == [];
      for i := 0 to |t|
        invariant at == TotalLength(t[..i])
        invariant at <= TotalLength(t)
        invariant ram.bytes == Scatter(old(ram.bytes), t[..i], buffer[..])
      {
        TotalLengthPrefix(t, i);
        var len := t[i].len;
        ram.bytes := Pokes(ram.bytes, t[i].ptr, buffer[at..at + len]);
        assert t[..i + 1][..i] == t[..i];
        assert buffer[..][at..at + len] == buffer[at..at + len];
        at := at + len;
      }
      assert t[..|t|] == t;
    }

    /** The device request itself, on the buffer or straight on Mac memory. */
    method DoIO(direct: bool, reading: bool, t: Table, length: nat, reply: DeviceReply) returns (sent: seq<byte>)
      requires Valid() && (direct ==> |t| == 1) && (!direct ==> length <= buffer.Length)
      requires |reply.data| <= length && |reply.sense| <= SENSE_LENGTH
      modifies this`senseActual, buffer, senseBuffer, ram
      ensures Valid() && senseActual == |reply.sense| && senseBuffer[..senseActual] == reply.sense
      ensures sent == if reading then [] else if direct then old(Peeks(ram.bytes, t[0].ptr, t[0].len))
        else old(buffer[..length])
      ensures ram.bytes == if reading && direct then Pokes(old(ram.bytes), t[0].ptr, reply.data) else old(ram.bytes)
      ensures if reading && !direct then buffer[..] == reply.data + old(buffer[|reply.data|..])
              else buffer[..] == old(buffer[..])
    {
      sent := [];
      if reading {
        if direct {
          ram.bytes := Pokes(ram.bytes, t[0].ptr, reply.data);
        } else {
          forall j | 0 <= j < |reply.data| {
            buffer[j] := reply.data[j];
          }
        }
      } else {
        sent := if direct then Peeks(ram.bytes, t[0].ptr, t[0].len) else buffer[..length];
      }
      senseActual := |reply.sense|;
      forall j | 0 <= j < |reply.sense| {
        senseBuffer[j] := reply.sense[j];
      }
    }

    /** Answer a Request Sense command from the sense data already here. */
    method CopySense()
      requires Valid()
      modifies buffer
      ensures buffer[..] == senseBuffer[..senseActual] + old(buffer[senseActual..])
    {
      forall j | 0 <= j < senseActual {
        buffer[j] := senseBuffer[j];
      }
    }

    /** Make room and, when writing, fill the buffer. */
    method Prepare(dataLength: nat, reading: bool, t: Table, canAllocate: bool) returns (ok: bool)
      requires Valid() && dataLength == TotalLength(t)
      modifies this`buffer, buffer
      ensures Valid() && (buffer == old(buffer) || fresh(buffer))
      ensures ok == (dataLength <= old(buffer.Length) || canAllocate)
      ensures ok ==> dataLength <= buffer.Length
      ensures ok && !reading ==> buffer[..dataLength] == Gather(ram.bytes, t)
    {
      ok := TryBuffer(dataLength, canAllocate);
      if ok && !reading {
        GatherIntoBuffer(t);
      }
    }

    /** Send the prepared command. `sent` is what the device received; on a read the device's
        answer ends up in the ranges of the table. */
    method SendCommand(dataLength: nat, reading: bool, t: Table, canAllocate: bool, reply: DeviceReply)
      returns (success: bool, stat: uint16, sent: seq<byte>)
      requires Valid() && dataLength == TotalLength(t)
      requires |reply.data| <= dataLength && |reply.sense| <= SENSE_LENGTH
      requires SenseAvailable() && Direct(t) ==> dataLength <= buffer.Length  // the fake command skips the size check
      modifies this`buffer, this`senseActual, buffer, senseBuffer, ram
      ensures Valid() && (buffer == old(buffer) || fresh(buffer))
      // without room for the data nothing is sent or stored
      ensures var room := Direct(t) || dataLength <= old(buffer.Length) || canAllocate;
        && (!room ==>
          && !success && stat == 0 && sent == []
          && ram.bytes == old(ram.bytes) && senseActual == old(senseActual))
        && (room && old(SenseAvailable()) ==>
          && stat == 0
          && SenseAnswered(success, reading, t, old(ram.bytes), ram.bytes, old(senseBuffer[..senseActual]), sent))
        && (room && !old(SenseAvailable()) ==>
          CommandAnswered(success, stat, reading, t, old(ram.bytes), ram.bytes, reply, sent))
    {
      stat, sent := 0, [];
      var direct := Direct(t);
      if !direct {
        var ok := Prepare(dataLength, reading, t, canAllocate);
        if !ok {
          return false, 0, [];
        }
      }
      var res := 0;
      if SenseAvailable() {
        CopySense();
        direct := false;
      } else {
        sent := DoIO(direct, reading, t, dataLength, reply);
        res, stat := reply.res, reply.status;
        ghost var m := old(ram.bytes);
        if Direct(t) {
          SingleEntry(m, t, reply.data);
        } else if reading && |reply.data| == dataLength {
          ScatterUsesFront(m, t, buffer[..], reply.data);
        }
      }
      if !direct && reading && res == 0 {
        ScatterFromBuffer(t);
      }
      return res == 0, stat, sent;
    }

    /** A Request Sense command was answered without the device; memory went from m to m'. */
    ghost predicate SenseAnswered(success: bool, reading: bool, t: Table, m: Memory, m': Memory,
                                  sense: seq<byte>, sent: seq<byte>)
      reads this, buffer
    {
      && success && sent == [] && senseActual == |sense|
      && (!reading ==> m' == m)
      && (reading ==> TotalLength(t) <= buffer.Length && sense <= buffer[..] && m' == Scatter(m, t, buffer[..]))
    }

    /** A command went to the device; memory went from m to m'. A full answer to a read is scattered
        over the table; after a short one the buffer's old bytes follow it. */
    ghost predicate CommandAnswered(success: bool, stat: uint16, reading: bool, t: Table, m: Memory, m': Memory,
                                    reply: DeviceReply, sent: seq<byte>)
      reads this, buffer
    {
      && success == (reply.res == 0) && stat == reply.status && senseActual == |reply.sense|
      && (!reading ==> sent == Gather(m, t) && m' == m)
      && (reading ==> sent == [])
      && (reading && success && |reply.data| == TotalLength(t) ==> m' == Scatter(m, t, reply.data))
      && (reading && success && !Direct(t) ==>
            TotalLength(t) <= buffer.Length && reply.data <= buffer[..] && m' == Scatter(m, t, buffer[..]))
      && (reading && !success && !Direct(t) ==> m' == m)
      && (reading && Direct(t) ==> m' == Pokes(m, t[0].ptr, reply.data))
    }
  }

  lemma SingleEntry(m: Memory, t: Table, data: seq<byte>)
    requires |t| == 1
    ensures Gather(m, t) == Peeks(m, t[0].ptr, t[0].len)
    ensures TotalLength(t) == t[0].len
    ensures |data| == t[0].len ==> Scatter(m, t, data) == Pokes(m, t[0].ptr, data)
  {
    assert t == [t[0]];
    DirectTransferIsBuffered(m, t[0], Peeks(m, t[0].ptr, t[0].len));
    if |data| == t[0].len {
      DirectTransferIsBuffered(m, t[0], data);
    }
  }

  lemma TotalLengthPrefix(t: Table, i: nat)
    requires i < |t|
    ensures TotalLength(t[..i + 1]) == TotalLength(t[..i]) + t[i].len <= TotalLength(t)
  {
    hide TotalLength, Expand, Addresses;
    assert t[..i + 1] == t[..i] + [t[i]];
    ExpandSnoc(t[..i], t[i]);
    assert t == t[..i + 1] + t[i + 1..];
    ExpandConcat(t[..i + 1], t[i + 1..]);
  }

  /** Only the front of the buffer, as long as the table, reaches memory. */
  lemma {:induction false} ScatterUsesFront(m: Memory, t: Table, a: seq<byte>, b: seq<byte>)
    requires TotalLength(t) <= |a| && TotalLength(t) <= |b| && a[..TotalLength(t)] == b[..TotalLength(t)]
    ensures Scatter(m, t, a) == Scatter(m, t, b)
  {
    ScatterWritesAddresses(m, t, a);
    ScatterWritesAddresses(m, t, b);
  }
}
