/** The SCSI Manager as a state machine over its entry points, and what holds after every
    sequence of calls. */
module ScsiProtocol {
  import opened Options
  import opened MacMemory
  import opened ScatterGather
  import opened TibInterpreter

  const SC_COMM_ERR: int := 2
  const SC_PHASE_ERR: int := 5
  const SC_MGR_BUSY_ERR: int := 7
  const SC_SEQUENCE_ERR: int := 8

  datatype Phase = Free | Arbitrated | Selected | DataTransfer

  datatype Bus = Bus(phase: Phase, status: uint16, target: int, reading: bool, table: Table, total: uint32)

  /** The faked 5380 status word belonging to each phase. */
  function StatusOf(p: Phase): uint16 {
    match p
    case Free => 0x0000
    case Arbitrated => 0x0040
    case Selected => 0x006a
    case DataTransfer => 0x006e
  }

  // ------------------------------------------------------------- entry points

  function Released(b: Bus): Bus {
    b.(phase := Free, status := 0x0000)
  }

  function Reset(b: Bus): (Bus, int) {
    (Released(b).(table := [], target := 8), 0)
  }

  function Get(b: Bus): (Bus, int) {
    if b.phase != Free then (b, SC_MGR_BUSY_ERR) else
    (Bus(Arbitrated, 0x0040, b.target, false, [], 0), 0)
  }

  function Select(b: Bus, id: int, present: bool): (Bus, int) {
    if b.phase != Arbitrated then (b, SC_SEQUENCE_ERR) else
    var b' := if 0 <= id <= 7 then b.(target := id) else b;
    if 0 <= id <= 7 && present then (b'.(phase := Selected, status := 0x006a), 0)
    else (Released(b'), SC_COMM_ERR)
  }

  function Command(b: Bus, length: int, unitPresent: bool): (Bus, int) {
    if b.phase != Selected then (b, SC_PHASE_ERR)
    else if length != 6 && length != 10 && length != 12 then (b, SC_BAD_PARMS_ERR)
    else if !unitPresent then (Released(b), SC_COMM_ERR)
    else (b.(phase := DataTransfer, status := 0x006e), 0)
  }

  /** The interpreter state in which SCSIRead and SCSIWrite start on a TIB. */
  function Start(b: Bus, mem: Memory, tib: uint32): State {
    State(mem, tib, b.table, b.total)
  }

  /** SCSIRead (read = true) or SCSIWrite: run the TIB for as long as it takes. */
  function Transfers(b: Bus, read: bool, mem: Memory, tib: uint32, steps: nat): (Bus, Outcome) {
    var o := Run(Start(b, mem, tib), steps);
    (b.(reading := read || b.reading, table := o.s.table, total := o.s.total), o)
  }

  function Complete(b: Bus, success: bool): (Bus, int) {
    if b.phase != DataTransfer then (b, SC_PHASE_ERR) else
    (Released(b), if success then 0 else SC_COMM_ERR)
  }

  // ------------------------------------------------------------- runs

  /** One call, with whatever it finds in memory and whatever the devices answer. */
  datatype Call =
    | CallReset
    | CallGet
    | CallSelect(id: int, present: bool)
    | CallCommand(length: int, unitPresent: bool)
    | CallTransfer(read: bool, mem: Memory, tib: uint32, steps: nat)
    | CallComplete(success: bool)

  function Do(b: Bus, c: Call): Bus {
    match c
    case CallReset => Reset(b).0
    case CallGet => Get(b).0
    case CallSelect(id, present) => Select(b, id, present).0
    case CallCommand(length, unitPresent) => Command(b, length, unitPresent).0
    case CallTransfer(read, mem, tib, steps) =>
      if b.phase == DataTransfer then Transfers(b, read, mem, tib, steps).0 else b
    case CallComplete(success) => Complete(b, success).0
  }

  const POWER_ON: Bus := Bus(Free, 0x0000, 8, false, [], 0)

  function After(cs: seq<Call>): Bus {
    if cs == [] then POWER_ON else Do(After(cs[..|cs| - 1]), cs[|cs| - 1])
  }

  /** An independent account of a call history: the transfers accepted, and whether a read was
      among the calls, since the bus was last arbitrated. */
  datatype Ledger = Ledger(ranges: seq<Range>, read: bool)

  function Account(cs: seq<Call>): Ledger {
    if cs == [] then Ledger([], false) else
    var front, c := cs[..|cs| - 1], cs[|cs| - 1];
    var b, l := After(front), Account(front);
    match c
    case CallGet => if b.phase == Free then Ledger([], false) else l
    case CallTransfer(read, mem, tib, steps) =>
      if b.phase == DataTransfer
      then Ledger(l.ranges + Accepted(Start(b, mem, tib), steps), read || l.read)
      else l
    case _ => l
  }

  predicate BusInv(b: Bus) {
    && b.status == StatusOf(b.phase)
    && |b.table| <= SG_TABLE_SIZE
    && (b.phase != Free ==> b.total == Wrap(TotalLength(b.table)))
  }

  /** While the bus is in use, the table, the total and the direction flag are exactly those of
      the transfers since the last arbitration. */
  predicate MatchesLedger(b: Bus, l: Ledger) {
    b.phase != Free ==>
      && AddAll([], l.ranges) == Some(b.table)
      && b.total == Wrap(TotalLength(l.ranges))
      && b.reading == l.read
  }

  lemma TransferKeepsLedger(b: Bus, l: Ledger, read: bool, mem: Memory, tib: uint32, steps: nat)
    requires b.phase == DataTransfer && MatchesLedger(b, l)
    ensures MatchesLedger(Transfers(b, read, mem, tib, steps).0,
                          Ledger(l.ranges + Accepted(Start(b, mem, tib), steps), read || l.read))
  {
    hide Run, Accepted, Wrap;
    var s := Start(b, mem, tib);
    RunTable(s, steps);
    RunTotal(s, steps);
    var more := Accepted(s, steps);
    AddAllConcat([], l.ranges, more);
    ExpandConcat(l.ranges, more);
    WrapAdd(TotalLength(l.ranges), TotalLength(more));
  }

  lemma {:induction false} EveryRunMatchesLedger(cs: seq<Call>)
    ensures MatchesLedger(After(cs), Account(cs))
    decreases |cs|
  {
    hide Run, Accepted;
    if cs != [] {
      var front, c := cs[..|cs| - 1], cs[|cs| - 1];
      EveryRunMatchesLedger(front);
      if c.CallTransfer? && After(front).phase == DataTransfer {
        TransferKeepsLedger(After(front), Account(front), c.read, c.mem, c.tib, c.steps);
      }
    }
  }

  /** A table that matches its ledger has the recorded total, whatever was merged. */
  lemma LedgerTotal(b: Bus, l: Ledger)
    requires b.phase != Free && MatchesLedger(b, l)
    ensures b.total == Wrap(TotalLength(b.table)) && |b.table| <= SG_TABLE_SIZE
  {
    AddAllLength([], l.ranges);
    AddAllSize([], l.ranges);
  }

  /** The bus invariant holds after every sequence of calls. */
  lemma {:induction false} EveryRunKeepsInvariant(cs: seq<Call>)
    ensures BusInv(After(cs))
    decreases |cs|
  {
    hide Run, Accepted;
    if cs != [] {
      var front, c := cs[..|cs| - 1], cs[|cs| - 1];
      EveryRunKeepsInvariant(front);
      var b := After(front);
      if c.CallTransfer? && b.phase == DataTransfer {
        EveryRunMatchesLedger(cs);
        LedgerTotal(After(cs), Account(cs));
      }
    }
  }

  /** SCSIComplete reaches the back end only in the transfer phase; the table it then hands over
      names exactly the bytes asked for since the last arbitration, in order, if and only if
      those requests contain no back-to-back run of 4 GB; the direction is "read" if and only
      if SCSIRead was among the calls. */
  lemma CompleteSendsWhatWasAsked(cs: seq<Call>)
    requires After(cs).phase == DataTransfer
    ensures AddAll([], Account(cs).ranges) == Some(After(cs).table)
    ensures Expand(After(cs).table) == Expand(Account(cs).ranges) <==> NoLongChain(Account(cs).ranges)
    ensures After(cs).reading <==> Account(cs).read
    ensures NoLongChain(Account(cs).ranges) ==> TotalLength(After(cs).table) == TotalLength(Account(cs).ranges)
  {
    EveryRunMatchesLedger(cs);
    CompressionFromEmpty(Account(cs).ranges);
    ExpandLength(After(cs).table);
    ExpandLength(Account(cs).ranges);
  }

  // ------------------------------------------------------------- the handshake

  lemma AfterSnoc(cs: seq<Call>, c: Call)
    ensures After(cs + [c]) == Do(After(cs), c)
  {
    hide Do;
    assert (cs + [c])[..|cs|] == cs;
  }

  /** From a free bus, arbitration, selection and a command lead to the transfer phase with that
      target and an empty table exactly when the target and the unit are there and ID and length are
      legal; a bad length leaves the target selected, anything else that is wrong frees the bus. */
  lemma HandshakeLeadsToTransfer(cs: seq<Call>, id: int, present: bool, length: int, unitPresent: bool)
    requires After(cs).phase == Free
    ensures var b := After(cs + [CallGet] + [CallSelect(id, present)] + [CallCommand(length, unitPresent)]);
      && (b.phase == DataTransfer <==> 0 <= id < 8 && present && length in {6, 10, 12} && unitPresent)
      && (b.phase == Selected <==> 0 <= id < 8 && present && length !in {6, 10, 12})
      && b.phase != Arbitrated
      && (b.phase != Free ==> b.target == id && b.table == [] && b.total == 0 && !b.reading)
  {
    hide After, Transfers, Complete;
    AfterSnoc(cs, CallGet);
    AfterSnoc(cs + [CallGet], CallSelect(id, present));
    AfterSnoc(cs + [CallGet] + [CallSelect(id, present)], CallCommand(length, unitPresent));
  }

  /** The transfer phase is only reached by a handshake: an arbitration, then the selection of a
      present target, the recorded one, then a command of legal length to a present unit; no reset
      came in between and no completion since. */
  lemma TransferNeedsHandshake(cs: seq<Call>) returns (g: nat, s: nat, c: nat)
    requires After(cs).phase == DataTransfer
    ensures g < s < c < |cs| && cs[g] == CallGet && After(cs[..g]).phase == Free
    ensures cs[s] == CallSelect(After(cs).target, true) && 0 <= After(cs).target < 8
    ensures cs[c].CallCommand? && cs[c].length in {6, 10, 12} && cs[c].unitPresent
    ensures forall i :: g < i < |cs| ==> !cs[i].CallReset? && (c < i ==> !cs[i].CallComplete?)
  {
    c := LastCommand(cs);
    s := LastSelection(cs[..c]);
    assert cs[..c][..s] == cs[..s];
    g := LastArbitration(cs[..s]);
    assert cs[..s][..g] == cs[..g];
    forall i | g < i < |cs| ensures !cs[i].CallReset? && (c < i ==> !cs[i].CallComplete?) {
      if i < s {
        assert cs[i] == cs[..s][i];
      } else if i < c {
        assert cs[i] == cs[..c][i];
      }
    }
  }

  lemma {:induction false} LastCommand(cs: seq<Call>) returns (c: nat)
    requires After(cs).phase == DataTransfer
    ensures c < |cs| && cs[c].CallCommand? && cs[c].length in {6, 10, 12} && cs[c].unitPresent
    ensures After(cs[..c]).phase == Selected && After(cs[..c]).target == After(cs).target
    ensures forall i :: c < i < |cs| ==> !cs[i].CallReset? && !cs[i].CallComplete?
    decreases |cs|
  {
    var n := |cs| - 1;
    if After(cs[..n]).phase == DataTransfer {
      c := LastCommand(cs[..n]);
      assert cs[..n][..c] == cs[..c];
      forall i | c < i < |cs| ensures !cs[i].CallReset? && !cs[i].CallComplete? {
        if i < n {
          assert cs[i] == cs[..n][i];
        }
      }
    } else {
      c := n;
    }
  }

  lemma {:induction false} LastSelection(cs: seq<Call>) returns (s: nat)
    requires After(cs).phase == Selected
    ensures s < |cs| && cs[s] == CallSelect(After(cs).target, true) && 0 <= After(cs).target < 8
    ensures After(cs[..s]).phase == Arbitrated
    ensures forall i :: s < i < |cs| ==> !cs[i].CallReset?
    decreases |cs|
  {
    var n := |cs| - 1;
    if After(cs[..n]).phase == Selected {
      s := LastSelection(cs[..n]);
      assert cs[..n][..s] == cs[..s];
      forall i | s < i < |cs| ensures !cs[i].CallReset? {
        if i < n {
          assert cs[i] == cs[..n][i];
        }
      }
    } else {
      s := n;
    }
  }

  lemma {:induction false} LastArbitration(cs: seq<Call>) returns (g: nat)
    requires After(cs).phase == Arbitrated
    ensures g < |cs| && cs[g] == CallGet && After(cs[..g]).phase == Free
    ensures forall i :: g < i < |cs| ==> !cs[i].CallReset?
    decreases |cs|
  {
    var n := |cs| - 1;
    if After(cs[..n]).phase == Arbitrated {
      g := LastArbitration(cs[..n]);
      assert cs[..n][..g] == cs[..g];
      forall i | g < i < |cs| ensures !cs[i].CallReset? {
        if i < n {
          assert cs[i] == cs[..n][i];
        }
      }
    } else {
      g := n;
    }
  }

  /** Every call in the wrong phase is refused with its code and changes nothing; in the right one it
      returns 0 if and only if it took the bus to the next phase. */
  lemma CodesTellPhases(b: Bus, id: int, present: bool, length: int, unitPresent: bool, success: bool)
    ensures var (n, code) := Get(b); if b.phase != Free then n == b && code == 7 else n.phase == Arbitrated && code == 0
    ensures var (n, code) := Select(b, id, present);
      if b.phase != Arbitrated then n == b && code == 8
      else (code == 0 && n.phase == Selected) || (code == 2 && n.phase == Free)
    ensures var (n, code) := Command(b, length, unitPresent);
      if b.phase != Selected then n == b && code == 5
      else (code == 0 && n.phase == DataTransfer) || (code == 2 && n.phase == Free) || (code == 4 && n == b)
    ensures var (n, code) := Complete(b, success);
      if b.phase != DataTransfer then n == b && code == 5
      else n.phase == Free && code == if success then 0 else 2
    ensures var (n, code) := Reset(b); n.phase == Free && n.table == [] && !(0 <= n.target < 8) && code == 0
  {
  }
}
