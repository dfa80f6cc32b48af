/** The interpreter for transfer instruction blocks (TIBs). TIB programs live in Mac memory
    and rewrite themselves: scInc advances its own pointer field, scLoop counts down its own
    counter. */
module TibInterpreter {
  import opened Options
  import opened MacMemory
  import opened ScatterGather

  const SC_INC: uint16 := 1
  const SC_NO_INC: uint16 := 2
  const SC_ADD: uint16 := 3
  const SC_MOVE: uint16 := 4
  const SC_LOOP: uint16 := 5
  const SC_NOP: uint16 := 6
  const SC_STOP: uint16 := 7
  const SC_COMP: uint16 := 8

  const SC_BAD_PARMS_ERR: int := 4
  const SC_COMPARE_ERR: int := 6
  const MEM_FULL_ERR: int := -108

  /** Interpreter state: memory, program counter, table and running total length. */
  datatype State = State(mem: Memory, pc: uint32, table: Table, total: uint32)

  datatype Outcome = Running(s: State) | Halted(s: State, code: int)

  function Opcode(s: State): uint16 { Read16(s.mem, s.pc) }
  function PtrField(s: State): uint32 { Read32(s.mem, Wrap(s.pc + 2)) }
  function LenField(s: State): uint32 { Read32(s.mem, Wrap(s.pc + 6)) }
  function Operands(s: State): Range { Range(PtrField(s), LenField(s)) }

  /** The transfer part of scInc and scNoInc. */
  function Transfer(s: State, r: Range): Outcome {
    match AddRange(s.table, r)
    case None => Halted(s, MEM_FULL_ERR)
    case Some(t) => Running(State(s.mem, s.pc, t, Wrap(s.total + r.len)))
  }

  /** The scLoop at the instruction before `next`: store the decremented counter and jump,
      relative to the scLoop itself, unless it reached zero. */
  function Loop(s: State, offset: uint32, count: uint32, next: uint32): State {
    State(Write32(s.mem, Wrap(next - 4), count),
          if count > 0 then Wrap(next + offset - 10) else next, s.table, s.total)
  }

  function WithMemory(s: State, m: Memory, next: uint32): State {
    State(m, next, s.table, s.total)
  }

  /** The effect of one decoded instruction; `next` is the address after it. */
  function Execute(s: State, op: uint16, r: Range, next: uint32): Outcome {
    if op == SC_INC then
      Transfer(WithMemory(s, Write32(s.mem, Wrap(next - 8), Wrap(r.ptr + r.len)), next), r)
    else if op == SC_NO_INC then
      Transfer(WithMemory(s, s.mem, next), r)
    else if op == SC_ADD then
      Running(WithMemory(s, Write32(s.mem, r.ptr, Wrap(Read32(s.mem, r.ptr) + r.len)), next))
    else if op == SC_MOVE then
      Running(WithMemory(s, Write32(s.mem, r.len, Read32(s.mem, r.ptr)), next))
    else if op == SC_LOOP then
      Running(Loop(s, r.ptr, Wrap(r.len - 1), next))
    else if op == SC_NOP then
      Running(WithMemory(s, s.mem, next))
    else if op == SC_STOP then
      Halted(WithMemory(s, s.mem, next), 0)
    else if op == SC_COMP then
      Halted(WithMemory(s, s.mem, next), SC_COMPARE_ERR)
    else
      Halted(WithMemory(s, s.mem, next), SC_BAD_PARMS_ERR)
  }

  /** Fetch and execute one instruction. */
  function Step(s: State): Outcome {
    Execute(s, Opcode(s), Operands(s), Wrap(s.pc + 10))
  }

  /** At most `n` instructions. */
  function Run(s: State, n: nat): Outcome
    decreases n
  {
    if n == 0 then Running(s) else
    match Step(s)
    case Halted(s', code) => Halted(s', code)
    case Running(s') => Run(s', n - 1)
  }

  /** The interpreter stops within `n` instructions. */
  predicate Halts(s: State, n: nat) {
    Run(s, n).Halted?
  }

  lemma {:induction false} RunSplit(s: State, n: nat, k: nat)
    ensures Run(s, n + k) == match Run(s, n) case Halted(s', c) => Halted(s', c) case Running(s') => Run(s', k)
    decreases n
  {
    hide Step;
    if n > 0 && Step(s).Running? {
      RunSplit(Step(s).s, n - 1, k);
    }
  }

  /** How a terminating run ends does not depend on the bound chosen for it. */
  lemma HaltIsUnique(s: State, n: nat, k: nat)
    requires Halts(s, n) && Halts(s, k)
    ensures Run(s, n) == Run(s, k)
  {
    if n <= k {
      RunSplit(s, n, k - n);
    } else {
      RunSplit(s, k, n - k);
    }
  }

  // ------------------------------------------------------------- what a run transfers

  /** The instruction at hand is a transfer that finds room in the table. */
  predicate Accepts(s: State) {
    (Opcode(s) == SC_INC || Opcode(s) == SC_NO_INC) && AddRange(s.table, Operands(s)).Some?
  }

  /** The operands of the accepted scInc and scNoInc instructions, in execution order. */
  function Accepted(s: State, n: nat): seq<Range>
    decreases n
  {
    if n == 0 then [] else
    (if Accepts(s) then [Operands(s)] else []) +
    match Step(s) case Halted(_, _) => [] case Running(s') => Accepted(s', n - 1)
  }

  /** One instruction adds exactly its accepted transfer, if any, to the table and the total. */
  lemma StepCollects(s: State)
    ensures Accepts(s) ==> Step(s).Running?
                           && AddRange(s.table, Operands(s)) == Some(Step(s).s.table)
                           && Step(s).s.total == Wrap(s.total + Operands(s).len)
    ensures !Accepts(s) ==> Step(s).s.table == s.table && Step(s).s.total == s.total
  {
    hide Read16, Read32, Write32, AddRange;
  }

  lemma AcceptedCons(s: State, n: nat)
    requires n > 0 && Step(s).Running?
    ensures var rest := Accepted(Step(s).s, n - 1);
      Accepted(s, n) == if Accepts(s) then [Operands(s)] + rest else rest
  {
    hide Step, Accepts, Operands;
    var rest := Accepted(Step(s).s, n - 1);
    assert [] + rest == rest;
  }

  /** However a run ends, its table is the merge of the accepted transfers into the initial table. */
  lemma {:induction false} RunTable(s: State, n: nat)
    ensures AddAll(s.table, Accepted(s, n)) == Some(Run(s, n).s.table)
    decreases n
  {
    hide Step, Accepts, Operands, AddRange;
    if n > 0 {
      StepCollects(s);
      if Step(s).Running? {
        RunTable(Step(s).s, n - 1);
        AcceptedCons(s, n);
        if Accepts(s) {
          assert Accepted(s, n)[1..] == Accepted(Step(s).s, n - 1);
        }
      } else {
        assert Accepted(s, n) == [];
      }
    }
  }

  /** The running total grows by the lengths of the accepted transfers, mod 2^32. */
  lemma {:induction false} RunTotal(s: State, n: nat)
    ensures Run(s, n).s.total == Wrap(s.total + TotalLength(Accepted(s, n)))
    decreases n
  {
    hide Step, Accepts, Operands, Wrap, TotalLength;
    WrapSmall(s.total);
    assert TotalLength([]) == 0 by { ExpandLength([]); }
    if n > 0 {
      StepCollects(s);
      if Step(s).Running? {
        var s' := Step(s).s;
        var rest := Accepted(s', n - 1);
        RunTotal(s', n - 1);
        AcceptedCons(s, n);
        assert Run(s, n) == Run(s', n - 1);
        if Accepts(s) {
          assert Accepted(s, n)[1..] == rest;
          ExpandFront(Accepted(s, n));
          WrapAdd(s.total + Operands(s).len, TotalLength(rest));
          assert s.total + TotalLength(Accepted(s, n)) == s.total + Operands(s).len + TotalLength(rest);
        }
      } else {
        assert Accepted(s, n) == [];
      }
    }
  }

  /** Every run, successful or not: expanding the final table gives the initial addresses followed
      by those of all accepted transfers, exactly when no merge overflowed an entry. */
  lemma RunPreservesMeaning(s: State, n: nat)
    ensures Expand(Run(s, n).s.table) == Expand(s.table) + Expand(Accepted(s, n))
            <==> MergesFit(s.table, Accepted(s, n))
  {
    RunTable(s, n);
    CompressionIsExact(s.table, Accepted(s, n));
  }

  lemma {:induction false} RunTableSize(s: State, n: nat)
    requires |s.table| <= SG_TABLE_SIZE
    ensures |s.table| <= |Run(s, n).s.table| <= SG_TABLE_SIZE
  {
    RunTable(s, n);
    AddAllSize(s.table, Accepted(s, n));
  }

  // ------------------------------------------------------------- the self-modifying loop

  /** At t: `op ptr len; scLoop -10 count; scStop`, where a count field of 0 stands for 2^32. */
  predicate LoopAt(m: Memory, t: int, op: uint16, ptr: uint32, len: uint32, count: uint32) {
    && Read16(m, t) == op && Read32(m, t + 2) == ptr && Read32(m, t + 6) == len
    && Read16(m, t + 10) == SC_LOOP && Read32(m, t + 12) == TWO32 - 10 && Read32(m, t + 16) == count
    && Read16(m, t + 20) == SC_STOP
  }

  /** Only the loop's pointer and counter fields may differ. */
  ghost predicate SameOutsideFields(m: Memory, m': Memory, t: int) {
    forall a :: !(t + 2 <= a < t + 6 || t + 16 <= a < t + 20) ==> Peek(m', a) == Peek(m, a)
  }

  lemma WriteLoopPointer(m: Memory, t: int, op: uint16, ptr: uint32, len: uint32, count: uint32, v: uint32)
    requires LoopAt(m, t, op, ptr, len, count)
    ensures LoopAt(Write32(m, t + 2, v), t, op, v, len, count)
    ensures SameOutsideFields(m, Write32(m, t + 2, v), t)
  {
    hide Write32, Peek;
    Write32Effect(m, t + 2, v);
  }

  lemma WriteLoopCount(m: Memory, t: int, op: uint16, ptr: uint32, len: uint32, count: uint32, v: uint32)
    requires LoopAt(m, t, op, ptr, len, count)
    ensures LoopAt(Write32(m, t + 16, v), t, op, ptr, len, v)
    ensures SameOutsideFields(m, Write32(m, t + 16, v), t)
  {
    hide Write32, Peek;
    Write32Effect(m, t + 16, v);
  }

  /** The pointer field after one execution of the transfer instruction. */
  function NextPtr(op: uint16, ptr: uint32, len: uint32): uint32 {
    if op == SC_INC then Wrap(ptr + len) else ptr
  }

  lemma TransferStep(s: State, op: uint16, ptr: uint32, len: uint32, count: uint32) returns (m: Memory)
    requires op == SC_INC || op == SC_NO_INC
    requires s.pc + 30 <= TWO32 && LoopAt(s.mem, s.pc, op, ptr, len, count)
    ensures Step(s) == Transfer(WithMemory(s, m, s.pc + 10), Range(ptr, len))
    ensures LoopAt(m, s.pc, op, NextPtr(op, ptr, len), len, count)
    ensures SameOutsideFields(s.mem, m, s.pc)
  {
    hide Read16, Read32, Write32, Peek, Transfer, Opcode, Operands, LoopAt, SameOutsideFields;
    OperandsAt(s, s.pc, op, ptr, len, count);
    m := s.mem;
    if op == SC_INC {
      m := Write32(s.mem, s.pc + 2, Wrap(ptr + len));
      WriteLoopPointer(s.mem, s.pc, op, ptr, len, count, Wrap(ptr + len));
    } else {
      SameOutsideFieldsTrans(m, m, m, s.pc);
    }
  }

  lemma SameOutsideFieldsTrans(m: Memory, m': Memory, m'': Memory, t: int)
    ensures SameOutsideFields(m, m, t)
    ensures SameOutsideFields(m, m', t) && SameOutsideFields(m', m'', t) ==> SameOutsideFields(m, m'', t)
  {
    hide Peek;
  }

  lemma OperandsAt(s: State, t: uint32, op: uint16, ptr: uint32, len: uint32, count: uint32)
    requires t + 30 <= TWO32 && LoopAt(s.mem, t, op, ptr, len, count)
    ensures s.pc == t ==> Opcode(s) == op && Operands(s) == Range(ptr, len)
    ensures s.pc == t + 10 ==> Opcode(s) == SC_LOOP && Operands(s) == Range(TWO32 - 10, count)
    ensures s.pc == t + 20 ==> Opcode(s) == SC_STOP
  {
    hide Read16, Read32;
  }

  /** Offset -10 leads from the scLoop at t + 10 back to t. */
  lemma LoopJump(t: uint32, count: nat)
    requires t + 30 <= TWO32 && 1 <= count <= TWO32
    ensures Wrap(t + 20 + (TWO32 - 10) - 10) == t
    ensures Wrap(t + 20) == t + 20 && Wrap(t + 16) == t + 16
    ensures Wrap(count - 1) > 0 <==> count != 1
  {
  }

  lemma LoopStep(s: State, t: uint32, op: uint16, ptr: uint32, len: uint32, count: nat) returns (m: Memory)
    requires 1 <= count <= TWO32 && t + 30 <= TWO32 && s.pc == t + 10
    requires LoopAt(s.mem, t, op, ptr, len, Wrap(count))
    ensures Step(s) == Running(WithMemory(s, m, if count == 1 then t + 20 else t))
    ensures LoopAt(m, t, op, ptr, len, Wrap(count - 1))
    ensures SameOutsideFields(s.mem, m, t)
  {
    hide Read16, Read32, Write32, Peek, Opcode, Operands, LoopAt, SameOutsideFields, Wrap;
    OperandsAt(s, t, op, ptr, len, Wrap(count));
    m := Write32(s.mem, t + 16, Wrap(count - 1));
    WriteLoopCount(s.mem, t, op, ptr, len, Wrap(count), Wrap(count - 1));
    WrapAdd(count, -1);
    LoopJump(t, count);
  }

  /** One turn of the loop: the transfer instruction and the scLoop. */
  lemma LoopTurn(s: State, op: uint16, ptr: uint32, len: uint32, count: nat) returns (s': State)
    requires op == SC_INC || op == SC_NO_INC
    requires 1 <= count <= TWO32 && s.pc + 30 <= TWO32
    requires LoopAt(s.mem, s.pc, op, ptr, len, Wrap(count))
    requires AddRange(s.table, Range(ptr, len)).Some?
    ensures Run(s, 2) == Running(s')
    ensures s'.table == AddRange(s.table, Range(ptr, len)).value
    ensures s'.total == Wrap(s.total + len)
    ensures s'.pc == (if count == 1 then s.pc + 20 else s.pc)
    ensures LoopAt(s'.mem, s.pc, op, NextPtr(op, ptr, len), len, Wrap(count - 1))
    ensures SameOutsideFields(s.mem, s'.mem, s.pc)
  {
    hide Step, LoopAt, NextPtr, Wrap, AddRange, Peek, SameOutsideFields, Read16, Read32;
    var m1 := TransferStep(s, op, ptr, len, Wrap(count));
    var s1 := Step(s).s;
    var m2 := LoopStep(s1, s.pc, op, NextPtr(op, ptr, len), len, count);
    s' := Step(s1).s;
    SameOutsideFieldsTrans(s.mem, m1, m2, s.pc);
    assert Run(s1, 1) == Running(s');
    assert Run(s, 2) == Run(s1, 1);
  }

  lemma LoopStops(s: State, t: uint32, op: uint16, ptr: uint32, len: uint32)
    requires t + 30 <= TWO32 && LoopAt(s.mem, t, op, ptr, len, 0) && s.pc == t + 20
    ensures Run(s, 1) == Halted(WithMemory(s, s.mem, Wrap(t + 30)), 0)
  {
    hide Read16, Read32, Write32, Opcode, Operands, LoopAt;
    OperandsAt(s, t, op, ptr, len, 0);
    assert Run(s, 1) == Halted(Step(s).s, 0);
  }

  /** Adding the touching remainder right after the first block is adding both at once. */
  lemma AddRangeTwice(t: Table, ptr: uint32, a: uint32, b: uint32)
    requires ptr + a + b < TWO32 && AddRange(t, Range(ptr, a)).Some?
    ensures AddRange(t, Range(ptr, a + b)).Some?
    ensures AddRange(AddRange(t, Range(ptr, a)).value, Range(ptr + a, b)) == AddRange(t, Range(ptr, a + b))
  {
    var t' := AddRange(t, Range(ptr, a)).value;
    if Adjacent(t, Range(ptr, a)) {
      var last := t[|t| - 1];
      assert last.ptr + last.len == ptr && last.len + a + b < TWO32;
      assert t' == t[|t| - 1 := Range(last.ptr, last.len + a)];
      assert Adjacent(t', Range(ptr + a, b));
      assert t'[|t| - 1 := Range(last.ptr, last.len + a + b)] == t[|t| - 1 := Range(last.ptr, last.len + a + b)];
    } else {
      assert t' == t + [Range(ptr, a)] && Adjacent(t', Range(ptr + a, b));
      assert t'[|t| := Range(ptr, a + b)] == t + [Range(ptr, a + b)];
    }
  }

  /** `scInc ptr len; scLoop -10 n; scStop` is one transfer of n*len bytes: it stops after
      2n+1 instructions, adds n*len to the total, makes a single entry or extends the last
      one, and leaves its own fields at ptr+n*len and 0, touching no other memory. */
  lemma {:induction false} IncLoop(s: State, ptr: uint32, len: uint32, n: nat)
    requires 1 <= n <= TWO32 && ptr + n * len < TWO32 && s.pc + 30 <= TWO32
    requires LoopAt(s.mem, s.pc, SC_INC, ptr, len, Wrap(n))
    requires AddRange(s.table, Range(ptr, len)).Some?
    ensures var o := Run(s, 2 * n + 1);
      && o.Halted? && o.code == 0
      && AddRange(s.table, Range(ptr, n * len)) == Some(o.s.table)
      && o.s.total == Wrap(s.total + n * len)
      && LoopAt(o.s.mem, s.pc, SC_INC, ptr + n * len, len, 0)
      && SameOutsideFields(s.mem, o.s.mem, s.pc)
    decreases n
  {
    hide Step, LoopAt, Run, AddRange, SameOutsideFields, Peek, Read16, Read32, Wrap;
    var s2 := LoopTurn(s, SC_INC, ptr, len, n);
    RunSplit(s, 2, 2 * n - 1);
    if n == 1 {
      WrapSmall(ptr + len);
      WrapSmall(0);
      LoopStops(s2, s.pc, SC_INC, ptr + len, len);
    } else {
      var rest := LoopRest(ptr, len, n);
      SameOutsideFieldsTrans(s.mem, s2.mem, Run(s2, 2 * n - 1).s.mem, s.pc);
      AddRangeTwice(s.table, ptr, len, len);
      AddRangeTwice(s.table, ptr, len, rest);
      WrapSmall(ptr + len);
      IncLoop(s2, ptr + len, len, n - 1);
      WrapAdd(s.total + len, rest);
    }
  }

  lemma LoopRest(ptr: uint32, len: uint32, n: nat) returns (rest: uint32)
    requires 2 <= n && ptr + n * len < TWO32
    ensures rest == (n - 1) * len && n * len == len + rest && len <= rest
  {
    assert n * len == len + (n - 1) * len;
    rest := (n - 1) * len;
  }

  /** When the table has no room the same loop stops at once with -108; its pointer field
      has already been advanced. */
  lemma IncLoopTableFull(s: State, ptr: uint32, len: uint32, count: uint32)
    requires s.pc + 30 <= TWO32 && LoopAt(s.mem, s.pc, SC_INC, ptr, len, count)
    requires AddRange(s.table, Range(ptr, len)).None?
    ensures var o := Run(s, 1);
      && o.Halted? && o.code == MEM_FULL_ERR
      && o.s.table == s.table && o.s.total == s.total
      && LoopAt(o.s.mem, s.pc, SC_INC, Wrap(ptr + len), len, count)
      && SameOutsideFields(s.mem, o.s.mem, s.pc)
  {
    hide Step, LoopAt, AddRange, Wrap, Read16, Read32, SameOutsideFields;
    var m := TransferStep(s, SC_INC, ptr, len, count);
    assert Run(s, 1) == Step(s);
  }

  function Copies(r: Range, n: nat): (t: Table)
    ensures |t| == n && forall i :: 0 <= i < n ==> t[i] == r
  {
    seq(n, i => r)
  }

  /** `scNoInc ptr len; scLoop -10 n; scStop` with len > 0 repeats the same range: after the
      first transfer every further one is a new entry, and the run ends with -108 exactly when
      the table runs out, leaving it full. */
  lemma {:induction false} NoIncLoop(s: State, ptr: uint32, len: uint32, n: nat)
    requires 1 <= n <= TWO32 && 0 < len && s.pc + 30 <= TWO32 && |s.table| <= SG_TABLE_SIZE
    requires LoopAt(s.mem, s.pc, SC_NO_INC, ptr, len, Wrap(n))
    requires AddRange(s.table, Range(ptr, len)).Some?
    ensures var o, first := Run(s, 2 * n + 1), AddRange(s.table, Range(ptr, len)).value;
      && o.Halted?
      && (o.code == 0 <==> |first| + (n - 1) <= SG_TABLE_SIZE)
      && (o.code == 0 ==> o.s.table == first + Copies(Range(ptr, len), n - 1)
                          && o.s.total == Wrap(s.total + n * len)
                          && LoopAt(o.s.mem, s.pc, SC_NO_INC, ptr, len, 0))
      && (o.code != 0 ==> o.code == MEM_FULL_ERR
                          && o.s.table == first + Copies(Range(ptr, len), SG_TABLE_SIZE - |first|))
      && SameOutsideFields(s.mem, o.s.mem, s.pc)
    decreases n
  {
    hide Step, LoopAt, Run;
    var r := Range(ptr, len);
    var first := AddRange(s.table, r).value;
    var s2 := LoopTurn(s, SC_NO_INC, ptr, len, n);
    RunSplit(s, 2, 2 * n - 1);
    assert n * len == len + (n - 1) * len;
    assert !Adjacent(first, r);
    if n == 1 {
      LoopStops(s2, s.pc, SC_NO_INC, ptr, len);
      assert first + Copies(r, 0) == first;
    } else if |first| == SG_TABLE_SIZE {
      TableExhausted(s2, ptr, len, Wrap(n - 1), 2 * n - 1);
      assert first + Copies(r, 0) == first;
    } else {
      NoIncLoop(s2, ptr, len, n - 1);
      assert AddRange(first, r).value == first + [r];
      assert (first + [r]) + Copies(r, n - 2) == first + Copies(r, n - 1);
      var k := SG_TABLE_SIZE - |first|;
      assert (first + [r]) + Copies(r, k - 1) == first + Copies(r, k);
      WrapAdd(s.total + len, (n - 1) * len);
    }
  }

  lemma TableExhausted(s: State, ptr: uint32, len: uint32, count: uint32, n: nat)
    requires n > 0 && s.pc + 30 <= TWO32 && LoopAt(s.mem, s.pc, SC_NO_INC, ptr, len, count)
    requires AddRange(s.table, Range(ptr, len)).None?
    ensures var o := Run(s, n);
      && o.Halted? && o.code == MEM_FULL_ERR && o.s.table == s.table
      && SameOutsideFields(s.mem, o.s.mem, s.pc)
  {
    hide Step, LoopAt, AddRange, Wrap, Read16, Read32, SameOutsideFields;
    var m := TransferStep(s, SC_NO_INC, ptr, len, count);
    assert Run(s, n) == Step(s);
  }

  // ------------------------------------------------------------- jumps

  predicate InstructionAt(m: Memory, t: int, op: uint16, ptr: uint32, len: uint32) {
    Read16(m, t) == op && Read32(m, t + 2) == ptr && Read32(m, t + 6) == len
  }

  lemma StepAt(s: State, op: uint16, ptr: uint32, len: uint32)
    requires InstructionAt(s.mem, s.pc, op, ptr, len) && s.pc + 10 < TWO32
    ensures Step(s) == Execute(s, op, Range(ptr, len), s.pc + 10)
  {
    hide Read16, Read32, Execute;
  }

  /** An scLoop counts its own counter field down and, while it does not reach 0, goes on at its own
      address plus its offset, forwards or backwards; then it goes on behind itself. */
  lemma LoopJumps(s: State, offset: uint32, count: uint32)
    requires Read16(s.mem, s.pc) == 5 && Read32(s.mem, s.pc + 2) == offset && Read32(s.mem, s.pc + 6) == count
    requires s.pc + 10 < TWO32
    ensures var o := Run(s, 1);
      && o.Running? && o.s.table == s.table && o.s.total == s.total
      && o.s.pc == (if count == 1 then s.pc + 10 else (s.pc + offset) % TWO32)
      && Read32(o.s.mem, s.pc + 6) == (if count == 0 then TWO32 - 1 else count - 1)
      && forall y :: !(s.pc + 6 <= y < s.pc + 10) ==> Peek(o.s.mem, y) == Peek(s.mem, y)
  {
    hide Read16, Read32, Write32, Peek;
    StepAt(s, SC_LOOP, offset, count);
    Write32Effect(s.mem, s.pc + 6, Wrap(count - 1));
    assert Run(Step(s).s, 0) == Running(Step(s).s);
  }

  // ------------------------------------------------------------- a transfer through a pointer

  /** At t: `scNop; scAdd a k; scMove a (t+32); scNoInc x len`, then one last instruction. The move
      goes into the pointer field of the scNoInc. */
  predicate IndirectAt(m: Memory, t: nat, a: uint32, k: uint32, x: uint32, len: uint32, last: uint16) {
    && t + 50 <= TWO32
    && Read16(m, t) == SC_NOP && InstructionAt(m, t + 10, SC_ADD, a, k)
    && InstructionAt(m, t + 20, SC_MOVE, a, t + 32) && InstructionAt(m, t + 30, SC_NO_INC, x, len)
    && Read16(m, t + 40) == last
  }

  lemma ReadElsewhere(m: Memory, a: int, v: uint32, x: int)
    ensures x + 4 <= a || a + 4 <= x ==> Read32(Write32(m, a, v), x) == Read32(m, x)
    ensures x + 2 <= a || a + 4 <= x ==> Read16(Write32(m, a, v), x) == Read16(m, x)
  {
    hide Write32, Peek;
    Write32Effect(m, a, v);
  }

  lemma InstructionStays(m: Memory, a: int, v: uint32, t: int, op: uint16, ptr: uint32, len: uint32)
    requires InstructionAt(m, t, op, ptr, len) && (a + 4 <= t || t + 10 <= a)
    ensures InstructionAt(Write32(m, a, v), t, op, ptr, len)
  {
    hide Write32, Read16, Read32;
    ReadElsewhere(m, a, v, t);
    ReadElsewhere(m, a, v, t + 2);
    ReadElsewhere(m, a, v, t + 6);
  }

  /** The sum of the long at a and k becomes the address of the transfer: it is left at a and in the
      transfer's pointer field, no other byte changes, and the run ends the way the last instruction
      says, or with -108 before it if the table has no room. */
  lemma IndirectTransfer(s: State, a: uint32, k: uint32, x: uint32, len: uint32, last: uint16)
    requires IndirectAt(s.mem, s.pc, a, k, x, len, last) && (a + 4 <= s.pc || s.pc + 50 <= a)
    requires !(1 <= last <= 6)
    ensures var o, v := Run(s, 5), Wrap(Read32(s.mem, a) + k);
      && o.Halted? && Read32(o.s.mem, a) == v && Read32(o.s.mem, s.pc + 32) == v
      && (forall y :: !(a <= y < a + 4 || s.pc + 32 <= y < s.pc + 36) ==> Peek(o.s.mem, y) == Peek(s.mem, y))
      && match AddRange(s.table, Range(v, len))
         case None => o.code == MEM_FULL_ERR && o.s.table == s.table && o.s.total == s.total
         case Some(t) => o.s.table == t && o.s.total == Wrap(s.total + len)
                         && o.code == if last == 7 then 0 else if last == 8 then 6 else 4
  {
    hide Read16, Read32, Write32, Peek, AddRange, Execute, Opcode, Operands;
    var t, v := s.pc, Wrap(Read32(s.mem, a) + k);
    var m1 := Write32(s.mem, a, v);
    var m2 := Write32(m1, t + 32, v);
    FirstThree(s, a, k, x, len, last);
    var s3 := WithMemory(s, m2, t + 30);
    AfterMove(s.mem, t, a, k, x, len, last);
    LastTwo(s3, v, len, last);
    RunSplit(s, 3, 2);
    Write32Effect(s.mem, a, v);
    Write32Effect(m1, t + 32, v);
    ReadElsewhere(m1, t + 32, v, a);
  }

  /** The program after its own changes. */
  lemma AfterMove(m: Memory, t: nat, a: uint32, k: uint32, x: uint32, len: uint32, last: uint16)
    requires IndirectAt(m, t, a, k, x, len, last) && (a + 4 <= t || t + 50 <= a)
    ensures var v := Wrap(Read32(m, a) + k);
      var m1 := Write32(m, a, v);
      var m2 := Write32(m1, t + 32, v);
      && Read32(m1, a) == v && InstructionAt(m1, t + 20, SC_MOVE, a, t + 32)
      && InstructionAt(m2, t + 30, SC_NO_INC, v, len) && Read16(m2, t + 40) == last
  {
    hide Write32, Read16, Read32;
    var v := Wrap(Read32(m, a) + k);
    var m1 := Write32(m, a, v);
    Write32Effect(m, a, v);
    InstructionStays(m, a, v, t + 20, SC_MOVE, a, t + 32);
    InstructionStays(m, a, v, t + 30, SC_NO_INC, x, len);
    ReadElsewhere(m, a, v, t + 40);
    Write32Effect(m1, t + 32, v);
    ReadElsewhere(m1, t + 32, v, t + 30);
    ReadElsewhere(m1, t + 32, v, t + 36);
    ReadElsewhere(m1, t + 32, v, t + 40);
  }

  lemma FirstThree(s: State, a: uint32, k: uint32, x: uint32, len: uint32, last: uint16)
    requires IndirectAt(s.mem, s.pc, a, k, x, len, last) && (a + 4 <= s.pc || s.pc + 50 <= a)
    ensures var v := Wrap(Read32(s.mem, a) + k);
      Run(s, 3) == Running(WithMemory(s, Write32(Write32(s.mem, a, v), s.pc + 32, v), s.pc + 30))
  {
    hide Read16, Read32, Write32, Step, Run;
    var t, v := s.pc, Wrap(Read32(s.mem, a) + k);
    AfterMove(s.mem, t, a, k, x, len, last);
    var s1 := WithMemory(s, s.mem, t + 10);
    var s2 := WithMemory(s, Write32(s.mem, a, v), t + 20);
    var s3 := WithMemory(s, Write32(s2.mem, t + 32, v), t + 30);
    StepAt(s, SC_NOP, PtrField(s), LenField(s));
    StepAt(s1, SC_ADD, a, k);
    StepAt(s2, SC_MOVE, a, t + 32);
    OneMore(s, s1, 2);
    OneMore(s1, s2, 1);
    OneMore(s2, s3, 0);
  }

  lemma OneMore(s: State, s': State, n: nat)
    requires Step(s) == Running(s')
    ensures Run(s, n + 1) == Run(s', n)
    ensures n == 0 ==> Run(s', n) == Running(s')
  {
    hide Step;
  }

  lemma LastTwo(s: State, v: uint32, len: uint32, last: uint16)
    requires InstructionAt(s.mem, s.pc, SC_NO_INC, v, len) && Read16(s.mem, s.pc + 10) == last && s.pc + 20 <= TWO32
    requires !(1 <= last <= 6)
    ensures var o := Run(s, 2);
      && o.Halted? && o.s.mem == s.mem
      && match AddRange(s.table, Range(v, len))
         case None => o.code == MEM_FULL_ERR && o.s.table == s.table && o.s.total == s.total
         case Some(t) => o.s.table == t && o.s.total == Wrap(s.total + len)
                         && o.code == if last == 7 then 0 else if last == 8 then 6 else 4
  {
    hide Read16, Read32, AddRange;
    StepAt(s, SC_NO_INC, v, len);
    if AddRange(s.table, Range(v, len)).Some? {
      var s1 := Step(s).s;
      assert Opcode(s1) == last;
      assert Run(s1, 1) == Step(s1);
    }
  }
}
