/**
 * nemu's RV32 trap controller (isa/riscv32/system/intr.c): raising an exception
 * saves the cause in mcause and the faulting pc in mepc and jumps to mtvec
 * (machine trap CSRs, section 3.1 of the RISC-V Privileged Architecture,
 * version 1.12); returning resumes at mepc (mret, section 3.3.2 there). mstatus
 * is not touched. Every raise and return is recorded in the exception trace, a
 * hand-rolled ring of 16 `EtraceItem`s. Interrupt causes (top bit set) reach
 * TODO() in the source, so callers must not pass them.
 */
module NemuIntr {
  import opened Machine
  import opened RingBuf

  const EtraceBufSize: nat := 16

  /**
   * INTR_EMPTY, `(word_t)-1`: the "no interrupt pending" value of nemu's isa.h,
   * which is not part of this model.
   */
  const IntrEmpty: Word := 0xFFFF_FFFF

  /** One exception-trace record; `kind` is 'E' (exception), 'I' (interrupt) or 'R' (return). */
  datatype EtraceItem = EtraceItem(cause: Word, epc: Word, handler: Word, kind: char)

  /** One line of etrace_dump: a return shows only its epc. */
  datatype EtraceLine =
    | ReturnLine(kind: char, epc: Word)
    | TrapLine(kind: char, cause: Word, name: string, epc: Word, handler: Word)

  /** An mcause value whose top bit is set denotes an interrupt. */
  predicate IsInterrupt(cause: Word)
    ensures IsInterrupt(cause) <==> cause >= 0x8000_0000
  {
    Signed(cause) < 0
  }

  /** get_exception_name: the names of the RV32 synchronous exception codes. */
  function ExceptionName(cause: Word): string
  {
    match cause
    case 0 => "instruction_address_misaligned"
    case 1 => "instruction_access_fault"
    case 2 => "illegal_instruction"
    case 3 => "breakpoint"
    case 4 => "load_address_misaligned"
    case 5 => "load_access_fault"
    case 6 => "store_address_misaligned"
    case 7 => "store_access_fault"
    case 8 => "user_ecall"
    case 9 => "supervisor_ecall"
    case 10 => "virtual_supervisor_ecall"
    case 11 => "machine_ecall"
    case 12 => "instruction_page_fault"
    case 13 => "load_page_fault"
    case 15 => "store_page_fault"
    case _ => "unknown"
  }

  /** The codes the table names: 0 to 13 and 15; 14 is reserved. */
  predicate NamedCode(cause: Word)
  {
    cause <= 13 || cause == 15
  }

  /** Every named code gets its own name, and "unknown" is exactly the unnamed codes' name. */
  lemma ExceptionNameTable(a: Word, b: Word)
    ensures ExceptionName(a) == "unknown" <==> !NamedCode(a)
    ensures NamedCode(a) && NamedCode(b) && a != b ==> ExceptionName(a) != ExceptionName(b)
  {
  }

  /** How etrace_dump prints one record. */
  function RenderTrap(it: EtraceItem): (line: EtraceLine)
    ensures line.ReturnLine? <==> it.kind == 'R'
    ensures line.epc == it.epc && line.kind == it.kind
    ensures line.TrapLine? ==> line.cause == it.cause && line.handler == it.handler &&
                               line.name == ExceptionName(it.cause)
  {
    if it.kind == 'R' then ReturnLine(it.kind, it.epc)
    else TrapLine(it.kind, it.cause, ExceptionName(it.cause), it.epc, it.handler)
  }

  /** The static `etrace_buf` struct: items, ptr and count. */
  class EtraceBuf {
    const items: array<EtraceItem>
    var ptr: nat
    var count: nat
    /** Every record pushed since start-up, oldest first. */
    ghost var pushed: seq<EtraceItem>

    function State(): RingState<EtraceItem>
      reads this, items
    {
      RingState(items[..], ptr, count)
    }

    ghost predicate Valid()
      reads this, items
    {
      items.Length == EtraceBufSize && RingInv(State(), EtraceBufSize, pushed)
    }

    constructor ()
      ensures Valid() && fresh(items) && ptr == 0 && count == 0 && pushed == []
    {
      items := new EtraceItem[EtraceBufSize](_ => EtraceItem(0, 0, 0, 'E'));
      ptr, count := 0, 0;
      pushed := [];
    }

    /** etrace_push: behaves exactly as RINGBUF_PUSH with capacity 16. */
    method Push(kind: char, cause: Word, epc: Word, handler: Word)
      requires Valid()
      modifies this, items
      ensures Valid()
      ensures State() == PushStep(old(State()), EtraceItem(cause, epc, handler, kind), EtraceBufSize)
      ensures pushed == old(pushed) + [EtraceItem(cause, epc, handler, kind)]
    {
      var item := EtraceItem(cause, epc, handler, kind);
      ghost var st := State();
      PushKeepsInv(st, EtraceBufSize, pushed, item);
      items[ptr] := item;
      if count < EtraceBufSize {
        count := count + 1;
      }
      ptr := (ptr + 1) % EtraceBufSize;
      pushed := pushed + [item];
      assert State() == PushStep(st, item, EtraceBufSize);
    }

    /**
     * etrace_dump: one line per valid record, oldest first, from
     * (ptr + 16 - count) % 16; nothing when the buffer is empty.
     */
    method Dump() returns (lines: seq<EtraceLine>)
      requires Valid()
      ensures |lines| == Min(|pushed|, EtraceBufSize)
      ensures forall k :: 0 <= k < |lines| ==> lines[k] == RenderTrap(Window(pushed, EtraceBufSize)[k])
      ensures pushed == [] ==> lines == []
    {
      ghost var w := Window(pushed, EtraceBufSize);
      ghost var st := State();
      assert Ordered(st, EtraceBufSize) == w;
      if count == 0 {
        return [];
      }
      var valid := count;
      var start := (ptr + EtraceBufSize - valid) % EtraceBufSize;
      lines := [];
      var idx := 0;
      while idx < valid
        invariant 0 <= idx <= valid && |lines| == idx
        invariant forall k :: 0 <= k < idx ==> lines[k] == RenderTrap(w[k])
      {
        var pos := (start + idx) % EtraceBufSize;
        var it := items[pos];
        assert it == st.items[pos];
        lines := lines + [RenderTrap(it)];
        idx := idx + 1;
      }
    }
  }

  /** The machine trap CSRs this file uses, and the exception trace. */
  class TrapController {
    var mcause: Word
    var mepc: Word
    var mtvec: Word
    const etrace: EtraceBuf

    constructor (mtvec: Word)
      ensures etrace.Valid() && etrace.pushed == [] && fresh(etrace) && fresh(etrace.items)
      ensures this.mtvec == mtvec && mcause == 0 && mepc == 0
    {
      this.mtvec := mtvec;
      mcause, mepc := 0, 0;
      etrace := new EtraceBuf();
    }

    /**
     * isa_raise_intr(NO, epc): trace an 'E' record whose handler is mtvec, set
     * mcause := NO and mepc := epc, and return mtvec, which is unchanged.
     */
    method RaiseIntr(no: Word, epc: Word) returns (handler: Word)
      requires etrace.Valid() && !IsInterrupt(no)
      modifies this, etrace, etrace.items
      ensures etrace.Valid()
      ensures mcause == no && mepc == epc && mtvec == old(mtvec)
      ensures handler == mtvec
      ensures etrace.pushed == old(etrace.pushed) + [EtraceItem(no, epc, handler, 'E')]
    {
      etrace.Push('E', no, epc, mtvec);
      mcause := no;
      mepc := epc;
      handler := mtvec;
    }

    /**
     * isa_return_intr: trace an 'R' record holding mcause and mepc (handler 0) and
     * return mepc. No CSR is written.
     */
    method ReturnIntr() returns (resume: Word)
      requires etrace.Valid() && !IsInterrupt(mcause)
      modifies etrace, etrace.items
      ensures etrace.Valid()
      ensures resume == mepc
      ensures etrace.pushed == old(etrace.pushed) + [EtraceItem(mcause, mepc, 0, 'R')]
    {
      var saved := mepc;
      etrace.Push('R', mcause, saved, 0);
      resume := saved;
    }

    /** A raise followed by a return resumes at the raised epc and traces 'E' then 'R'. */
    method RaiseThenReturn(no: Word, epc: Word) returns (handler: Word, resume: Word)
      requires etrace.Valid() && !IsInterrupt(no)
      modifies this, etrace, etrace.items
      ensures etrace.Valid()
      ensures handler == old(mtvec) && resume == epc
      ensures etrace.pushed ==
              old(etrace.pushed) + [EtraceItem(no, epc, handler, 'E'), EtraceItem(no, epc, 0, 'R')]
    {
      handler := RaiseIntr(no, epc);
      resume := ReturnIntr();
    }
  }

  /** isa_query_intr: this core has no interrupt source, so no interrupt is ever pending. */
  function QueryIntr(): (r: Word)
    ensures r == IntrEmpty
  {
    IntrEmpty
  }
}
