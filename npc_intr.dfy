/**
 * npc's exception trace (isa/riscv32/system/intr.c): the same exception-name
 * table as nemu's, and a RINGBUF of `EtraceItem`s whose capacity is the
 * configuration's CONFIG_ETRACE_BUF_SIZE (any positive value here).
 */
module NpcIntr {
  import opened Machine
  import opened RingBuf
  import NemuIntr

  /** INTR_EMPTY, `(word_t)-1` (npc's isa.h is not part of this model). */
  const IntrEmpty: Word := 0xFFFF_FFFF

  /** One exception-trace record; `kind` is 'E' (exception), 'I' (interrupt) or 'R' (return). */
  datatype EtraceItem = EtraceItem(cause: Word, epc: Word, handler: Word, kind: char)

  /** One line of etrace_dump: a return shows only its epc. */
  datatype EtraceLine =
    | ReturnLine(kind: char, epc: Word)
    | TrapLine(kind: char, cause: Word, name: string, epc: Word, handler: Word)

  /** get_exception_name, npc's copy. */
  function ExceptionName(cause: Word): string
  {
    match cause
    case 0 => "instruction_address_misaligned"
    case 1 => "instruction_access_fault"
    case 2 => "illegal_instruction"
    case 3 => "breakpoint"
    case 4 => "load_address_misaligned"
    case 5 => "load_access_fault"
    case 6 => "store_address_misaligned"
    case 7 => "store_access_fault"
    case 8 => "user_ecall"
    case 9 => "supervisor_ecall"
    case 10 => "virtual_supervisor_ecall"
    case 11 => "machine_ecall"
    case 12 => "instruction_page_fault"
    case 13 => "load_page_fault"
    case 15 => "store_page_fault"
    case _ => "unknown"
  }

  /** npc's table is total and agrees with nemu's on every cause. */
  lemma SameNamesAsNemu(cause: Word)
    ensures ExceptionName(cause) == NemuIntr.ExceptionName(cause)
  {
  }

  /** How etrace_dump prints one record. */
  function RenderTrap(it: EtraceItem): (line: EtraceLine)
    ensures line.ReturnLine? <==> it.kind == 'R'
    ensures line.epc == it.epc && line.kind == it.kind
    ensures line.TrapLine? ==> line.cause == it.cause && line.handler == it.handler &&
                               line.name == ExceptionName(it.cause)
  {
    if it.kind == 'R' then ReturnLine(it.kind, it.epc)
    else TrapLine(it.kind, it.cause, ExceptionName(it.cause), it.epc, it.handler)
  }

  /** etrace_push: exactly one RINGBUF_PUSH of the record built from the arguments. */
  method EtracePush(buf: RingBuffer<EtraceItem>, kind: char, cause: Word, epc: Word, handler: Word)
    requires buf.Valid()
    modifies buf, buf.items
    ensures buf.Valid()
    ensures buf.State() == PushStep(old(buf.State()), EtraceItem(cause, epc, handler, kind), buf.capacity)
    ensures buf.pushed == old(buf.pushed) + [EtraceItem(cause, epc, handler, kind)]
  {
    buf.Push(EtraceItem(cause, epc, handler, kind));
  }

  /** The body of RINGBUF_FOREACH in etrace_dump: one line per record, in order. */
  method RenderAll(records: seq<EtraceItem>) returns (lines: seq<EtraceLine>)
    ensures |lines| == |records|
    ensures forall k :: 0 <= k < |lines| ==> lines[k] == RenderTrap(records[k])
  {
    lines := [];
    var idx := 0;
    while idx < |records|
      invariant 0 <= idx <= |records| && |lines| == idx
      invariant forall k :: 0 <= k < idx ==> lines[k] == RenderTrap(records[k])
    {
      var it := records[idx];
      if it.kind == 'R' {
        lines := lines + [ReturnLine(it.kind, it.epc)];
      } else {
        lines := lines + [TrapLine(it.kind, it.cause, ExceptionName(it.cause), it.epc, it.handler)];
      }
      idx := idx + 1;
    }
  }

  /** etrace_dump: one line per valid record, oldest first; nothing when the buffer is empty. */
  method EtraceDump(buf: RingBuffer<EtraceItem>) returns (lines: seq<EtraceLine>)
    requires buf.Valid()
    ensures |lines| == Min(|buf.pushed|, buf.capacity)
    ensures forall k :: 0 <= k < |lines| ==> lines[k] == RenderTrap(Window(buf.pushed, buf.capacity)[k])
    ensures buf.pushed == [] ==> lines == []
  {
    if buf.IsEmpty() {
      return [];
    }
    var visited := buf.Foreach();
    lines := RenderAll(visited);
  }

  /** isa_query_intr: no interrupt is ever pending. */
  function QueryIntr(): (r: Word)
    ensures r == IntrEmpty
  {
    NemuIntr.QueryIntr()
  }

  /** npc prints every trace record as nemu does, and answers the interrupt query alike. */
  lemma SameAsNemu(it: EtraceItem)
    ensures var n := NemuIntr.RenderTrap(NemuIntr.EtraceItem(it.cause, it.epc, it.handler, it.kind));
            match RenderTrap(it)
            case ReturnLine(k, e) => n == NemuIntr.ReturnLine(k, e)
            case TrapLine(k, c, name, e, h) => n == NemuIntr.TrapLine(k, c, name, e, h)
    ensures QueryIntr() == NemuIntr.QueryIntr()
  {
    SameNamesAsNemu(it.cause);
  }
}
