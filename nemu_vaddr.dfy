/**
 * nemu's virtual-memory entry points (memory/vaddr.c). Translation is the
 * identity: every access goes straight to the physical layer, whose functions
 * paddr_read and paddr_write are not part of this model. A read is a
 * function-valued parameter; a write is returned as the request handed on to
 * paddr_write. Reads and writes are recorded in the memory trace, a RINGBUF of
 * 16 `MtraceItem`s, when the trace condition (CONFIG_MTRACE_COND, a
 * parameter here) holds; the CPU's pc is a parameter too.
 */
module NemuVaddr {
  import opened Machine
  import opened RingBuf

  const MtraceBufSize: nat := 16

  /** One memory-trace record; `kind` is 'I' (fetch), 'R' (read) or 'W' (write). */
  datatype MtraceItem = MtraceItem(addr: Word, len: int, data: Word, kind: char, pc: Word)

  /** The arguments vaddr_write hands on to paddr_write. */
  datatype PaddrWrite = PaddrWrite(addr: Word, len: int, data: Word)

  ghost predicate TraceBuffer(buf: RingBuffer<MtraceItem>)
    reads buf, buf.items
  {
    buf.Valid() && buf.capacity == MtraceBufSize
  }

  /** mtrace_push: exactly one RINGBUF_PUSH of the record built from the arguments. */
  method MtracePush(buf: RingBuffer<MtraceItem>, kind: char, addr: Word, len: int, data: Word, pc: Word)
    requires TraceBuffer(buf)
    modifies buf, buf.items
    ensures TraceBuffer(buf)
    ensures buf.State() == PushStep(old(buf.State()), MtraceItem(addr, len, data, kind, pc), MtraceBufSize)
    ensures buf.pushed == old(buf.pushed) + [MtraceItem(addr, len, data, kind, pc)]
  {
    buf.Push(MtraceItem(addr, len, data, kind, pc));
  }

  /**
   * mtrace_dump: the records it lists, oldest first. Nothing is listed (not even
   * the heading) when the buffer is empty.
   */
  method MtraceDump(buf: RingBuffer<MtraceItem>) returns (listed: seq<MtraceItem>)
    requires TraceBuffer(buf)
    ensures listed == Window(buf.pushed, MtraceBufSize)
    ensures buf.pushed == [] <==> listed == []
    ensures |listed| == Min(|buf.pushed|, MtraceBufSize)
  {
    if buf.IsEmpty() {
      return [];
    }
    listed := buf.Foreach();
  }

  /** vaddr_ifetch: the physical read, with no trace record (it has no buffer to touch). */
  function VaddrIfetch(paddrRead: (Word, int) -> Word, addr: Word, len: int): (data: Word)
    ensures data == paddrRead(addr, len)
  {
    paddrRead(addr, len)
  }

  /** vaddr_read: returns the physical read unchanged; traces an 'R' record iff the condition holds. */
  method VaddrRead(buf: RingBuffer<MtraceItem>, paddrRead: (Word, int) -> Word, traceCond: bool,
                   addr: Word, len: int, pc: Word) returns (data: Word)
    requires TraceBuffer(buf)
    modifies buf, buf.items
    ensures TraceBuffer(buf)
    ensures data == paddrRead(addr, len)
    ensures buf.pushed == old(buf.pushed) + (if traceCond then [MtraceItem(addr, len, data, 'R', pc)] else [])
    ensures !traceCond ==> buf.State() == old(buf.State())
  {
    data := paddrRead(addr, len);
    if traceCond {
      MtracePush(buf, 'R', addr, len, data, pc);
    }
  }

  /** vaddr_write: traces a 'W' record iff the condition holds, then forwards the same arguments. */
  method VaddrWrite(buf: RingBuffer<MtraceItem>, traceCond: bool, addr: Word, len: int, data: Word, pc: Word)
    returns (forwarded: PaddrWrite)
    requires TraceBuffer(buf)
    modifies buf, buf.items
    ensures TraceBuffer(buf)
    ensures forwarded == PaddrWrite(addr, len, data)
    ensures buf.pushed == old(buf.pushed) + (if traceCond then [MtraceItem(addr, len, data, 'W', pc)] else [])
    ensures !traceCond ==> buf.State() == old(buf.State())
  {
    if traceCond {
      MtracePush(buf, 'W', addr, len, data, pc);
    }
    forwarded := PaddrWrite(addr, len, data);
  }
}
