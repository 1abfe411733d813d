/**
 * npc's virtual-memory entry points (memory/vaddr.c). The same passthroughs as
 * nemu's, but the memory trace is a hand-rolled ring of 16 records rather than
 * a RINGBUF. Its push is proved to be the abstract RINGBUF_PUSH step with
 * capacity 16 (`RingBuf.PushStep`), and its dump to list the same window.
 */
module NpcVaddr {
  import opened Machine
  import opened RingBuf
  import NemuVaddr

  const MtraceBufSize: nat := 16

  /** One memory-trace record; `kind` is 'I' (fetch), 'R' (read) or 'W' (write). */
  datatype MtraceItem = MtraceItem(addr: Word, len: int, data: Word, kind: char, pc: Word)

  /** The arguments vaddr_write hands on to paddr_write. */
  datatype PaddrWrite = PaddrWrite(addr: Word, len: int, data: Word)

  /** The static `mtrace_buf` struct: items, ptr and count. */
  class MtraceBuf {
    const items: array<MtraceItem>
    var ptr: nat
    var count: nat
    /** Every record pushed since start-up, oldest first. */
    ghost var pushed: seq<MtraceItem>

    function State(): RingState<MtraceItem>
      reads this, items
    {
      RingState(items[..], ptr, count)
    }

    ghost predicate Valid()
      reads this, items
    {
      items.Length == MtraceBufSize && RingInv(State(), MtraceBufSize, pushed)
    }

    /** The static initialiser `{.ptr = 0, .count = 0}`. */
    constructor ()
      ensures Valid() && fresh(items) && ptr == 0 && count == 0 && pushed == []
    {
      items := new MtraceItem[MtraceBufSize](_ => MtraceItem(0, 0, 0, 'I', 0));
      ptr, count := 0, 0;
      pushed := [];
    }

    /** mtrace_push: behaves exactly as RINGBUF_PUSH with capacity 16. */
    method Push(kind: char, addr: Word, len: int, data: Word, pc: Word)
      requires Valid()
      modifies this, items
      ensures Valid()
      ensures State() == PushStep(old(State()), MtraceItem(addr, len, data, kind, pc), MtraceBufSize)
      ensures pushed == old(pushed) + [MtraceItem(addr, len, data, kind, pc)]
    {
      var item := MtraceItem(addr, len, data, kind, pc);
      ghost var st := State();
      PushKeepsInv(st, MtraceBufSize, pushed, item);
      items[ptr] := item;
      if count < MtraceBufSize {
        count := count + 1;
      }
      ptr := (ptr + 1) % MtraceBufSize;
      pushed := pushed + [item];
      assert State() == PushStep(st, item, MtraceBufSize);
    }

    /**
     * mtrace_dump: starts at (ptr + 16 - count) % 16 and lists `count` records,
     * oldest first; nothing when the buffer is empty.
     */
    method Dump() returns (listed: seq<MtraceItem>)
      requires Valid()
      ensures listed == Ordered(State(), MtraceBufSize)
      ensures listed == Window(pushed, MtraceBufSize)
      ensures pushed == [] <==> listed == []
    {
      if count == 0 {
        return [];
      }
      var valid := count;
      var start := (ptr + MtraceBufSize - valid) % MtraceBufSize;
      listed := [];
      var idx := 0;
      while idx < valid
        invariant 0 <= idx <= valid
        invariant listed == Ordered(State(), MtraceBufSize)[..idx]
      {
        var pos := (start + idx) % MtraceBufSize;
        listed := listed + [items[pos]];
        idx := idx + 1;
      }
      assert listed == Ordered(State(), MtraceBufSize);
    }
  }

  /** vaddr_ifetch: the physical read, with no trace record, exactly as nemu's. */
  function VaddrIfetch(paddrRead: (Word, int) -> Word, addr: Word, len: int): (data: Word)
    ensures data == paddrRead(addr, len)
  {
    NemuVaddr.VaddrIfetch(paddrRead, addr, len)
  }

  /** vaddr_read: returns the physical read unchanged; traces an 'R' record iff the condition holds. */
  method VaddrRead(buf: MtraceBuf, paddrRead: (Word, int) -> Word, traceCond: bool,
                   addr: Word, len: int, pc: Word) returns (data: Word)
    requires buf.Valid()
    modifies buf, buf.items
    ensures buf.Valid()
    ensures data == paddrRead(addr, len)
    ensures buf.pushed == old(buf.pushed) + (if traceCond then [MtraceItem(addr, len, data, 'R', pc)] else [])
    ensures !traceCond ==> buf.State() == old(buf.State())
  {
    data := paddrRead(addr, len);
    if traceCond {
      buf.Push('R', addr, len, data, pc);
    }
  }

  /** vaddr_write: traces a 'W' record iff the condition holds, then forwards the same arguments. */
  method VaddrWrite(buf: MtraceBuf, traceCond: bool, addr: Word, len: int, data: Word, pc: Word)
    returns (forwarded: PaddrWrite)
    requires buf.Valid()
    modifies buf, buf.items
    ensures buf.Valid()
    ensures forwarded == PaddrWrite(addr, len, data)
    ensures buf.pushed == old(buf.pushed) + (if traceCond then [MtraceItem(addr, len, data, 'W', pc)] else [])
    ensures !traceCond ==> buf.State() == old(buf.State())
  {
    if traceCond {
      buf.Push('W', addr, len, data, pc);
    }
    forwarded := PaddrWrite(addr, len, data);
  }
}
