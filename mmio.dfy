/**
 * The MMIO bus of npc (device/io/mmio.c): the region table `maps`/`nr_map`,
 * registration with eager overlap rejection, lookup, and the device trace, a
 * hand-rolled ring of 16 `DtraceItem`s. The device read and write functions
 * map_read and map_write are not part of this model: a read is a
 * function-valued parameter and a write is returned as the request handed on.
 *
 * in_pmem is not shown either; it is modelled as membership of the closed
 * interval [PMEM_LEFT, PMEM_RIGHT] that the overlap report prints for it.
 */
module Mmio {
  import opened Machine
  import opened RingBuf
  import opened DeviceMap

  const DtraceBufSize: nat := 16

  /**
   * One device-trace record. `map` is the table index the record's IOMap pointer
   * designates, or None for NULL; `kind` is meant to be 'R' or 'W'.
   */
  datatype DtraceItem = DtraceItem(region: Option<nat>, data: Word, len: int, kind: char, pc: Word)

  /** One line of dtrace_dump: the record's data cut to its access width. */
  datatype DeviceLine = DeviceLine(kind: char, pc: Word, device: string, data: Word)

  /** What add_mmio_map does: register, or stop at its assertion or at an overlap panic. */
  datatype AddResult =
    | Added
    | TableFull
    | OverlapsPmem(name: string, left: Word, right: Word)
    | OverlapsRegion(name: string, left: Word, right: Word, other: nat)

  /** The last address of a region of `len` bytes at `addr`, computed in 32-bit paddr_t. */
  function RightEnd(addr: Word, len: Word): (r: Word)
    ensures 1 <= len && addr + len <= WordMod ==> r == addr + len - 1
    ensures len == 0 ==> r == if addr == 0 then 0xFFFF_FFFF else addr - 1
  {
    Wrap(addr + len - 1)
  }

  /** The overlap test of the registration loop. */
  predicate Clashes(left: Word, right: Word, m: IOMap)
  {
    left <= m.high && right >= m.low
  }

  /**
   * How dtrace_dump prints one record: widths 1, 2 and 4 show the data cut to that
   * many bytes; any other width fails its assertion, and a NULL map cannot be named.
   */
  function RenderDevice(it: DtraceItem, maps: seq<IOMap>): (r: Option<DeviceLine>)
    ensures r.Some? <==> it.len in {1, 2, 4} && it.region.Some? && it.region.value < |maps|
    ensures r.Some? ==> r.value.data < Pow256(it.len) && r.value.data == it.data % Pow256(it.len)
    ensures r.Some? ==> r.value.device == maps[it.region.value].name && r.value.kind == it.kind
  {
    if it.len !in {1, 2, 4} || it.region.None? || it.region.value >= |maps| then None
    else Some(DeviceLine(it.kind, it.pc, maps[it.region.value].name, it.data % Pow256(it.len)))
  }

  function Pow256(len: int): nat
  {
    if len == 1 then 0x100 else if len == 2 then 0x1_0000 else 0x1_0000_0000
  }

  /** The static `dtrace_buf` struct: items, ptr and count. */
  class DtraceBuf {
    const items: array<DtraceItem>
    var ptr: nat
    var count: nat
    /** Every record pushed since start-up, oldest first. */
    ghost var pushed: seq<DtraceItem>

    function State(): RingState<DtraceItem>
      reads this, items
    {
      RingState(items[..], ptr, count)
    }

    ghost predicate Valid()
      reads this, items
    {
      items.Length == DtraceBufSize && RingInv(State(), DtraceBufSize, pushed)
    }

    constructor ()
      ensures Valid() && fresh(items) && ptr == 0 && count == 0 && pushed == []
    {
      items := new DtraceItem[DtraceBufSize](_ => DtraceItem(None, 0, 0, 'R', 0));
      ptr, count := 0, 0;
      pushed := [];
    }

    /** dtrace_push: behaves exactly as RINGBUF_PUSH with capacity 16. */
    method Push(region: Option<nat>, data: Word, len: int, kind: char, pc: Word)
      requires Valid()
      modifies this, items
      ensures Valid()
      ensures State() == PushStep(old(State()), DtraceItem(region, data, len, kind, pc), DtraceBufSize)
      ensures pushed == old(pushed) + [DtraceItem(region, data, len, kind, pc)]
    {
      var item := DtraceItem(region, data, len, kind, pc);
      ghost var st := State();
      PushKeepsInv(st, DtraceBufSize, pushed, item);
      items[ptr] := item;
      if count < DtraceBufSize {
        count := count + 1;
      }
      ptr := (ptr + 1) % DtraceBufSize;
      pushed := pushed + [item];
      assert State() == PushStep(st, item, DtraceBufSize);
    }
  }

  /** The bus: the region table, the physical-memory bounds and the device trace. */
  class MmioBus {
    const maps: array<IOMap>
    var nrMap: nat
    const pmemLeft: Word
    const pmemRight: Word
    const dtrace: DtraceBuf

    /** in_pmem. */
    predicate InPmem(a: Word)
      reads this
    {
      pmemLeft <= a <= pmemRight
    }

    /**
     * The table holds at most NR_MAP regions, no registered region has an endpoint
     * in physical memory, registered regions are pairwise disjoint, and every
     * traced map pointer designates a registered region.
     */
    ghost predicate Valid()
      reads this, maps, dtrace, dtrace.items
    {
      maps.Length == NrMap && nrMap <= NrMap &&
      PairwiseDisjoint(maps[..nrMap]) &&
      (forall i :: 0 <= i < nrMap ==> !InPmem(maps[i].low) && !InPmem(maps[i].high)) &&
      dtrace.Valid() &&
      (forall k :: 0 <= k < |dtrace.pushed| && dtrace.pushed[k].region.Some? ==>
         dtrace.pushed[k].region.value < nrMap)
    }

    /** `IOMap maps[NR_MAP] = {}; int nr_map = 0;` and an empty device trace. */
    constructor (pmemLeft: Word, pmemRight: Word)
      ensures Valid() && nrMap == 0 && dtrace.pushed == []
      ensures this.pmemLeft == pmemLeft && this.pmemRight == pmemRight
      ensures fresh(maps) && fresh(dtrace) && fresh(dtrace.items)
    {
      maps := new IOMap[NrMap](_ => IOMap("", 0, 0, 0, 0));
      nrMap := 0;
      this.pmemLeft, this.pmemRight := pmemLeft, pmemRight;
      dtrace := new DtraceBuf();
    }

    /**
     * add_mmio_map: register [addr, addr + len - 1]. The table-size assertion is
     * checked first, then the two endpoints against physical memory, then every
     * registered region in order; any failure leaves the table as it was.
     */
    method AddMmioMap(name: string, addr: Word, space: nat, len: Word, callback: nat)
      returns (res: AddResult)
      requires Valid()
      modifies this, maps
      ensures Valid()
      ensures res == TableFull <==> old(nrMap) >= NrMap
      ensures res == Added <==>
        old(nrMap) < NrMap && !InPmem(addr) && !InPmem(RightEnd(addr, len)) &&
        forall i :: 0 <= i < old(nrMap) ==> !Clashes(addr, RightEnd(addr, len), old(maps[i]))
      ensures res.OverlapsPmem? ==>
        old(nrMap) < NrMap && (InPmem(addr) || InPmem(RightEnd(addr, len))) &&
        res == OverlapsPmem(name, addr, RightEnd(addr, len))
      ensures res.OverlapsRegion? ==>
        old(nrMap) < NrMap && !InPmem(addr) && !InPmem(RightEnd(addr, len)) &&
        res.name == name && res.left == addr && res.right == RightEnd(addr, len) &&
        res.other < old(nrMap) && Clashes(addr, RightEnd(addr, len), old(maps[res.other])) &&
        forall j :: 0 <= j < res.other ==> !Clashes(addr, RightEnd(addr, len), old(maps[j]))
      ensures res == Added ==>
        nrMap == old(nrMap) + 1 &&
        maps[..nrMap] == old(maps[..nrMap]) + [IOMap(name, addr, RightEnd(addr, len), space, callback)]
      ensures res != Added ==> nrMap == old(nrMap) && maps[..] == old(maps[..])
      ensures forall i :: nrMap <= i < NrMap ==> maps[i] == old(maps[i])
    {
      if nrMap >= NrMap {
        return TableFull;
      }
      var left, right := addr, RightEnd(addr, len);
      if InPmem(left) || InPmem(right) {
        return OverlapsPmem(name, left, right);
      }
      var i := 0;
      while i < nrMap
        invariant 0 <= i <= nrMap
        invariant forall j :: 0 <= j < i ==> !Clashes(left, right, maps[j])
      {
        if left <= maps[i].high && right >= maps[i].low {
          return OverlapsRegion(name, left, right, i);
        }
        i := i + 1;
      }
      ghost var before := maps[..nrMap];
      maps[nrMap] := IOMap(name, addr, RightEnd(addr, len), space, callback);
      nrMap := nrMap + 1;
      res := Added;
      assert maps[..nrMap] == before + [maps[nrMap - 1]];
      forall a, b | 0 <= a < b < nrMap ensures Disjoint(maps[..nrMap][a], maps[..nrMap][b]) {
        if b < nrMap - 1 {
          assert maps[..nrMap][a] == before[a] && maps[..nrMap][b] == before[b];
        }
      }
    }

    /** fetch_mmio_map: the index of the first region containing `addr`, or None for NULL. */
    method FetchMmioMap(addr: Word) returns (m: Option<nat>, skipRef: bool)
      requires Valid()
      ensures m.None? <==> forall i :: 0 <= i < nrMap ==> !MapInside(maps[i], addr)
      ensures m.Some? ==> m.value < nrMap && MapInside(maps[m.value], addr)
      ensures m.Some? ==> forall j :: 0 <= j < nrMap && MapInside(maps[j], addr) ==> j == m.value
      ensures skipRef <==> m.Some?
    {
      var id;
      id, skipRef := FindMapId(maps, nrMap, addr);
      if id == -1 {
        m := None;
      } else {
        m := Some(id);
        FoundIsUnique(maps[..], nrMap, addr, id);
      }
    }

    /**
     * mmio_read: look the address up, read through the region, trace an 'R'
     * record. An unmapped address is fatal in map_read (None), before any trace.
     */
    method MmioRead(addr: Word, len: int, mapRead: (Word, int, IOMap) -> Word, pc: Word)
      returns (r: Option<Word>)
      requires Valid()
      modifies dtrace, dtrace.items
      ensures Valid()
      ensures r.None? <==> forall i :: 0 <= i < nrMap ==> !MapInside(maps[i], addr)
      ensures r.None? ==> dtrace.pushed == old(dtrace.pushed)
      ensures r.Some? ==>
        exists i :: (0 <= i < nrMap && MapInside(maps[i], addr) &&
                     r.value == mapRead(addr, len, maps[i]) &&
                     dtrace.pushed == old(dtrace.pushed) + [DtraceItem(Some(i), r.value, len, 'R', pc)])
    {
      var m, _ := FetchMmioMap(addr);
      if m.None? {
        return None;
      }
      var data := mapRead(addr, len, maps[m.value]);
      dtrace.Push(m, data, len, 'R', pc);
      r := Some(data);
    }

    /**
     * mmio_write: look the address up, trace the record, hand the write on. As
     * written, the record's type is 'R', the same as for a read. The trace push
     * happens before map_write, so an unmapped write is traced (with a NULL map)
     * and then fails there (None).
     */
    method MmioWrite(addr: Word, len: int, data: Word, pc: Word) returns (forwarded: Option<nat>)
      requires Valid()
      modifies dtrace, dtrace.items
      ensures Valid()
      ensures forwarded.None? <==> forall i :: 0 <= i < nrMap ==> !MapInside(maps[i], addr)
      ensures forwarded.Some? ==> forwarded.value < nrMap && MapInside(maps[forwarded.value], addr)
      ensures dtrace.pushed == old(dtrace.pushed) + [DtraceItem(forwarded, data, len, 'R', pc)]
    {
      var m, _ := FetchMmioMap(addr);
      dtrace.Push(m, data, len, 'R', pc);
      forwarded := m;
    }

    /**
     * The loop of dtrace_dump over the valid records in visiting order: it stops at
     * the first record that cannot be printed.
     */
    method RenderRecords() returns (lines: seq<DeviceLine>, ok: bool)
      requires dtrace.items.Length == DtraceBufSize && WellFormed(dtrace.State(), DtraceBufSize)
      requires forall k :: 0 <= k < dtrace.count ==>
                 var it := Ordered(dtrace.State(), DtraceBufSize)[k];
                 it.region.Some? ==> it.region.value < maps.Length
      ensures var o := Ordered(dtrace.State(), DtraceBufSize);
              (ok <==> forall k :: 0 <= k < |o| ==> RenderDevice(o[k], maps[..]).Some?) &&
              |lines| <= |o| && (ok ==> |lines| == |o|) &&
              (forall k :: 0 <= k < |lines| ==> RenderDevice(o[k], maps[..]) == Some(lines[k])) &&
              (!ok ==> RenderDevice(o[|lines|], maps[..]).None?)
    {
      ghost var st := dtrace.State();
      ghost var o := Ordered(st, DtraceBufSize);
      lines := [];
      var valid := dtrace.count;
      var start := (dtrace.ptr + DtraceBufSize - valid) % DtraceBufSize;
      var idx := 0;
      while idx < valid
        invariant 0 <= idx <= valid && |lines| == idx
        invariant forall k :: 0 <= k < idx ==> RenderDevice(o[k], maps[..]) == Some(lines[k])
      {
        var pos := (start + idx) % DtraceBufSize;
        var it := dtrace.items[pos];
        assert it == st.items[pos] == o[idx];
        if it.len !in {1, 2, 4} || it.region.None? {
          return lines, false;
        }
        var name := maps[it.region.value].name;
        lines := lines + [DeviceLine(it.kind, it.pc, name, it.data % Pow256(it.len))];
        idx := idx + 1;
      }
      ok := true;
    }

    /**
     * dtrace_dump: the lines printed, oldest record first. `ok` is false when a
     * record stops the dump (a width other than 1, 2 or 4, or a NULL map); the
     * lines before it have been printed.
     */
    method DtraceDump() returns (lines: seq<DeviceLine>, ok: bool)
      requires Valid()
      ensures ok <==> forall k :: 0 <= k < Min(|dtrace.pushed|, DtraceBufSize) ==>
                        RenderDevice(Window(dtrace.pushed, DtraceBufSize)[k], maps[..]).Some?
      ensures |lines| <= Min(|dtrace.pushed|, DtraceBufSize)
      ensures forall k :: 0 <= k < |lines| ==>
                RenderDevice(Window(dtrace.pushed, DtraceBufSize)[k], maps[..]) == Some(lines[k])
      ensures ok ==> |lines| == Min(|dtrace.pushed|, DtraceBufSize)
      ensures !ok ==> RenderDevice(Window(dtrace.pushed, DtraceBufSize)[|lines|], maps[..]).None?
    {
      ghost var w := Window(dtrace.pushed, DtraceBufSize);
      assert Ordered(dtrace.State(), DtraceBufSize) == w;
      forall k | 0 <= k < dtrace.count
        ensures var it := Ordered(dtrace.State(), DtraceBufSize)[k];
                it.region.Some? ==> it.region.value < maps.Length
      {
        assert w[k] == dtrace.pushed[|dtrace.pushed| - |w| + k];
      }
      lines, ok := RenderRecords();
    }
  }

  /**
   * As written, the physical-memory test looks only at the two endpoints: a region
   * that encloses the whole of physical memory passes it.
   */
  lemma EnclosingRegionPassesPmemCheck(bus: MmioBus)
    requires 0 < bus.pmemLeft <= bus.pmemRight < 0xFFFF_FFFF
    ensures var left, right := bus.pmemLeft - 1, bus.pmemRight + 1;
            !bus.InPmem(left) && !bus.InPmem(right) &&
            left <= bus.pmemLeft <= right && bus.InPmem(bus.pmemLeft)
  {
  }
}
