# ysyx-digital core, modelled in Dafny

This project models the core of the ysyx-digital repository and proves properties of the model. The core consists of the following parts:

- the bounded ring trace buffers of the `nemu` emulator and the `npc` processor simulator:
  - the generic `RINGBUF_*` macros;
  - the hand-rolled memory, device and exception traces;
- the MMIO region table: registration with eager overlap rejection, and first-match lookup;
- the RV32 trap CSR protocol (`mcause`, `mepc`, `mtvec`) and the exception-name table;
- the difference-test register check;
- the abstract-machine `klib`, covering string routines, `rand`, `atoi`, the bump allocator `malloc`, `sprintint`, and the `vsnprintf` family;
- the golden models of three digital-lab testbenches: a 4-bit ALU, an 8-bit LFSR, and a PS/2 frame.

The configuration is fixed as follows:

- RV32, so `word_t`, `paddr_t`, `size_t`, `unsigned long` and pointers are 32 bits wide;
- 32 general-purpose registers, with RVE available as a parameter;
- every trace enabled (`CONFIG_MTRACE`, `CONFIG_DTRACE`, `CONFIG_ETRACE`, `CONFIG_TRACE`);
- trace buffers of 16 entries.

Parts of the system that are not shown become parameters of the model:

- functions the core calls into: `paddr_read`, `map_read` and the CSR file;
- the physical-memory bounds behind `in_pmem`.

A write to an unseen layer (`paddr_write`, `map_write`) is returned as the request handed on.

The code has the following shape:

- Imperative code that updates state in place is modelled as classes over arrays, with `modifies` frames and loop invariants. This covers the ring buffers, the region table, the allocator heap, and the string and format routines.
- Each such method is proved against a specification function on values. Examples:
  - `RingBuf.PushStep` and `RingBuf.Ordered` for the rings;
  - `KlibStdio.Output` for `vsnprintf`;
  - `KlibString.CStr` for the string routines.
- Pure code (the lab golden models, the name tables, `map_inside`) is modelled as functions and lemmas.

The modules are:

| file | models |
|---|---|
| `machine.dfy` | machine words, bytes, wrap-around |
| `ringbuf.dfy` | `npc/include/utils/ringbuf.h` |
| `nemu_vaddr.dfy`, `npc_vaddr.dfy` | `nemu/src/memory/vaddr.c`, `npc/src/memory/vaddr.c` |
| `device_map.dfy` | `nemu/include/device/map.h` |
| `mmio.dfy` | `npc/src/device/io/mmio.c` |
| `nemu_intr.dfy`, `npc_intr.dfy` | the two `isa/riscv32/system/intr.c` |
| `difftest.dfy` | `npc/src/isa/riscv32/difftest/dut.c` |
| `klib_string.dfy`, `klib_stdlib.dfy`, `klib_stdio.dfy` | `abstract-machine/klib/src/{string,stdlib,stdio}.c` |
| `alu.dfy`, `lfsr.dfy`, `ps2.dfy` | `digital/lab3`, `lab6`, `lab7` testbenches |

## Model

| member | source | states |
|---|---|---|
| RingBuf.Window | npc/include/utils/ringbuf.h:56-63 | the history a ring of `cap` slots can hold: the last min(\|s\|, cap) records of s, oldest first |
| RingBuf.WindowPush | npc/include/utils/ringbuf.h:56-63 | appending a record to the history appends it to the window and drops the oldest once the window is full |
| RingBuf.WindowAfterOverflow | npc/include/utils/ringbuf.h:59-62 | after cap + k pushes exactly the last cap records remain, in push order |
| RingBuf.PushStep | npc/include/utils/ringbuf.h:56-63 | RINGBUF_PUSH on a value: items[ptr] := x, ptr := (ptr + 1) % cap, count grows until it reaches cap (a definition; its properties are RingBuf.PushStepFacts and RingBuf.PushKeepsInv) |
| RingBuf.Init | npc/include/utils/ringbuf.h:50 | RINGBUF_INIT: ptr 0, count 0, well formed |
| RingBuf.InitInv | npc/include/utils/ringbuf.h:50 | the initial ring represents the empty history |
| RingBuf.PushStepFacts | npc/include/utils/ringbuf.h:56-63 | a push keeps count <= capacity and ptr < capacity, sets count to min(count + 1, capacity) and ptr to (ptr + 1) mod capacity, and writes only the slot under the old ptr |
| RingBuf.Start | npc/include/utils/ringbuf.h:66-67 | RINGBUF_START is a slot index below the capacity |
| RingBuf.Slot | npc/include/utils/ringbuf.h:89-92 | the slot FOREACH reads at iteration k is below the capacity |
| RingBuf.SlotNext | npc/include/utils/ringbuf.h:89-92 | FOREACH starts at START and steps one slot modulo the capacity |
| RingBuf.SlotIs | npc/include/utils/ringbuf.h:66-67 | the slot of iteration k is ptr - count + k, reduced once around the ring |
| RingBuf.Ordered | npc/include/utils/ringbuf.h:89-92 | FOREACH visits exactly `count` records |
| RingBuf.PushSlot | npc/include/utils/ringbuf.h:58-62 | where a push moves each visited slot: the newest is the old ptr, and the others keep or shift by one record |
| RingBuf.PushKeepsInv | npc/include/utils/ringbuf.h:56-63 | a push on the slots refines appending to the history: the ring still holds the window of the longer history |
| RingBuf.EmptyIffNothingPushed | npc/include/utils/ringbuf.h:70 | RINGBUF_EMPTY holds exactly while nothing has been pushed |
| RingBuf.LastIsNewest | npc/include/utils/ringbuf.h:95 | the record at idx == count - 1 (RINGBUF_IS_LAST) is the most recently pushed |
| RingBuf.PushAll | npc/include/utils/ringbuf.h:56-63 | pushing a sequence keeps the ring well formed |
| RingBuf.PushAllInv | npc/include/utils/ringbuf.h:56-63 | pushing s into a ring that represents h gives a ring that represents h + s |
| RingBuf.PushAllFromInit | npc/include/utils/ringbuf.h:89-92 | pushing s into an empty ring makes FOREACH yield the last min(\|s\|, capacity) elements of s in push order |
| RingBuf.RingBuffer.constructor | npc/include/utils/ringbuf.h:42-50 | a fresh array of `capacity` slots with ptr 0 and count 0 |
| RingBuf.RingBuffer.Push | npc/include/utils/ringbuf.h:56-63 | the new state is PushStep of the old one; items[old ptr] is the new record and every other slot is unchanged |
| RingBuf.RingBuffer.StartSlot | npc/include/utils/ringbuf.h:66-67 | (ptr + capacity - count) mod capacity is the oldest valid slot |
| RingBuf.RingBuffer.IsEmpty | npc/include/utils/ringbuf.h:70 | empty exactly when nothing has been pushed |
| RingBuf.RingBuffer.Count | npc/include/utils/ringbuf.h:73 | count is min(pushes, capacity) |
| RingBuf.RingBuffer.Get | npc/include/utils/ringbuf.h:76 | RINGBUF_GET: the record in slot pos (a definition; RingBuf.RingBuffer.Visit states what the slots visited hold) |
| RingBuf.RingBuffer.IsLast | npc/include/utils/ringbuf.h:95 | RINGBUF_IS_LAST: idx == count - 1 (a definition; RingBuf.LastIsNewest states that this record is the newest) |
| RingBuf.RingBuffer.Visit | npc/include/utils/ringbuf.h:89-92 | the FOREACH loop over idx and pos yields the records of Ordered |
| RingBuf.RingBuffer.Foreach | npc/include/utils/ringbuf.h:89-95 | FOREACH yields the last min(\|pushed\|, capacity) pushed records, oldest first, and its last record is the newest |
| NemuVaddr.MtracePush | nemu/src/memory/vaddr.c:40-43 | one RINGBUF_PUSH of the record {addr, len, data, type, pc} |
| NemuVaddr.MtraceDump | nemu/src/memory/vaddr.c:45-57 | lists nothing on an empty buffer, and otherwise the last 16 accesses, oldest first |
| NemuVaddr.VaddrIfetch | nemu/src/memory/vaddr.c:60-62 | the value is paddr_read(addr, len); it has no trace effect |
| NemuVaddr.VaddrRead | nemu/src/memory/vaddr.c:64-72 | returns paddr_read(addr, len) unchanged and pushes an 'R' record only when the trace condition holds |
| NemuVaddr.VaddrWrite | nemu/src/memory/vaddr.c:74-81 | forwards the same addr, len and data to paddr_write and pushes a 'W' record only under the trace condition |
| NpcVaddr.MtraceBuf.constructor | npc/src/memory/vaddr.c:36-40 | the hand-rolled buffer starts with ptr 0 and count 0 |
| NpcVaddr.MtraceBuf.Push | npc/src/memory/vaddr.c:42-48 | the hand-rolled push is exactly RINGBUF_PUSH with capacity 16 |
| NpcVaddr.MtraceBuf.Dump | npc/src/memory/vaddr.c:50-65 | starts at (ptr + 16 - count) mod 16 and visits count records: the last 16 pushed, oldest first |
| NpcVaddr.VaddrIfetch | npc/src/memory/vaddr.c:68-70 | a trace-free passthrough of paddr_read, exactly as nemu's |
| NpcVaddr.VaddrRead | npc/src/memory/vaddr.c:72-80 | returns paddr_read(addr, len) unchanged and pushes an 'R' record under the trace condition |
| NpcVaddr.VaddrWrite | npc/src/memory/vaddr.c:82-89 | pushes a 'W' record under the trace condition and forwards unchanged arguments to paddr_write |
| DeviceMap.DisjointNoCommonAddress | nemu/include/device/map.h:38-40 | two disjoint closed intervals share no address |
| DeviceMap.MapInside | nemu/include/device/map.h:38-40 | map_inside is the closed interval low <= addr <= high, so a region that contains an address is non-empty |
| DeviceMap.UniqueContainer | nemu/include/device/map.h:43-51 | in a pairwise-disjoint table at most one region contains an address |
| DeviceMap.FindMapId | nemu/include/device/map.h:43-51 | returns -1 exactly when no region below nr_map contains addr; otherwise the first region that does. The difftest skip happens exactly on a hit |
| DeviceMap.FoundIsUnique | nemu/include/device/map.h:43-51 | with pairwise-disjoint regions the index found is the only containing one |
| Mmio.RenderDevice | npc/src/device/io/mmio.c:110-129 | a record prints only for widths 1, 2 and 4 with a non-NULL map, and shows the data cut to that many bytes and the device's name |
| Mmio.RightEnd | npc/src/device/io/mmio.c:42 | `right = addr + len - 1` in paddr_t: the true last address when the region fits below 2^32, and addr - 1 (0xFFFFFFFF for addr 0) for len 0 |
| Mmio.MmioBus.InPmem | npc/src/device/io/mmio.c:44 | the pmem bounds test applied to each endpoint: the closed interval [PMEM_LEFT, PMEM_RIGHT] (a definition; Mmio.EnclosingRegionPassesPmemCheck states its consequence) |
| Mmio.DtraceBuf.constructor | npc/src/device/io/mmio.c:81-85 | the device trace starts with ptr 0 and count 0 |
| Mmio.DtraceBuf.Push | npc/src/device/io/mmio.c:87-95 | dtrace_push is exactly RINGBUF_PUSH with capacity 16 |
| Mmio.MmioBus.constructor | npc/src/device/io/mmio.c:21-22 | an empty table (nr_map = 0) and an empty device trace |
| Mmio.MmioBus.AddMmioMap | npc/src/device/io/mmio.c:39-64 | The table must have room (the assertion), and neither endpoint of [addr, addr + len - 1] may lie in pmem. Otherwise it reports the first registered region clashing by `left <= high && right >= low`. Every rejection leaves the table untouched. On success the region is appended at the old nr_map, earlier entries keep their order, and the table stays pairwise disjoint |
| Mmio.MmioBus.FetchMmioMap | npc/src/device/io/mmio.c:25-28 | NULL exactly when no region contains addr, else the unique containing region |
| Mmio.MmioBus.MmioRead | npc/src/device/io/mmio.c:135-145 | returns map_read of the containing region and pushes an 'R' record {map, data, len, pc} |
| Mmio.MmioBus.MmioWrite | npc/src/device/io/mmio.c:147-155 | hands the write to the containing region and pushes a record tagged 'R', as written |
| Mmio.MmioBus.RenderRecords | npc/src/device/io/mmio.c:103-130 | the dump loop renders the visited records in order and stops at the first one whose width fails the assertion |
| Mmio.MmioBus.DtraceDump | npc/src/device/io/mmio.c:97-131 | renders the last 16 device accesses, oldest first; succeeds exactly when each one renders |
| Mmio.EnclosingRegionPassesPmemCheck | npc/src/device/io/mmio.c:44-46 | the pmem test looks only at the endpoints, so a region enclosing all of pmem passes it |
| NemuIntr.ExceptionNameTable | nemu/src/isa/riscv32/system/intr.c:42-62 | codes 0-13 and 15 have distinct names; 14 and every other value map to "unknown" |
| NemuIntr.ExceptionName | nemu/src/isa/riscv32/system/intr.c:42-62 | get_exception_name's switch (a definition; NemuIntr.ExceptionNameTable states its properties) |
| NemuIntr.IsInterrupt | nemu/src/isa/riscv32/system/intr.c:98 | `(sword_t)NO < 0` holds exactly when the top bit of the 32-bit cause is set; the same test is made on mcause at line 117 |
| NemuIntr.RenderTrap | nemu/src/isa/riscv32/system/intr.c:84-91 | a return record shows only its epc; other records show cause, name, epc and handler |
| NemuIntr.EtraceBuf.constructor | nemu/src/isa/riscv32/system/intr.c:36-40 | the exception trace starts with ptr 0 and count 0 |
| NemuIntr.EtraceBuf.Push | nemu/src/isa/riscv32/system/intr.c:64-70 | etrace_push is exactly RINGBUF_PUSH with capacity 16 |
| NemuIntr.EtraceBuf.Dump | nemu/src/isa/riscv32/system/intr.c:72-93 | nothing on an empty buffer; otherwise the last 16 records rendered, oldest first |
| NemuIntr.TrapController.constructor | nemu/src/isa/riscv32/system/intr.c:36-40 | CSRs with the given mtvec and an empty exception trace |
| NemuIntr.TrapController.RaiseIntr | nemu/src/isa/riscv32/system/intr.c:96-112 | mcause := NO, mepc := epc, and the result is mtvec, which is unchanged. It pushes one 'E' record whose handler is the returned mtvec. Interrupt causes are excluded, since they reach TODO() |
| NemuIntr.TrapController.ReturnIntr | nemu/src/isa/riscv32/system/intr.c:114-127 | returns mepc, writes no CSR, and pushes an 'R' record of mcause and mepc with handler 0 |
| NemuIntr.TrapController.RaiseThenReturn | nemu/src/isa/riscv32/system/intr.c:109-126 | a raise followed by a return enters at mtvec and resumes at the raising epc, leaving two trace records |
| NemuIntr.QueryIntr | nemu/src/isa/riscv32/system/intr.c:129 | always INTR_EMPTY |
| NpcIntr.SameNamesAsNemu | npc/src/isa/riscv32/system/intr.c:36-56 | the npc name table is total and identical to the nemu one |
| NpcIntr.ExceptionName | npc/src/isa/riscv32/system/intr.c:36-56 | the npc copy of get_exception_name (a definition; NpcIntr.SameNamesAsNemu states it equals nemu's) |
| NpcIntr.SameAsNemu | npc/src/isa/riscv32/system/intr.c:62-82 | the npc rendering of a trace record and isa_query_intr give the same results as nemu's |
| NpcIntr.RenderTrap | npc/src/isa/riscv32/system/intr.c:70-77 | 'R' records show only epc; others show cause, name, epc and handler. It renders as nemu's does |
| NpcIntr.EtracePush | npc/src/isa/riscv32/system/intr.c:58-60 | exactly one RINGBUF_PUSH of {cause, epc, handler, type} |
| NpcIntr.RenderAll | npc/src/isa/riscv32/system/intr.c:68-78 | renders each visited record, in order |
| NpcIntr.EtraceDump | npc/src/isa/riscv32/system/intr.c:62-79 | nothing on an empty buffer; otherwise the ring's records rendered, oldest first |
| NpcIntr.QueryIntr | npc/src/isa/riscv32/system/intr.c:82 | always INTR_EMPTY, as nemu's |
| Difftest.NumRegs | npc/src/isa/riscv32/difftest/dut.c:64 | 16 under RVE, 32 otherwise |
| Difftest.RegRow | npc/src/isa/riscv32/difftest/dut.c:22-35 | a row is flagged MISMATCH exactly when its two values differ |
| Difftest.DiffRows | npc/src/isa/riscv32/difftest/dut.c:39-60 | one row per compared register, then one for the pc |
| Difftest.RowFlaggedIffDiffers | npc/src/isa/riscv32/difftest/dut.c:50-56 | row k is flagged exactly when gpr[k] differs (or, for the last row, the pc differs) |
| Difftest.SomeRowFlaggedIffMismatch | npc/src/isa/riscv32/difftest/dut.c:62-84 | the table flags some row exactly when the check fails |
| Difftest.CheckRegs | npc/src/isa/riscv32/difftest/dut.c:62-84 | true exactly when the first num_regs GPRs and the pc are equal, despite the early break; the table is printed exactly when it is false |
| KlibString.CLen | abstract-machine/klib/src/string.c:7-12 | the least index holding a NUL |
| KlibString.CStr | abstract-machine/klib/src/string.c:7-12 | the bytes before the first NUL, none of them NUL |
| KlibString.StrnLen | abstract-machine/klib/src/string.c:20-25 | the first NUL among the first n bytes, or n |
| KlibString.Zeros | abstract-machine/klib/src/string.c:23 | n zero bytes |
| KlibString.ByteDiff | abstract-machine/klib/src/string.c:38 | the difference of two unsigned bytes, zero exactly when they are equal |
| KlibString.Strlen | abstract-machine/klib/src/string.c:7-12 | returns the least n with s[n] == 0 |
| KlibString.Strcpy | abstract-machine/klib/src/string.c:14-18 | copies src through its NUL, leaves the rest of dst, and returns dst |
| KlibString.CLenAt | abstract-machine/klib/src/string.c:10 | a NUL at k with none before it is the string's end |
| KlibString.Strncpy | abstract-machine/klib/src/string.c:20-25 | writes exactly n bytes, src's characters and then zeros, and nothing beyond (corrected; see Findings) |
| KlibString.StrncpyAsWrittenShortSource | abstract-machine/klib/src/string.c:22-23 | with a NUL inside the first n bytes the as-written loops write exactly n bytes |
| KlibString.StrncpyAsWrittenOverrun | abstract-machine/klib/src/string.c:22-23 | without one, n wraps and the as-written pad loop runs 2^32 - 1 times |
| KlibString.StrncpyAsWrittenCounterexample | abstract-machine/klib/src/string.c:22-23 | strncpy(dst, "A", 1) pads 2^32 - 1 bytes as written |
| KlibString.CopyThroughNul | abstract-machine/klib/src/string.c:16 | the copy loop writes src through its NUL at dst[at..] and nothing else |
| KlibString.Concatenated | abstract-machine/klib/src/string.c:27-34 | the memory strcat leaves has the size of dst |
| KlibString.ConcatenatedString | abstract-machine/klib/src/string.c:27-34 | that memory holds the old dst string followed by src |
| KlibString.Strcat | abstract-machine/klib/src/string.c:27-34 | dst becomes the concatenation of the two strings; it returns dst |
| KlibString.Strcmp | abstract-machine/klib/src/string.c:36-39 | 0 exactly when the strings are equal, else the unsigned difference at the first differing byte |
| KlibString.Strncmp | abstract-machine/klib/src/string.c:41-45 | 0 exactly when the first n characters agree, else the difference at the first differing byte |
| KlibString.Memcmp | abstract-machine/klib/src/string.c:74-83 | 0 exactly when the first n bytes are equal, else the difference of the first differing bytes |
| KlibString.Memset | abstract-machine/klib/src/string.c:47-53 | bytes 0 .. n-1 become (char)c; the others are unchanged |
| KlibString.Memmove | abstract-machine/klib/src/string.c:55-70 | dst[0..n) is the original src[0..n) even when the regions overlap; nothing else changes |
| KlibString.Memcpy | abstract-machine/klib/src/string.c:72 | memcpy has memmove's contract |
| KlibStdlib.LcgStep | abstract-machine/klib/src/stdlib.c:10 | next * 1103515245 + 12345 modulo 2^32 |
| KlibStdlib.RandOutput | abstract-machine/klib/src/stdlib.c:11 | always in [0, 32767] |
| KlibStdlib.RandStream | abstract-machine/klib/src/stdlib.c:8-14 | k outputs, each in [0, RAND_MAX] |
| KlibStdlib.RandStreamStep | abstract-machine/klib/src/stdlib.c:8-12 | each rand advances the state once and the rest of the stream follows from the new state |
| KlibStdlib.RandGen.constructor | abstract-machine/klib/src/stdlib.c:6 | the state starts at 1 |
| KlibStdlib.RandGen.Rand | abstract-machine/klib/src/stdlib.c:8-12 | advances the state by the LCG step and returns a value in [0, 32767] |
| KlibStdlib.RandGen.Srand | abstract-machine/klib/src/stdlib.c:14 | the state becomes the seed |
| KlibStdlib.RandGen.SeededOutputs | abstract-machine/klib/src/stdlib.c:14 | after srand(seed) the next k outputs are determined by the seed alone |
| KlibStdlib.Abs | abstract-machine/klib/src/stdlib.c:16 | the non-negative magnitude of x |
| KlibStdlib.LeadingSpaces | abstract-machine/klib/src/stdlib.c:20-22 | the length of the leading run of ' ' bytes |
| KlibStdlib.AtoiValue | abstract-machine/klib/src/stdlib.c:18-28 | atoi on a value: skip the ' ' run, then the decimal value of the digit run after it (a definition; KlibStdlib.Atoi is proved to compute it) |
| KlibStdlib.DigitRun | abstract-machine/klib/src/stdlib.c:23-26 | the length of the leading run of decimal digits |
| KlibStdlib.DecValueSnoc | abstract-machine/klib/src/stdlib.c:24 | one more digit is x * 10 + (c - '0') |
| KlibStdlib.DigitRunIs | abstract-machine/klib/src/stdlib.c:23 | n digits followed by a non-digit form a run of length n |
| KlibStdlib.SkipSpaces | abstract-machine/klib/src/stdlib.c:20-22 | the first loop stops at the first byte that is not ' ' |
| KlibStdlib.ReadDigits | abstract-machine/klib/src/stdlib.c:23-26 | the second loop accumulates the decimal value of the leading digits |
| KlibStdlib.Atoi | abstract-machine/klib/src/stdlib.c:18-28 | skips spaces only, then reads digits up to the first non-digit |
| KlibStdlib.AtoiIgnoresSign | abstract-machine/klib/src/stdlib.c:18-28 | there is no sign handling: "-5" gives 0 |
| KlibStdlib.RoundUp8 | abstract-machine/klib/src/stdlib.c:48 | the least multiple of 8 that is at least x |
| KlibStdlib.RoundDown8 | abstract-machine/klib/src/stdlib.c:43 | the greatest multiple of 8 that is at most x |
| KlibStdlib.TilesDisjoint | abstract-machine/klib/src/stdlib.c:46-50 | successive malloc blocks are disjoint and increasing |
| KlibStdlib.TilesWithin | abstract-machine/klib/src/stdlib.c:51-53 | every block lies between the aligned heap start and the break |
| KlibStdlib.TilesAppend | abstract-machine/klib/src/stdlib.c:49-50 | handing out [break, break + size) keeps the tiling |
| KlibStdlib.TopAligned | abstract-machine/klib/src/stdlib.c:42-50 | the break stays 8-byte aligned |
| KlibStdlib.Heap.constructor | abstract-machine/klib/src/stdlib.c:38-39 | hbrk starts at 0, with no blocks yet |
| KlibStdlib.Heap.Base | abstract-machine/klib/src/stdlib.c:41-47 | the break a call starts from (the current one, or the rounded-up heap start on the first call) is 8-byte aligned and not below heap.start |
| KlibStdlib.Heap.Malloc | abstract-machine/klib/src/stdlib.c:46-55 | succeeds exactly when both asserts hold. It returns the old break, advances the break by ROUNDUP(size, 8), zeroes exactly that block, and leaves other memory alone. The block is at least size bytes long, the new break is below p + size + 8, and the block starts at or after the end of every earlier block. A failed assert halts (wrap-around corrected; see Findings) |
| KlibStdlib.Heap.ZeroRange | abstract-machine/klib/src/stdlib.c:52 | the bzero loop writes zeros over [lo, hi) and nothing else |
| KlibStdlib.Heap.Free | abstract-machine/klib/src/stdlib.c:57 | free changes nothing |
| KlibStdlib.MallocAsWrittenCounterexample | abstract-machine/klib/src/stdlib.c:48-51 | as written, sizes near 2^32 round to 0 or move the break backwards and still pass the assert |
| KlibStdio.Digit | abstract-machine/klib/src/stdio.c:24 | a digit character is never '-' |
| KlibStdio.DigitIsTable | abstract-machine/klib/src/stdio.c:24 | digits[v] for each v < 16 |
| KlibStdio.DigitTableInverse | abstract-machine/klib/src/stdio.c:24 | each table character reads back as its digit |
| KlibStdio.Quot | abstract-machine/klib/src/stdio.c:40 | x /= base shrinks every non-zero x |
| KlibStdio.Rem | abstract-machine/klib/src/stdio.c:39 | x % base is below the base and x = (x / base) * base + x % base |
| KlibStdio.Lsd | abstract-machine/klib/src/stdio.c:38-40 | the do-while stores at least one digit and stores the least significant digit first |
| KlibStdio.Reverse | abstract-machine/klib/src/stdio.c:47-49 | the copy-out order: element k comes from the other end |
| KlibStdio.Numeral | abstract-machine/klib/src/stdio.c:38-49 | the numeral, most significant digit first, ends with x % base |
| KlibStdio.LsdReversed | abstract-machine/klib/src/stdio.c:37-49 | copying the buffer out reversed gives the numeral |
| KlibStdio.NumeralRoundTrip | abstract-machine/klib/src/stdio.c:38-49 | reading the numeral back in its base gives x |
| KlibStdio.LsdShort | abstract-machine/klib/src/stdio.c:27 | a number below 10^k has at most k digits |
| KlibStdio.WordDigits | abstract-machine/klib/src/stdio.c:27 | a 32-bit magnitude has at most 10 digits, so the 16-byte buffer suffices |
| KlibStdio.Magnitude | abstract-machine/klib/src/stdio.c:30-35 | the uint32_t converted: -xx when a '-' is printed, else xx modulo 2^32 |
| KlibStdio.NumeralFirst | abstract-machine/klib/src/stdio.c:42-44 | a numeral never starts with '-' |
| KlibStdio.SignedNumeral | abstract-machine/klib/src/stdio.c:31-49 | an optional '-' plus a numeral has 1 to 11 characters and starts with '-' exactly when one is printed |
| KlibStdio.IntText | abstract-machine/klib/src/stdio.c:26-59 | the text sprintint writes (a definition; KlibStdio.IntTextFacts and KlibStdio.SprintInt state what it is) |
| KlibStdio.IntTextFacts | abstract-machine/klib/src/stdio.c:26-59 | sprintint writes 1 to 11 characters. They start with '-' exactly when `sign && xx < 0`, and the digits read back to the magnitude |
| KlibStdio.IntTextZero | abstract-machine/klib/src/stdio.c:37-40 | 0 prints as "0" |
| KlibStdio.FillDigits | abstract-machine/klib/src/stdio.c:37-40 | the do-while stores the digits of x, least significant first |
| KlibStdio.CopyReversed | abstract-machine/klib/src/stdio.c:46-49 | the copy-out loop writes the buffer reversed at s and nothing else |
| KlibStdio.ReversedText | abstract-machine/klib/src/stdio.c:27-44 | the local buffer holds the text reversed, in 1 to 11 bytes |
| KlibStdio.SprintInt | abstract-machine/klib/src/stdio.c:26-59 | writes exactly the optional '-' and the base-b digits of the magnitude at s, and returns their count (1 to 11) |
| KlibStdio.StrText | abstract-machine/klib/src/stdio.c:129-131 | %s of NULL prints "(null)" |
| KlibStdio.Chars | abstract-machine/klib/src/stdio.c:132-134 | %s is written one character at a time |
| KlibStdio.ConvText | abstract-machine/klib/src/stdio.c:118-144 | the text of one conversion other than %s (a definition; KlibStdio.ConvTextShort bounds it) |
| KlibStdio.Pieces | abstract-machine/klib/src/stdio.c:110-145 | the units the loop writes, one per literal character, conversion or %s character (a definition; KlibStdio.PiecesShort and the Pieces lemmas below state its cases) |
| KlibStdio.Emit | abstract-machine/klib/src/stdio.c:110 | the units written while off < sz is tested before each (a definition; the Emit lemmas below state its properties) |
| KlibStdio.EmitPrefix | abstract-machine/klib/src/stdio.c:110 | the pieces written form a prefix of the expansion |
| KlibStdio.EmitAll | abstract-machine/klib/src/stdio.c:110 | an expansion shorter than sz is written whole |
| KlibStdio.EmitReaches | abstract-machine/klib/src/stdio.c:110 | a longer one is written to at least sz characters |
| KlibStdio.EmitOvershoot | abstract-machine/klib/src/stdio.c:110 | the loop stops within w - 1 characters past sz when pieces have at most w characters |
| KlibStdio.ConvTextShort | abstract-machine/klib/src/stdio.c:118-144 | each conversion other than %s prints 1 to 11 characters |
| KlibStdio.Output | abstract-machine/klib/src/stdio.c:104-156 | the characters vsnprintf writes before its NUL (a definition; KlibStdio.OutputFacts states its properties) |
| KlibStdio.PiecesShort | abstract-machine/klib/src/stdio.c:110-145 | every unit written between two off < sz tests has 1 to 11 characters |
| KlibStdio.OutputFacts | abstract-machine/klib/src/stdio.c:104-156 | The output is a prefix of the full expansion, and is all of it when shorter than sz. Otherwise it has at least sz and at most sz + 10 characters, because %d and %x are checked only before they start. It is empty for sz = 0 |
| KlibStdio.PlainFormat | abstract-machine/klib/src/stdio.c:112-115 | a format without '%' is copied literally |
| KlibStdio.WrittenCons | abstract-machine/klib/src/stdio.c:110 | while off < sz the next unit is written whole |
| KlibStdio.WrittenNone | abstract-machine/klib/src/stdio.c:110 | once off reaches sz nothing more is written |
| KlibStdio.CharsStep | abstract-machine/klib/src/stdio.c:132-134 | %s copying advances one character per step |
| KlibStdio.PutStr | abstract-machine/klib/src/stdio.c:128-135 | the %s loop copies characters while off < sz and stops there |
| KlibStdio.PutInt | abstract-machine/klib/src/stdio.c:119-127 | %d and %x write sprintint's text at buf + off |
| KlibStdio.PutConversion | abstract-machine/klib/src/stdio.c:118-144 | %d, %x, %c, %% and unknown conversions write their text at buf + off |
| KlibStdio.PiecesPlain | abstract-machine/klib/src/stdio.c:112-115 | a literal character is one unit |
| KlibStdio.PiecesTrailingPercent | abstract-machine/klib/src/stdio.c:116-117 | a '%' at the end of the format stops output |
| KlibStdio.PiecesString | abstract-machine/klib/src/stdio.c:128-135 | %s takes a char pointer and yields its characters |
| KlibStdio.PiecesIntConversion | abstract-machine/klib/src/stdio.c:119-127 | %d, %x and %c take an int argument and yield one unit |
| KlibStdio.PiecesOtherConversion | abstract-machine/klib/src/stdio.c:136-143 | %% yields '%', and an unknown c yields '%' followed by c; neither takes an argument |
| KlibStdio.StepPlain | abstract-machine/klib/src/stdio.c:111-115 | a literal character is written at off |
| KlibStdio.StepConversion | abstract-machine/klib/src/stdio.c:118-144 | a conversion's text is written whole at off |
| KlibStdio.StepConversionAt | abstract-machine/klib/src/stdio.c:116-144 | the switch on fmt[i + 1], consuming an argument exactly for %d, %x and %c |
| KlibStdio.FormatStep | abstract-machine/klib/src/stdio.c:110-145 | one turn of the loop keeps buf equal to the output so far |
| KlibStdio.Format | abstract-machine/klib/src/stdio.c:108-146 | buf[..off] is the output, and buf[off] is the NUL |
| KlibStdio.IntResult | abstract-machine/klib/src/stdio.c:155 | the count returned as an int: equal to it below 2^31, negative from 2^31 to 2^32 - 1, and congruent to it mod 2^32; sprintf and snprintf store it in `int off` at lines 86 and 97 |
| KlibStdio.Vsnprintf | abstract-machine/klib/src/stdio.c:104-156 | writes Output(fmt, args, sz) followed by a NUL, changes nothing after the NUL, and returns the number of characters before the NUL converted to int (IntResult) |
| KlibStdio.Snprintf | abstract-machine/klib/src/stdio.c:92-101 | vsnprintf with the caller's sz: the buffer holds Output(fmt, args, sz) and its NUL, and the int result is IntResult of its length |
| KlibStdio.Sprintf | abstract-machine/klib/src/stdio.c:81-90 | with SIZE_MAX the whole expansion is written, followed by its NUL; the int result is IntResult of its length, negative above INT_MAX |
| KlibStdio.DecimalOneDigit | abstract-machine/klib/src/stdlib.c:23-26 | a single decimal digit printed by sprintint reads back under atoi's accumulation |
| KlibStdio.DecimalSnoc | abstract-machine/klib/src/stdlib.c:24 | atoi's x * 10 + d step inverts sprintint's division by ten |
| KlibStdio.DecimalNumeral | abstract-machine/klib/src/stdlib.c:23-26 | every decimal numeral sprintint prints is all digits, and atoi's accumulation reads it back as the number |
| KlibStdio.AtoiOfPrintedInt | abstract-machine/klib/src/stdlib.c:18-28 | atoi of what %d prints gives v back for v >= 0, and 0 for negative v (no sign handling) |
| KlibStdio.PrintfOverflowAsWritten | abstract-machine/klib/src/stdio.c:64-69 | as written, a format of 4096 plain characters fills buf and stores the NUL at buf[4096] |
| KlibStdio.Printf | abstract-machine/klib/src/stdio.c:61-77 | putch gets the formatted output, and off < BUF_SIZE. A short expansion is printed whole (limit corrected; see Findings) |
| Alu.Sat4 | digital/lab3/csrc/alu_tb.cpp:11-15 | the result lies in [-8, 7] and is congruent to v mod 16 |
| Alu.Sat4Unique | digital/lab3/csrc/alu_tb.cpp:11-15 | two values saturate alike exactly when they agree mod 16; values in [-8, 7] are fixed |
| Alu.Sat4Idempotent | digital/lab3/csrc/alu_tb.cpp:11-15 | sat4 is idempotent |
| Alu.Sat4Low4 | digital/lab3/csrc/alu_tb.cpp:12-13 | sat4 keeps the low four bits |
| Alu.Signed4 | digital/lab3/csrc/alu_tb.cpp:13 | a four-bit pattern read as signed lies in [-8, 7] |
| Alu.Signed4Low4 | digital/lab3/csrc/alu_tb.cpp:11-15 | reading a pattern as signed keeps the pattern |
| Alu.ZeroFlag | digital/lab3/csrc/alu_tb.cpp:56 | zf is 1 exactly when y is 0 |
| Alu.Bool | digital/lab3/csrc/alu_tb.cpp:87 | a C comparison gives 1 when true and 0 when false |
| Alu.Switch | digital/lab3/csrc/alu_tb.cpp:51-101 | y lies in [-8, 7], zf == (y == 0) for every op including the default, the flags are 0 or 1, and ops other than add and sub have of == 0 |
| Alu.ModelEval | digital/lab3/csrc/alu_tb.cpp:47-103 | the result's y lies in [-8, 7], zf == (y == 0), and of == 0 outside add and sub |
| Alu.AddOverflow | digital/lab3/csrc/alu_tb.cpp:52-58 | y == sat4(a + b), and of == 1 exactly when the true sum of the sat4'd inputs leaves [-8, 7]. Without overflow y is the true sum |
| Alu.SubOverflow | digital/lab3/csrc/alu_tb.cpp:59-65 | y == sat4(a - b), and of == 1 exactly when the true difference leaves [-8, 7]. Without overflow y is the true difference |
| Alu.LogicOps | digital/lab3/csrc/alu_tb.cpp:66-85 | ops 2-5 compute bitwise NOT, AND, OR and XOR on the operands' four-bit patterns |
| Alu.NotLow4 | digital/lab3/csrc/alu_tb.cpp:67 | ~a flips the low four bits of a |
| Alu.Comparisons | digital/lab3/csrc/alu_tb.cpp:86-95 | op 6 is signed less-than on the sat4'd operands and op 7 is equality of their low four bits, each giving 0 or 1 |
| Alu.LowBitsOnly | digital/lab3/csrc/alu_tb.cpp:49-50 | the result depends only on the low four bits of a and b |
| Lfsr.ModelNext | digital/lab6/csrc/lfsr_tb.cpp:44-47 | model_next on an 8-bit state (a definition; Lfsr.ShiftRegister states its bits) |
| Lfsr.ShiftRegister | digital/lab6/csrc/lfsr_tb.cpp:44-47 | the low seven bits of model_next(q) are q >> 1, and bit 7 is q4 ^ q3 ^ q2 ^ q0 |
| Lfsr.ZeroIsStuck | digital/lab6/csrc/lfsr_tb.cpp:44-47 | model_next(0) == 0 |
| Lfsr.NonZeroStays | digital/lab6/csrc/lfsr_tb.cpp:83-89 | a non-zero state steps to a non-zero state |
| Lfsr.NeverZero | digital/lab6/csrc/lfsr_tb.cpp:83-89 | from a non-zero state the sequence never hits 0 |
| Lfsr.IterateAdd | digital/lab6/csrc/lfsr_tb.cpp:69-71 | m clocks followed by n more are m + n clocks |
| Lfsr.FirstHit8 | digital/lab6/csrc/lfsr_tb.cpp:69-71 | the first of the next eight states equal to s, at most 8 |
| Lfsr.Window8 | digital/lab6/csrc/lfsr_tb.cpp:69-71 | eight clocks at once, and no earlier state hits s |
| Lfsr.Advance | digital/lab6/csrc/lfsr_tb.cpp:69-71 | a known state at clock n fixes the next eight states |
| Lfsr.Orbit | digital/lab6/csrc/lfsr_tb.cpp:64-71 | the orbit of 0x01, eight clocks at a time |
| Lfsr.PeriodFirstHalf | digital/lab6/csrc/lfsr_tb.cpp:64-71 | clocks 1-128 from reset avoid 0x01, and clock 129 reaches 0xd1 |
| Lfsr.Period | digital/lab6/csrc/lfsr_tb.cpp:64-71 | from the reset value 0x01 the state first returns to 0x01 after exactly 255 clocks |
| Lfsr.DistinctStates | digital/lab6/csrc/lfsr_tb.cpp:67 | the 255 states from reset are pairwise distinct and non-zero, so every non-zero state occurs once per period |
| Ps2.Bit | digital/lab7/csrc/ps2_tb.cpp:62-64 | (code >> i) & 1 is 0 or 1 |
| Ps2.Ones | digital/lab7/csrc/ps2_tb.cpp:52-57 | the number of one bits among the low n bits of code (a definition; Ps2.ParityIsOdd and Ps2.OddParity use it as popcount) |
| Ps2.ParityBit | digital/lab7/csrc/ps2_tb.cpp:52-57 | the odd parity bit is 0 or 1 |
| Ps2.ParityIsOdd | digital/lab7/csrc/ps2_tb.cpp:52-57 | popcount(code) + parity is odd |
| Ps2.OddParity | digital/lab7/csrc/ps2_tb.cpp:52-57 | the XOR loop and ~p & 1 give the odd parity bit: in {0, 1}, and popcount(code) + result is odd |
| Ps2.Frame | digital/lab7/csrc/ps2_tb.cpp:60-66 | a frame is 11 bits |
| Ps2.SendScanCode | digital/lab7/csrc/ps2_tb.cpp:60-66 | the bits driven, in order, are the frame: start 0, data LSB first, parity, stop 1 |
| Ps2.FrameLayout | digital/lab7/csrc/ps2_tb.cpp:60-66 | start bit 0, bits 1-8 are code bits 0-7, bit 9 is the parity, stop bit 1, and all are 0 or 1 |
| Ps2.FrameDecode | digital/lab7/csrc/ps2_tb.cpp:62-64 | shifting in frame bits 1-8 at weights 1, 2, 4, … (the sum of bit[i+1]·2^i) reconstructs the scan code |
| Ps2.FrameOddOnes | digital/lab7/csrc/ps2_tb.cpp:60-66 | the data and parity bits of every frame carry an odd number of ones |

## Left out

- Output is left out: `putch`, `printf` text, `LogMem`/`LogDev`/`LogExc`, and the diff table text. A dump is modelled as the sequence of records or lines it would print, and `printf` as the stream handed to `putch`.
- `paddr_read`/`paddr_write`, `map_read`/`map_write`, `in_pmem` and the CSR storage behind `csr()` are not shown:
  - reads are function-valued parameters;
  - writes are returned as the request handed on;
  - `in_pmem` is the closed interval [PMEM_LEFT, PMEM_RIGHT];
  - the CSRs are three fields of a class.
- `difftest_skip_ref()` is a foreign call and is reported as a boolean.
- `CONFIG_*` variability is fixed to one configuration: RV32, tracing on, 16-entry traces, and the trace condition passed as a boolean. The npc exception trace keeps its capacity as a parameter.
- The Verilator drive loops, `tick`, timing and VCD output of the lab testbenches are left out. So is the PS/2 `advance_and_pop` clocking; a frame is the sequence of bits driven.
- The name strings of `IOMap` and the `space`/`callback` pointers are kept as opaque values; nothing dereferences them.
- NemuIntr.TrapController.RaiseIntr and NemuIntr.TrapController.ReturnIntr: interrupt causes (top bit set) reach `TODO()` in the source, so the model excludes them by precondition.
- `mstatus` is not modelled; the source does not touch it.
- KlibStdlib.Atoi: `int` overflow of `x * 10 + d` on long digit runs is not modelled. The result is the unbounded decimal value.
- KlibStdlib.Abs: `abs(INT_MIN)` overflows in C, so it is excluded by precondition.
- KlibStdio.Magnitude: for INT_MIN the negation of the most negative int is read as 2^31, which is what the conversion to `uint32_t` yields on the target.
- KlibStdlib.Heap.constructor: the allocator is modelled for a heap that starts above 0 and at most 2^32 - 8. Its memory is one byte array indexed by address.
- The `ROUNDUP`/`ROUNDDOWN` macros come from `klib-macros.h`, which is not part of this model. They are taken as the usual align-to-multiple operations.
- `vsprintf` (abstract-machine/klib/src/stdio.c:79) has no member of its own: it is `Sprintf` on a `va_list`.
- KlibStdio.Vsnprintf, KlibStdio.Snprintf, KlibStdio.Sprintf and KlibStdio.Printf all require the arguments to match the conversions. That is the printf format attribute's contract, and C leaves a mismatch undefined.
- KlibStdio.Vsnprintf and KlibStdio.Snprintf require the caller's buffer to hold the output and its NUL. This is possibly `sz + 10` characters plus the NUL, not `sz`: a %d or %x begun while off < sz is written whole, so snprintf(buf, n, …) on an n-byte buffer can write up to n + 10 characters and a NUL past the buffer (KlibStdio.OutputFacts). The same overshoot is the printf row of Findings, abstract-machine/klib/src/stdio.c:64-69.
- The `fmt == 0` panics are not modelled; a format is always an array holding a NUL.
- The `PUTCH_DEBUG` blocks are off in the source and are not modelled.
- Mmio.MmioBus.MmioRead: an access that no region contains is modelled as a failed lookup with no trace record. The source passes NULL on to `map_read`, which is not shown.

## Findings

| source | as written | input that shows it | evidently intended | confidence | as-written member | corrected member |
|---|---|---|---|---|---|---|
| abstract-machine/klib/src/string.c:22-23 | `while (n-- > 0 && …)` decrements n once more when its test fails on n == 0, so the size_t n wraps to 2^32 - 1, and the pad loop then writes 2^32 - 1 zeros | strncpy(dst, "A", 1): src has no NUL in the first n bytes | write exactly n bytes, src's characters then zeros (C standard, section 7.24.2.4) | high, not executed | KlibString.StrncpyAsWrittenCounterexample | KlibString.Strncpy |
| abstract-machine/klib/src/stdlib.c:48-51 | `ROUNDUP(size, 8)` and `hbrk += size` wrap in 32-bit arithmetic, and the bounds assert checks only the wrapped break | malloc(0xFFFFFFFF) rounds to 0; malloc(0xFFFFFFF0) with break 0x80000100 moves the break back to 0x800000F0; both pass the assert | a request that does not fit in the heap fails the assert | medium (ROUNDUP's definition is outside this model), not executed | KlibStdlib.MallocAsWrittenCounterexample | KlibStdlib.Heap.Malloc |
| abstract-machine/klib/src/stdio.c:64-69 | printf passes BUF_SIZE as sz for a buffer of BUF_SIZE bytes. vsnprintf stops only when off reaches sz, then writes buf[off] = '\0', one byte past the buffer. A `%d` or `%x` started just below sz can push off up to sz + 10 | a format of 4096 plain characters: off == 4096 and the NUL lands at buf[4096] | output and NUL stay inside the 4096-byte buffer | high, not executed | KlibStdio.PrintfOverflowAsWritten | KlibStdio.Printf |

In the corrected Printf, vsnprintf gets the limit BUF_SIZE - 11. The last number can then end at most at index BUF_SIZE - 2, and its NUL at BUF_SIZE - 1.
