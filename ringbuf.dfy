/**
 * The bounded ring trace buffer of utils/ringbuf.h: a fixed array of `capacity`
 * slots, a write cursor `ptr` and a saturating `count`. Pushing never fails; once
 * the buffer is full it overwrites the oldest record. Iteration runs from the
 * oldest valid record to the newest.
 *
 * The abstract model is value-level: `RingState` is the struct, `PushStep` is one
 * RINGBUF_PUSH, `Ordered` is the sequence RINGBUF_FOREACH visits, and `RingInv`
 * ties the slots to the records pushed so far (`Window`). The generic class
 * `RingBuffer` and each hand-rolled copy elsewhere in the model refine it: their
 * push methods ensure `State() == PushStep(old(State()), x, capacity)`.
 */
module RingBuf {
  import opened Machine

  /** The last min(|s|, cap) records of `s`, oldest first. */
  function Window<T>(s: seq<T>, cap: nat): (w: seq<T>)
    ensures |w| == Min(|s|, cap)
    ensures forall k :: 0 <= k < |w| ==> w[k] == s[|s| - |w| + k]
  {
    s[|s| - Min(|s|, cap)..]
  }

  /** Appending one record to a history shifts its window by at most one place. */
  lemma WindowPush<T>(s: seq<T>, x: T, cap: nat)
    requires cap > 0
    ensures Window(s + [x], cap) ==
            (if |s| < cap then Window(s, cap) else Window(s, cap)[1..]) + [x]
  {
    var w, w' := Window(s, cap), Window(s + [x], cap);
    var e := (if |s| < cap then w else w[1..]) + [x];
    assert |w'| == |e|;
    forall k | 0 <= k < |w'| ensures w'[k] == e[k] {
      if k == |w'| - 1 {
        assert w'[k] == (s + [x])[|s|];
      } else if |s| < cap {
        assert w'[k] == (s + [x])[k] == s[k];
      } else {
        assert w'[k] == (s + [x])[|s| + 1 - cap + k] == w[k + 1];
      }
    }
  }

  /** Pushing capacity + k records keeps exactly the last capacity of them, in push order. */
  lemma WindowAfterOverflow<T>(s: seq<T>, cap: nat, k: nat)
    requires |s| == cap + k
    ensures |Window(s, cap)| == cap
    ensures Window(s, cap) == s[k..]
  {
  }

  /** The struct of RINGBUF_DEFINE, as a value. */
  datatype RingState<T> = RingState(items: seq<T>, ptr: nat, count: nat)

  /** The shape every reachable ring state has. */
  predicate WellFormed<T>(st: RingState<T>, cap: nat)
  {
    cap > 0 && |st.items| == cap && st.ptr < cap && st.count <= cap
  }

  /** RINGBUF_INIT for a ring of `cap` slots holding `fill`. */
  function Init<T>(cap: nat, fill: T): (st: RingState<T>)
    requires cap > 0
    ensures WellFormed(st, cap) && st.count == 0 && st.ptr == 0
  {
    RingState(seq(cap, _ => fill), 0, 0)
  }

  /** One RINGBUF_PUSH: write the slot under the cursor, saturate the count, advance the cursor. */
  function PushStep<T>(st: RingState<T>, x: T, cap: nat): RingState<T>
    requires WellFormed(st, cap)
  {
    RingState(st.items[st.ptr := x], (st.ptr + 1) % cap,
              if st.count < cap then st.count + 1 else st.count)
  }

  /** A push keeps the ring well formed, saturates the count, touches only the cursor's slot. */
  lemma PushStepFacts<T>(st: RingState<T>, x: T, cap: nat)
    requires WellFormed(st, cap)
    ensures WellFormed(PushStep(st, x, cap), cap)
    ensures PushStep(st, x, cap).count == Min(st.count + 1, cap)
    ensures PushStep(st, x, cap).ptr == if st.ptr + 1 < cap then st.ptr + 1 else 0
    ensures PushStep(st, x, cap).items[st.ptr] == x
    ensures forall j :: 0 <= j < cap && j != st.ptr ==> PushStep(st, x, cap).items[j] == st.items[j]
  {
    ModBelowTwice(st.ptr + 1, cap);
  }

  /** RINGBUF_START: the slot of the oldest valid record. */
  function Start<T>(st: RingState<T>, cap: nat): (s: nat)
    requires WellFormed(st, cap)
    ensures s < cap
  {
    (st.ptr + cap - st.count) % cap
  }

  /** The slot RINGBUF_FOREACH reads at iteration `k`. */
  function Slot<T>(st: RingState<T>, cap: nat, k: nat): (p: nat)
    requires WellFormed(st, cap)
    ensures p < cap
  {
    (Start(st, cap) + k) % cap
  }

  /** The records RINGBUF_FOREACH visits, in visiting order: `count` slots from START on. */
  function Ordered<T>(st: RingState<T>, cap: nat): (r: seq<T>)
    requires WellFormed(st, cap)
    ensures |r| == st.count
  {
    seq(st.count, k requires 0 <= k < st.count => st.items[Slot(st, cap, k)])
  }

  /** The ring holds exactly the last min(|pushed|, cap) records pushed, oldest first. */
  ghost predicate RingInv<T>(st: RingState<T>, cap: nat, pushed: seq<T>)
  {
    WellFormed(st, cap) && st.count == Min(|pushed|, cap) &&
    Ordered(st, cap) == Window(pushed, cap)
  }

  /** FOREACH starts at START and advances one slot, modulo the capacity, per record. */
  lemma SlotNext<T>(st: RingState<T>, cap: nat, k: nat)
    requires WellFormed(st, cap) && k < st.count
    ensures Slot(st, cap, 0) == Start(st, cap)
    ensures Slot(st, cap, k + 1) == (Slot(st, cap, k) + 1) % cap
  {
    ModBelowTwice(Start(st, cap), cap);
    ModBelowTwice(Start(st, cap) + k, cap);
    ModBelowTwice(Start(st, cap) + k + 1, cap);
    ModBelowTwice(Slot(st, cap, k) + 1, cap);
  }

  /** The iteration slot without the double reduction. */
  lemma SlotIs<T>(st: RingState<T>, cap: nat, k: nat)
    requires WellFormed(st, cap) && k < st.count
    ensures Slot(st, cap, k) ==
            if st.ptr + cap - st.count + k < cap then st.ptr + cap - st.count + k
            else st.ptr - st.count + k
  {
    ModBelowTwice(st.ptr + cap - st.count, cap);
    ModBelowTwice(Start(st, cap) + k, cap);
  }

  lemma InitInv<T>(cap: nat, fill: T)
    requires cap > 0
    ensures RingInv(Init(cap, fill), cap, [])
  {
  }

  /** Where a push moves the slot of each visited record. */
  lemma PushSlot<T>(st: RingState<T>, x: T, cap: nat, k: nat)
    requires WellFormed(st, cap) && k < Min(st.count + 1, cap)
    ensures var st' := PushStep(st, x, cap);
            if k == Min(st.count + 1, cap) - 1 then Slot(st', cap, k) == st.ptr
            else if st.count < cap then Slot(st', cap, k) == Slot(st, cap, k) != st.ptr
            else Slot(st', cap, k) == Slot(st, cap, k + 1) != st.ptr
  {
    var st' := PushStep(st, x, cap);
    PushStepFacts(st, x, cap);
    SlotIs(st', cap, k);
    if k == Min(st.count + 1, cap) - 1 {
    } else if st.count < cap {
      SlotIs(st, cap, k);
    } else {
      SlotIs(st, cap, k + 1);
    }
  }

  /** The refinement step: PushStep on the slots is appending to the pushed history. */
  lemma PushKeepsInv<T>(st: RingState<T>, cap: nat, pushed: seq<T>, x: T)
    requires RingInv(st, cap, pushed)
    ensures RingInv(PushStep(st, x, cap), cap, pushed + [x])
  {
    var st' := PushStep(st, x, cap);
    PushStepFacts(st, x, cap);
    WindowPush(pushed, x, cap);
    var o, o' := Ordered(st, cap), Ordered(st', cap);
    var e := (if st.count < cap then o else o[1..]) + [x];
    assert |o'| == |e|;
    forall k | 0 <= k < st'.count ensures o'[k] == e[k] {
      PushSlot(st, x, cap, k);
    }
    assert o' == e;
  }

  /** RINGBUF_EMPTY holds exactly until the first push. */
  lemma EmptyIffNothingPushed<T>(st: RingState<T>, cap: nat, pushed: seq<T>)
    requires RingInv(st, cap, pushed)
    ensures st.count == 0 <==> pushed == []
  {
  }

  /** The last record visited (RINGBUF_IS_LAST) is the most recently pushed one. */
  lemma LastIsNewest<T>(st: RingState<T>, cap: nat, pushed: seq<T>)
    requires RingInv(st, cap, pushed) && st.count > 0
    ensures Ordered(st, cap)[st.count - 1] == pushed[|pushed| - 1]
  {
    assert Window(pushed, cap)[st.count - 1] == pushed[|pushed| - 1];
  }

  /** Pushing all of `s`, one record at a time, from a given state. */
  function PushAll<T>(st: RingState<T>, s: seq<T>, cap: nat): (r: RingState<T>)
    requires WellFormed(st, cap)
    ensures WellFormed(r, cap)
    decreases |s|
  {
    if s == [] then st
    else
      PushStepFacts(st, s[0], cap);
      PushAll(PushStep(st, s[0], cap), s[1..], cap)
  }

  /** Pushing a history into a ring extends the history the ring represents. */
  lemma {:induction false} PushAllInv<T>(st: RingState<T>, pushed: seq<T>, s: seq<T>, cap: nat)
    requires RingInv(st, cap, pushed)
    ensures RingInv(PushAll(st, s, cap), cap, pushed + s)
    decreases |s|
  {
    if s != [] {
      PushKeepsInv(st, cap, pushed, s[0]);
      assert pushed + s == (pushed + [s[0]]) + s[1..];
      PushAllInv(PushStep(st, s[0], cap), pushed + [s[0]], s[1..], cap);
    }
  }

  /** Pushing `s` into an empty ring makes FOREACH yield the last min(|s|, cap) records of s. */
  lemma PushAllFromInit<T>(s: seq<T>, cap: nat, fill: T)
    requires cap > 0
    ensures Ordered(PushAll(Init(cap, fill), s, cap), cap) == Window(s, cap)
    ensures PushAll(Init(cap, fill), s, cap).count == Min(|s|, cap)
  {
    InitInv(cap, fill);
    PushAllInv(Init(cap, fill), [], s, cap);
    assert [] + s == s;
  }

  /** RINGBUF_DEFINE / RINGBUF_INIT / RINGBUF_PUSH / RINGBUF_FOREACH over a fixed array. */
  class RingBuffer<T(0)> {
    const capacity: nat
    const items: array<T>
    var ptr: nat
    var count: nat
    /** Every record pushed since RINGBUF_INIT, oldest first. */
    ghost var pushed: seq<T>

    function State(): RingState<T>
      reads this, items
    {
      RingState(items[..], ptr, count)
    }

    ghost predicate Valid()
      reads this, items
    {
      items.Length == capacity && RingInv(State(), capacity, pushed)
    }

    /** RINGBUF_INIT. */
    constructor (cap: nat)
      requires cap > 0
      ensures Valid() && fresh(items)
      ensures capacity == cap && ptr == 0 && count == 0 && pushed == []
    {
      capacity := cap;
      items := new T[cap];
      ptr, count := 0, 0;
      pushed := [];
    }

    /** RINGBUF_PUSH. */
    method Push(x: T)
      requires Valid()
      modifies this, items
      ensures Valid()
      ensures State() == PushStep(old(State()), x, capacity)
      ensures pushed == old(pushed) + [x]
      ensures count == Min(old(count) + 1, capacity) && ptr == (old(ptr) + 1) % capacity
      ensures items[old(ptr)] == x
      ensures forall j :: 0 <= j < capacity && j != old(ptr) ==> items[j] == old(items[j])
    {
      ghost var st := State();
      PushStepFacts(st, x, capacity);
      PushKeepsInv(st, capacity, pushed, x);
      items[ptr] := x;
      if count < capacity {
        count := count + 1;
      }
      ptr := (ptr + 1) % capacity;
      pushed := pushed + [x];
      assert State() == PushStep(st, x, capacity);
    }

    /** RINGBUF_START. */
    function StartSlot(): (s: nat)
      requires Valid()
      reads this, items
      ensures s == Start(State(), capacity) && s < capacity
    {
      (ptr + capacity - count) % capacity
    }

    /** RINGBUF_EMPTY: true exactly until the first push. */
    predicate IsEmpty()
      requires Valid()
      reads this, items
      ensures IsEmpty() <==> pushed == []
    {
      count == 0
    }

    /** RINGBUF_COUNT: the number of valid records. */
    function Count(): (n: nat)
      requires Valid()
      reads this, items
      ensures n == Min(|pushed|, capacity) && n <= capacity
    {
      count
    }

    /** RINGBUF_GET. */
    function Get(pos: nat): T
      requires pos < items.Length
      reads items
    {
      items[pos]
    }

    /** RINGBUF_IS_LAST. */
    predicate IsLast(idx: nat)
      reads this
    {
      idx + 1 == count
    }

    /**
     * The loop of RINGBUF_FOREACH over a well-formed ring: `pos` starts at
     * RINGBUF_START and advances modulo the capacity for `count` iterations.
     */
    method Visit() returns (visited: seq<T>)
      requires items.Length == capacity && WellFormed(State(), capacity)
      ensures visited == Ordered(State(), capacity)
    {
      ghost var st := State();
      var idx, pos := 0, (ptr + capacity - count) % capacity;
      if count > 0 {
        SlotNext(st, capacity, 0);
      } else {
        ModBelowTwice(pos, capacity);
      }
      visited := [];
      while idx < count
        invariant 0 <= idx <= count && |visited| == idx
        invariant pos == Slot(st, capacity, idx)
        invariant forall k :: 0 <= k < idx ==> visited[k] == Ordered(st, capacity)[k]
      {
        SlotNext(st, capacity, idx);
        visited := visited + [Get(pos)];
        idx := idx + 1;
        pos := (pos + 1) % capacity;
      }
    }

    /** RINGBUF_FOREACH: the records visited, oldest first, ending with the newest. */
    method Foreach() returns (visited: seq<T>)
      requires Valid()
      ensures visited == Ordered(State(), capacity)
      ensures visited == Window(pushed, capacity)
      ensures |visited| == count
      ensures count > 0 ==> IsLast(count - 1) && visited[count - 1] == pushed[|pushed| - 1]
    {
      visited := Visit();
      if count > 0 {
        LastIsNewest(State(), capacity, pushed);
      }
    }
  }
}
