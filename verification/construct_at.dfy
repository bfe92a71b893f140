/** The fallback object-lifetime helpers of
    libs/core/type_support/include/hpx/type_support/construct_at.hpp, as
    transitions of a memory of typed slots. Each slot holds no object yet,
    a live object, or the remains of a destroyed one; every construction and
    destructor call is recorded as a lifetime event. */
module Lifetime {

  type Addr = nat

  datatype Slot<T> = Empty | Live(value: T) | Destroyed

  datatype EventKind = Constructs | Destroys

  /** A constructor or destructor run at an address, on the object it built
      or ended. */
  datatype Event<T> = Construction(at: Addr, obj: T) | Destruction(at: Addr, obj: T) {
    function Kind(): EventKind {
      if Construction? then Constructs else Destroys
    }
  }

  /** Storage for objects of type T and the lifetime events so far. */
  datatype Memory<T> = Memory(slots: map<Addr, Slot<T>>, events: seq<Event<T>>)

  /** A memory together with the pointer a helper returned. */
  datatype Placed<T> = Placed(mem: Memory<T>, ptr: Addr)

  /** How many events of the given kind happened at `a`. */
  function Count<T>(events: seq<Event<T>>, kind: EventKind, a: Addr): (n: nat)
    ensures n <= |events|
  {
    if |events| == 0 then 0
    else
      var last := events[|events| - 1];
      Count(events[..|events| - 1], kind, a) + (if last.Kind() == kind && last.at == a then 1 else 0)
  }

  /** The slot at `a` is in the state its history of events leads to: never
      touched while empty, one construction ahead of its destructions while
      live, and balanced after at least one destruction once destroyed. */
  ghost predicate SlotMatchesHistory<T>(m: Memory<T>, a: Addr)
    requires a in m.slots
  {
    var c := Count(m.events, Constructs, a);
    var d := Count(m.events, Destroys, a);
    match m.slots[a]
    case Empty => c == 0 && d == 0
    case Live(_) => c == d + 1
    case Destroyed => c == d && 1 <= d
  }

  ghost predicate Consistent<T>(m: Memory<T>) {
    forall a :: a in m.slots ==> SlotMatchesHistory(m, a)
  }

  /** Every slot other than `except` is as it was. */
  ghost predicate OthersUnchanged<T>(m: Memory<T>, m': Memory<T>, except: set<Addr>) {
    && m'.slots.Keys == m.slots.Keys
    && forall a :: a in m.slots && a !in except ==> m'.slots[a] == m.slots[a]
  }

  /** hpx::construct_at (lines 21-30): placement-new of the object `v` that
      the constructor arguments build, at `addr`; returns `addr`. */
  function ConstructAt<T>(m: Memory<T>, addr: Addr, v: T): (r: Placed<T>)
    requires addr in m.slots
    ensures OthersUnchanged(m, r.mem, {addr})
    ensures r.ptr == addr
    ensures r.mem.slots[addr] == Live(v)
    ensures r.mem.events == m.events + [Construction(addr, v)]
  {
    Placed(Memory(m.slots[addr := Live(v)], m.events + [Construction(addr, v)]), addr)
  }

  /** An explicit destructor call `p->~T()`, which ends the live object at
      `addr`. */
  function DestroyAt<T>(m: Memory<T>, addr: Addr): (m': Memory<T>)
    requires addr in m.slots && m.slots[addr].Live?
    ensures OthersUnchanged(m, m', {addr})
    ensures m'.slots[addr] == Destroyed
    ensures m'.events == m.events + [Destruction(addr, m.slots[addr].value)]
  {
    Memory(m.slots[addr := Destroyed], m.events + [Destruction(addr, m.slots[addr].value)])
  }

  /** Moving out of the live object at `src`: `move` gives the object a move
      constructor builds from it and the moved-from value left behind. */
  function MoveOut<T>(m: Memory<T>, src: Addr, move: T -> (T, T)): (r: (Memory<T>, T))
    requires src in m.slots && m.slots[src].Live?
    ensures OthersUnchanged(m, r.0, {src})
    ensures r.0.slots[src] == Live(move(m.slots[src].value).1)
    ensures r.1 == move(m.slots[src].value).0
    ensures r.0.events == m.events
  {
    var (built, leftover) := move(m.slots[src].value);
    (m.(slots := m.slots[src := Live(leftover)]), built)
  }

  /** hpx::relocate_at as written (lines 36-43): move-construct into `dst`
      from `*src`, then run the destructor on `dst`, and return the pointer
      to the object constructed at `dst`. The object built from `*src` is
      the very one the destructor ends. */
  function RelocateAt<T>(m: Memory<T>, src: Addr, dst: Addr, move: T -> (T, T)): (r: Placed<T>)
    requires src in m.slots && m.slots[src].Live? && dst in m.slots
    ensures OthersUnchanged(m, r.mem, {src, dst})
    ensures r.ptr == dst
    ensures r.mem.slots[dst] == Destroyed
    ensures src != dst ==> r.mem.slots[src] == Live(move(m.slots[src].value).1)
    ensures var built := move(m.slots[src].value).0;
            r.mem.events == m.events + [Construction(dst, built), Destruction(dst, built)]
  {
    var (moved, built) := MoveOut(m, src, move);
    var placed := ConstructAt(moved, dst, built);
    Placed(DestroyAt(placed.mem, dst), placed.ptr)
  }

  /** Relocation as C++ proposal P1144 defines it: move-construct into `dst`
      from `*src`, then end the object at `src`. */
  function RelocateAtIntended<T>(m: Memory<T>, src: Addr, dst: Addr, move: T -> (T, T)): (r: Placed<T>)
    requires src in m.slots && m.slots[src].Live? && dst in m.slots && src != dst
    ensures OthersUnchanged(m, r.mem, {src, dst})
    ensures r.ptr == dst
    ensures r.mem.slots[dst] == Live(move(m.slots[src].value).0)
    ensures r.mem.slots[src] == Destroyed
    ensures var (built, leftover) := move(m.slots[src].value);
            r.mem.events == m.events + [Construction(dst, built), Destruction(src, leftover)]
  {
    var (moved, built) := MoveOut(m, src, move);
    var placed := ConstructAt(moved, dst, built);
    Placed(DestroyAt(placed.mem, src), placed.ptr)
  }

  /** Appending one event adds one to the count of its own kind at its own
      address and leaves every other count alone. */
  lemma CountAppend<T>(events: seq<Event<T>>, x: Event<T>, kind: EventKind, a: Addr)
    ensures Count(events + [x], kind, a) == Count(events, kind, a) + (if x.Kind() == kind && x.at == a then 1 else 0)
  {
    assert (events + [x])[..|events|] == events;
  }

  /** relocate_at as written returns a pointer to an object that is no
      longer alive, and leaves the source alive: the opposite of relocation,
      whose result is a live object at `dst` and an ended one at `src`. */
  lemma RelocateAtEndsDstNotSrc<T>(m: Memory<T>, src: Addr, dst: Addr, move: T -> (T, T))
    requires src in m.slots && m.slots[src].Live? && dst in m.slots && src != dst
    ensures var r := RelocateAt(m, src, dst, move);
            !r.mem.slots[r.ptr].Live? && r.mem.slots[src].Live?
    ensures var r := RelocateAtIntended(m, src, dst, move);
            r.mem.slots[r.ptr].Live? && !r.mem.slots[src].Live?
    ensures RelocateAt(m, src, dst, move) != RelocateAtIntended(m, src, dst, move)
  {
  }

  /** As written, `dst` sees one construction and one destruction and `src`
      sees no lifetime event at all. */
  lemma RelocateAtEventCounts<T>(m: Memory<T>, src: Addr, dst: Addr, move: T -> (T, T))
    requires src in m.slots && m.slots[src].Live? && dst in m.slots && src != dst
    ensures var e := RelocateAt(m, src, dst, move).mem.events;
            && Count(e, Constructs, dst) == Count(m.events, Constructs, dst) + 1
            && Count(e, Destroys, dst) == Count(m.events, Destroys, dst) + 1
            && Count(e, Constructs, src) == Count(m.events, Constructs, src)
            && Count(e, Destroys, src) == Count(m.events, Destroys, src)
  {
    var (built, leftover) := move(m.slots[src].value);
    var c := Construction(dst, built);
    var d := Destruction(dst, built);
    var e1 := m.events + [c];
    assert RelocateAt(m, src, dst, move).mem.events == e1 + [d];
    CountAppend(m.events, c, Constructs, dst);
    CountAppend(e1, d, Constructs, dst);
    CountAppend(m.events, c, Constructs, src);
    CountAppend(e1, d, Constructs, src);
    CountAppend(m.events, c, Destroys, dst);
    CountAppend(e1, d, Destroys, dst);
    CountAppend(m.events, c, Destroys, src);
    CountAppend(e1, d, Destroys, src);
  }

  /** Intended relocation gives `dst` exactly one construction and `src`
      exactly one destruction. */
  lemma RelocateAtIntendedEventCounts<T>(m: Memory<T>, src: Addr, dst: Addr, move: T -> (T, T))
    requires src in m.slots && m.slots[src].Live? && dst in m.slots && src != dst
    ensures var e := RelocateAtIntended(m, src, dst, move).mem.events;
            && Count(e, Constructs, dst) == Count(m.events, Constructs, dst) + 1
            && Count(e, Destroys, dst) == Count(m.events, Destroys, dst)
            && Count(e, Constructs, src) == Count(m.events, Constructs, src)
            && Count(e, Destroys, src) == Count(m.events, Destroys, src) + 1
  {
    var (built, leftover) := move(m.slots[src].value);
    var c := Construction(dst, built);
    var d := Destruction(src, leftover);
    var e1 := m.events + [c];
    assert RelocateAtIntended(m, src, dst, move).mem.events == e1 + [d];
    CountAppend(m.events, c, Constructs, dst);
    CountAppend(e1, d, Constructs, dst);
    CountAppend(m.events, c, Constructs, src);
    CountAppend(e1, d, Constructs, src);
    CountAppend(m.events, c, Destroys, dst);
    CountAppend(e1, d, Destroys, dst);
    CountAppend(m.events, c, Destroys, src);
    CountAppend(e1, d, Destroys, src);
  }

  /** Constructing into a slot with no live object keeps every slot in step
      with its history. */
  lemma ConstructAtKeepsConsistent<T>(m: Memory<T>, addr: Addr, v: T)
    requires Consistent(m) && addr in m.slots && !m.slots[addr].Live?
    ensures Consistent(ConstructAt(m, addr, v).mem)
  {
    var m' := ConstructAt(m, addr, v).mem;
    forall a | a in m'.slots
      ensures SlotMatchesHistory(m', a)
    {
      CountAppend(m.events, Construction(addr, v), Constructs, a);
      CountAppend(m.events, Construction(addr, v), Destroys, a);
      assert SlotMatchesHistory(m, a);
    }
  }

  /** Destroying a live object keeps every slot in step with its history. */
  lemma DestroyAtKeepsConsistent<T>(m: Memory<T>, addr: Addr)
    requires Consistent(m) && addr in m.slots && m.slots[addr].Live?
    ensures Consistent(DestroyAt(m, addr))
  {
    var m' := DestroyAt(m, addr);
    forall a | a in m'.slots
      ensures SlotMatchesHistory(m', a)
    {
      CountAppend(m.events, Destruction(addr, m.slots[addr].value), Constructs, a);
      CountAppend(m.events, Destruction(addr, m.slots[addr].value), Destroys, a);
      assert SlotMatchesHistory(m, a);
    }
  }

  /** Moving out of an object changes no slot's history. */
  lemma MoveOutKeepsConsistent<T>(m: Memory<T>, src: Addr, move: T -> (T, T))
    requires Consistent(m) && src in m.slots && m.slots[src].Live?
    ensures Consistent(MoveOut(m, src, move).0)
  {
    var m' := MoveOut(m, src, move).0;
    forall a | a in m'.slots
      ensures SlotMatchesHistory(m', a)
    {
      assert SlotMatchesHistory(m, a);
    }
  }

  /** relocate_at as written keeps the bookkeeping balanced (the object it
      builds at `dst` is destroyed again), so the defect is invisible to
      construction/destruction counting alone. */
  lemma RelocateAtKeepsConsistent<T>(m: Memory<T>, src: Addr, dst: Addr, move: T -> (T, T))
    requires Consistent(m) && src in m.slots && m.slots[src].Live? && dst in m.slots
    requires src != dst && !m.slots[dst].Live?
    ensures Consistent(RelocateAt(m, src, dst, move).mem)
  {
    var (moved, built) := MoveOut(m, src, move);
    MoveOutKeepsConsistent(m, src, move);
    ConstructAtKeepsConsistent(moved, dst, built);
    DestroyAtKeepsConsistent(ConstructAt(moved, dst, built).mem, dst);
  }

  /** Intended relocation into a slot with no live object also keeps every
      slot in step with its history. */
  lemma RelocateAtIntendedKeepsConsistent<T>(m: Memory<T>, src: Addr, dst: Addr, move: T -> (T, T))
    requires Consistent(m) && src in m.slots && m.slots[src].Live? && dst in m.slots
    requires src != dst && !m.slots[dst].Live?
    ensures Consistent(RelocateAtIntended(m, src, dst, move).mem)
  {
    var (moved, built) := MoveOut(m, src, move);
    MoveOutKeepsConsistent(m, src, move);
    ConstructAtKeepsConsistent(moved, dst, built);
    DestroyAtKeepsConsistent(ConstructAt(moved, dst, built).mem, src);
  }
}
