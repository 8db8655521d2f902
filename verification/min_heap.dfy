/**
 The timer heap of minheap-internal.h: a binary min-heap of events in an array, every event
 storing its own array position.  Insertion and removal move a hole instead of swapping.
 */
module MinHeap {

  datatype Time = Time(sec: int, usec: int)

  // evutil_timercmp(x, y, >)
  predicate Later(x: Time, y: Time) {
    if x.sec == y.sec then x.usec > y.usec else x.sec > y.sec
  }

  /** `x` is at most `y`, as seconds first and microseconds second. */
  predicate NoLaterThan(x: Time, y: Time) {
    x.sec < y.sec || (x.sec == y.sec && x.usec <= y.usec)
  }

  /** The comparison of the source is the strict order, the other way round. */
  lemma LaterIff(x: Time, y: Time)
    ensures Later(x, y) <==> !NoLaterThan(x, y)
  {
  }

  const SECOND := 1_000_000

  function Micros(t: Time): int {
    t.sec * SECOND + t.usec
  }

  /** On times with less than a second of microseconds it is the order of the points in time. */
  lemma TimeOrder(x: Time, y: Time)
    requires 0 <= x.usec < SECOND && 0 <= y.usec < SECOND
    ensures NoLaterThan(x, y) <==> Micros(x) <= Micros(y)
    ensures Later(x, y) <==> Micros(x) > Micros(y)
  {
    LaterIff(x, y);
  }

  // ----- Times in array order, with a hole -----

  predicate IsParent(i: int, j: int) {
    j == 2 * i + 1 || j == 2 * i + 2
  }

  const UINT_MAX: nat := 0xFFFF_FFFF

  /** (i - 1) / 2 on unsigned numbers. */
  function Parent(i: nat): (j: nat)
    ensures i > 0 ==> j < i && IsParent(j, i)
  {
    if i == 0 then UINT_MAX / 2 else (i - 1) / 2
  }

  /** No time is later than a time below it, and neither are the times above and below the hole;
      the hole itself does not count. */
  ghost predicate Ordered(ts: seq<Time>, hole: int) {
    && (forall i, j | 0 <= i < |ts| && 0 <= j < |ts| && i != hole && j != hole
        && IsParent(i, j) :: !Later(ts[i], ts[j]))
    && (forall i, j | 0 <= i < |ts| && 0 <= j < |ts| && IsParent(i, hole) && IsParent(hole, j) :: !Later(ts[i], ts[j]))
  }

  /** `t` is not later than the times below the hole. */
  ghost predicate FitsAbove(ts: seq<Time>, hole: int, t: Time) {
    forall j | 0 <= j < |ts| && IsParent(hole, j) :: !Later(t, ts[j])
  }

  /** `t` is not earlier than the time above the hole. */
  ghost predicate FitsBelow(ts: seq<Time>, hole: int, t: Time) {
    forall i | 0 <= i < |ts| && IsParent(i, hole) :: !Later(ts[i], t)
  }

  lemma HoleUp(ts: seq<Time>, hole: nat, t: Time)
    requires 0 < hole < |ts| && Ordered(ts, hole) && Later(ts[Parent(hole)], t)
    ensures Ordered(ts[hole := ts[Parent(hole)]], Parent(hole))
    ensures FitsAbove(ts[hole := ts[Parent(hole)]], Parent(hole), t)
  {
  }

  ghost predicate LeastChild(ts: seq<Time>, hole: int, child: int) {
    && 0 <= child < |ts| && IsParent(hole, child)
    && forall j | 0 <= j < |ts| && IsParent(hole, j) :: !Later(ts[child], ts[j])
  }

  lemma HoleDown(ts: seq<Time>, hole: nat, child: nat, t: Time)
    requires hole < |ts| && LeastChild(ts, hole, child) && Ordered(ts, hole) && Later(t, ts[child])
    ensures Ordered(ts[hole := ts[child]], child)
    ensures FitsBelow(ts[hole := ts[child]], child, t)
  {
  }

  lemma HoleFilled(ts: seq<Time>, hole: nat, t: Time)
    requires hole < |ts| && Ordered(ts, hole) && FitsAbove(ts, hole, t) && FitsBelow(ts, hole, t)
    ensures Ordered(ts[hole := t], -1)
  {
  }

  lemma StopUp(ts: seq<Time>, hole: nat, t: Time)
    requires hole < |ts| && (hole == 0 || !Later(ts[Parent(hole)], t))
    ensures FitsBelow(ts, hole, t)
  {
  }

  /** The smaller child, if there is one, decides whether `t` can stay at the hole. */
  lemma StopDown(ts: seq<Time>, hole: nat, child: nat, t: Time)
    requires hole <= |ts|
    requires 2 * (hole + 1) > |ts| || (LeastChild(ts, hole, child) && !Later(t, ts[child]))
    ensures FitsAbove(ts, hole, t)
  {
  }

  lemma HoleAtEnd(ts: seq<Time>, hole: nat)
    requires hole >= |ts| && Ordered(ts, hole)
    ensures Ordered(ts, -1)
  {
  }

  lemma HoleAppended(ts: seq<Time>, t: Time)
    requires Ordered(ts, -1)
    ensures Ordered(ts + [t], |ts|) && FitsAbove(ts + [t], |ts|, t)
  {
  }

  lemma NothingAbove(ts: seq<Time>, t: Time)
    ensures FitsBelow(ts, 0, t)
  {
  }

  lemma {:induction false} RootIsLeast(ts: seq<Time>, i: nat)
    requires Ordered(ts, -1) && i < |ts|
    ensures NoLaterThan(ts[0], ts[i])
  {
    if i > 0 {
      RootIsLeast(ts, Parent(i));
      LaterIff(ts[Parent(i)], ts[i]);
    }
  }

  lemma HoleMade(ts: seq<Time>, hole: nat)
    requires Ordered(ts, -1) && hole < |ts|
    ensures Ordered(ts[..|ts| - 1], hole)
  {
    assert forall i, j | 0 <= i < |ts| && 0 <= j < |ts| && IsParent(i, hole) && IsParent(hole, j) ::
      !Later(ts[i], ts[hole]) && !Later(ts[hole], ts[j]);
  }

  /** A last time earlier than the one above the hole is also earlier than those below it: it can
      only have to go up. */
  lemma GoesUp(ts: seq<Time>, hole: nat)
    requires Ordered(ts, -1) && 0 < hole < |ts| && Later(ts[Parent(hole)], ts[|ts| - 1])
    ensures hole < |ts| - 1 && FitsAbove(ts[..|ts| - 1], hole, ts[|ts| - 1])
  {
    assert !Later(ts[Parent(hole)], ts[hole]);
  }

  lemma GoesDown(ts: seq<Time>, hole: nat)
    requires hole < |ts| && (hole == 0 || !Later(ts[Parent(hole)], ts[|ts| - 1]))
    ensures FitsBelow(ts[..|ts| - 1], hole, ts[|ts| - 1])
  {
  }

  // ----- The heap -----

  /** The fields of `struct event` that the heap uses; minHeapIdx is -1 outside every heap. */
  class Event {
    var timeout: Time
    var minHeapIdx: int

    // min_heap_elem_init (minheap-internal.h:66)
    constructor (timeout: Time)
      ensures this.timeout == timeout && minHeapIdx == -1
    {
      this.timeout := timeout;
      minHeapIdx := -1;
    }
  }

  /** The first |ts| slots of `p`, except `hole`, hold exactly the events of `es`; every one of
      them knows its slot, and its timeout is listed in `ts`. */
  ghost predicate Placed(p: array<Event?>, ts: seq<Time>, hole: int, es: set<Event>)
    reads p, es
  {
    && |ts| <= p.Length
    && (forall i | 0 <= i < |ts| && i != hole ::
          p[i] != null && p[i] in es && p[i].minHeapIdx == i && p[i].timeout == ts[i])
    && (forall x | x in es :: 0 <= x.minHeapIdx < |ts| && x.minHeapIdx != hole && p[x.minHeapIdx] == x)
  }

  function Larger(x: nat, y: nat): (z: nat)
    ensures z >= x && z >= y && (z == x || z == y)
  {
    if x < y then y else x
  }

  class MinHeap {
    var p: array<Event?>
    var n: nat
    var a: nat
    ghost var events: set<Event>
    ghost var times: seq<Time>

    ghost predicate Valid()
      reads this, p, events
    {
      && a == p.Length
      && n == |times|
      && Placed(p, times, -1, events)
      && Ordered(times, -1)
    }

    // min_heap_ctor (minheap-internal.h:64)
    constructor ()
      ensures Valid() && events == {} && fresh(p)
    {
      p := new Event?[0];
      n := 0;
      a := 0;
      events := {};
      times := [];
    }

    // min_heap_elem_greater (minheap-internal.h:59-62)
    static predicate ElemGreater(x: Event, y: Event)
      reads x, y
    {
      Later(x.timeout, y.timeout)
    }

    /** p[hole] = p[from], with the moved event's index: the hole is now at `from`. */
    method MoveTo(hole: nat, from: nat, ghost ts: seq<Time>, ghost es: set<Event>)
      requires hole < |ts| && from < |ts| && hole != from && Placed(p, ts, hole, es)
      modifies p, es`minHeapIdx
      ensures Placed(p, ts[hole := ts[from]], from, es)
    {
      p[hole] := p[from];
      p[hole].minHeapIdx := hole;
    }

    /** p[hole] = e, with its index. */
    method Fill(hole: nat, e: Event, ghost ts: seq<Time>, ghost es: set<Event>)
      requires hole < |ts| && e !in es && Placed(p, ts, hole, es)
      modifies p, e`minHeapIdx
      ensures Placed(p, ts[hole := e.timeout], -1, es + {e})
    {
      p[hole] := e;
      p[hole].minHeapIdx := hole;
    }

    /** p[hole] = e for the slot just behind the heap. */
    method FillBehind(hole: nat, e: Event, ghost ts: seq<Time>, ghost es: set<Event>)
      requires |ts| == hole < p.Length && e !in es && Placed(p, ts, hole, es)
      modifies p, e`minHeapIdx
      ensures Placed(p, ts, -1, es)
    {
      p[hole] := e;
      p[hole].minHeapIdx := hole;
    }

    // min_heap_shift_up_ (minheap-internal.h:133-143)
    method ShiftUp(start: nat, e: Event, ghost ts0: seq<Time>, ghost es: set<Event>) returns (ghost ts: seq<Time>)
      requires start < |ts0| && e !in es
      requires Placed(p, ts0, start, es) && Ordered(ts0, start) && FitsAbove(ts0, start, e.timeout)
      modifies p, es`minHeapIdx, e`minHeapIdx
      ensures |ts| == |ts0| && Placed(p, ts, -1, es + {e}) && Ordered(ts, -1)
    {
      hide Ordered, FitsAbove, FitsBelow, IsParent;
      var hole: nat := start;
      var parent: nat := Parent(hole);
      ts := ts0;
      while hole != 0 && ElemGreater(p[parent], e)
        invariant hole < |ts| == |ts0| && parent == Parent(hole)
        invariant Placed(p, ts, hole, es) && Ordered(ts, hole) && FitsAbove(ts, hole, e.timeout)
        decreases hole
      {
        HoleUp(ts, hole, e.timeout);
        MoveTo(hole, parent, ts, es);
        ts := ts[hole := ts[parent]];
        hole := parent;
        parent := Parent(hole);
      }
      StopUp(ts, hole, e.timeout);
      HoleFilled(ts, hole, e.timeout);
      Fill(hole, e, ts, es);
      ts := ts[hole := e.timeout];
    }

    /** min_child -= min_child == n || p[min_child] > p[min_child - 1] */
    method EarlierChild(right: nat, ghost hole: nat, ghost ts: seq<Time>, ghost es: set<Event>) returns (child: nat)
      requires |ts| == n && Placed(p, ts, hole, es) && right == 2 * (hole + 1) <= n
      ensures child < n && child in {right, right - 1} && LeastChild(ts, hole, child)
      ensures p[child] != null && p[child].timeout == ts[child]
    {
      child := right;
      if right == n || ElemGreater(p[right], p[right - 1]) {
        child := right - 1;
      }
    }

    // min_heap_shift_down_ (minheap-internal.h:145-158); a hole just behind the last slot stays there
    method ShiftDown(start: nat, e: Event, ghost ts0: seq<Time>, ghost es: set<Event>) returns (ghost ts: seq<Time>)
      requires start <= |ts0| == n < p.Length && e !in es
      requires Placed(p, ts0, start, es) && Ordered(ts0, start) && FitsBelow(ts0, start, e.timeout)
      modifies p, es`minHeapIdx, e`minHeapIdx
      ensures |ts| == |ts0| && Ordered(ts, -1)
      ensures Placed(p, ts, -1, if start < |ts0| then es + {e} else es)
    {
      hide Ordered, FitsAbove, FitsBelow, LeastChild, Placed;
      var hole: nat := start;
      var minChild: nat := 2 * (hole + 1);
      ts := ts0;
      while minChild <= n
        invariant hole <= |ts| == |ts0| && minChild == 2 * (hole + 1) && (hole == |ts| <==> start == |ts0|)
        invariant Placed(p, ts, hole, es) && Ordered(ts, hole) && FitsBelow(ts, hole, e.timeout)
        decreases |ts| - hole
      {
        minChild := EarlierChild(minChild, hole, ts, es);
        if !ElemGreater(e, p[minChild]) {
          break;
        }
        HoleDown(ts, hole, minChild, e.timeout);
        MoveTo(hole, minChild, ts, es);
        ts := ts[hole := ts[minChild]];
        hole := minChild;
        minChild := 2 * (hole + 1);
      }
      StopDown(ts, hole, minChild, e.timeout);
      if hole < n {
        HoleFilled(ts, hole, e.timeout);
        Fill(hole, e, ts, es);
        ts := ts[hole := e.timeout];
      } else {
        HoleAtEnd(ts, hole);
        FillBehind(hole, e, ts, es);
      }
    }

    // min_heap_reserve (minheap-internal.h:117-131); `reallocOk` is whether mm_realloc succeeds
    method Reserve(m: nat, reallocOk: bool) returns (r: int)
      requires Valid()
      modifies this`p, this`a
      ensures Valid() && (p == old(p) || fresh(p))
      ensures r == 0 <==> old(a) >= m || reallocOk
      ensures r == 0 ==> a == if old(a) >= m then old(a) else Larger(m, if old(a) == 0 then 8 else 2 * old(a))
      ensures r != 0 ==> r == -1 && p == old(p) && a == old(a)
    {
      hide Ordered, FitsAbove, FitsBelow;
      if a < m {
        var size := if a != 0 then a * 2 else 8;
        if size < m {
          size := m;
        }
        if !reallocOk {
          return -1;
        }
        var larger := new Event?[size];
        for i := 0 to a
          modifies larger
          invariant forall j | 0 <= j < i :: larger[j] == p[j]
        {
          larger[i] := p[i];
        }
        assert Placed(p, times, -1, events);
        p := larger;
        a := size;
      }
      return 0;
    }

    // min_heap_push (minheap-internal.h:71-77)
    method Push(e: Event, reallocOk: bool) returns (r: int)
      requires Valid() && e !in events
      modifies this, p, events`minHeapIdx, e`minHeapIdx
      ensures Valid() && (p == old(p) || fresh(p))
      ensures r == 0 <==> old(n < a) || reallocOk
      ensures r == 0 ==> events == old(events) + {e} && n == old(n) + 1
      ensures r != 0 ==> r == -1 && events == old(events) && n == old(n) && p == old(p)
      ensures r != 0 ==> p[..] == old(p[..]) && forall x | x in events + {e} :: x.minHeapIdx == old(x.minHeapIdx)
    {
      hide Ordered, FitsAbove, FitsBelow, Placed;
      r := Reserve(n + 1, reallocOk);
      if r != 0 {
        return -1;
      }
      HoleAppended(times, e.timeout);
      SlotAppended(p, times, events, e.timeout);
      n := n + 1;
      times := ShiftUp(n - 1, e, times + [e.timeout], events);
      events := events + {e};
      return 0;
    }

    // min_heap_top, min_heap_size and min_heap_empty (minheap-internal.h:67-69)
    method Top() returns (e: Event?)
      requires Valid()
      ensures e == null <==> events == {}
      ensures e != null ==> e in events && forall x | x in events :: NoLaterThan(e.timeout, x.timeout)
    {
      if n == 0 {
        return null;
      }
      e := p[0];
      RootLeast();
    }

    // min_heap_elt_is_top (minheap-internal.h:91-94)
    method EltIsTop(e: Event) returns (top: bool)
      requires Valid() && (e in events || e.minHeapIdx == -1)
      ensures top <==> n > 0 && p[0] == e
      ensures top ==> e in events && forall x | x in events :: NoLaterThan(e.timeout, x.timeout)
    {
      top := e.minHeapIdx == 0;
      if top {
        RootLeast();
      }
    }

    /** An event that is no longer in the heap gets the index -1. */
    method Forget(e: Event)
      requires Valid() && e !in events
      modifies e`minHeapIdx
      ensures Valid() && e.minHeapIdx == -1
    {
      hide Ordered;
      e.minHeapIdx := -1;
    }

    // min_heap_pop (minheap-internal.h:79-89)
    method Pop() returns (e: Event?)
      requires Valid()
      modifies this, p, events`minHeapIdx
      ensures Valid() && p == old(p)
      ensures e == null <==> old(events) == {}
      ensures e == null ==> events == {}
      ensures e != null ==> e in old(events) && forall x | x in old(events) :: NoLaterThan(e.timeout, x.timeout)
      ensures e != null ==> events == old(events) - {e} && n == old(n) - 1 && e.minHeapIdx == -1
    {
      hide Ordered, Placed;
      if n == 0 {
        NoEvents();
        return null;
      }
      RootLeast();
      e := p[0];
      Detached(p, times, events, e);
      HoleMade(times, 0);
      n := n - 1;
      var last := p[n];
      NothingAbove(times[..n], last.timeout);
      ghost var rest := events - {e};
      times := ShiftDown(0, last, times[..n], events - {e, last});
      events := rest;
      Forget(e);
    }

    /** The choice of direction in min_heap_erase (minheap-internal.h:100-110): `last` goes to the
        slot of the erased event and moves up or down from there. */
    method Refill(hole: nat, last: Event, ghost ts0: seq<Time>, ghost es: set<Event>, ghost rest: set<Event>)
      returns (ghost ts: seq<Time>)
      requires rest == if hole < n then es + {last} else es
      requires Ordered(ts0, -1) && hole <= n == |ts0| - 1 && ts0[n] == last.timeout && n < p.Length
      requires last !in es && Placed(p, ts0[..n], hole, es)
      modifies p, es`minHeapIdx, last`minHeapIdx
      ensures |ts| == n && Ordered(ts, -1) && Placed(p, ts, -1, rest)
    {
      hide Ordered, FitsAbove, FitsBelow;
      HoleMade(ts0, hole);
      var parent: nat := if hole == 0 then 0 else (hole - 1) / 2;
      if hole > 0 && ElemGreater(p[parent], last) {
        GoesUp(ts0, hole);
        ts := ShiftUp(hole, last, ts0[..n], es);
      } else {
        GoesDown(ts0, hole);
        ts := ShiftDown(hole, last, ts0[..n], es);
      }
    }

    /** The body of min_heap_erase for an event of the heap (minheap-internal.h:100-112). */
    method TakeOut(e: Event)
      requires Valid() && e in events
      modifies this, p, events`minHeapIdx
      ensures Valid() && p == old(p) && e.minHeapIdx == -1
      ensures events == old(events) - {e} && n == old(n) - 1
    {
      hide Ordered, Placed;
      Detached(p, times, events, e);
      n := n - 1;
      var last := p[n];
      var hole: nat := e.minHeapIdx;
      ghost var rest := events - {e};
      times := Refill(hole, last, times, events - {e, last}, rest);
      events := rest;
      Forget(e);
    }

    // min_heap_erase (minheap-internal.h:96-115)
    method Erase(e: Event) returns (r: int)
      requires Valid() && (e in events || e.minHeapIdx == -1)
      modifies this, p, events`minHeapIdx
      ensures Valid() && p == old(p) && e.minHeapIdx == -1
      ensures r == if old(e in events) then 0 else -1
      ensures events == old(events) - {e} && n == if old(e in events) then old(n) - 1 else old(n)
    {
      if e.minHeapIdx != -1 {
        TakeOut(e);
        return 0;
      }
      return -1;
    }

    lemma NoEvents()
      requires Valid() && n == 0
      ensures events == {}
    {
    }

    lemma RootLeast()
      requires Valid() && n > 0
      ensures p.Length > 0 && p[0] != null && p[0] in events && p[0].minHeapIdx == 0
      ensures forall x | x in events :: NoLaterThan(p[0].timeout, x.timeout)
    {
      forall x | x in events
        ensures NoLaterThan(p[0].timeout, x.timeout)
      {
        RootIsLeast(times, x.minHeapIdx);
      }
    }
  }

  /** Popping until the heap is empty gives every event once, in the order of the timeouts. */
  method Drain(h: MinHeap) returns (out: seq<Event>)
    requires h.Valid()
    modifies h, h.p, h.events`minHeapIdx
    ensures h.Valid() && h.events == {}
    ensures forall x :: x in out <==> x in old(h.events)
    ensures forall i, j | 0 <= i < j < |out| :: out[i] != out[j] && NoLaterThan(out[i].timeout, out[j].timeout)
    ensures forall x | x in out :: x.minHeapIdx == -1
  {
    hide MinHeap.Valid, Placed, Ordered, NoLaterThan;
    out := [];
    var e := h.Pop();
    while e != null
      invariant h.Valid() && h.p == old(h.p) && h.events <= old(h.events)
      invariant e == null ==> h.events == {}
      invariant e != null ==> e in old(h.events) && e !in h.events && e !in out && e.minHeapIdx == -1
      invariant e != null ==> forall x | x in h.events :: NoLaterThan(e.timeout, x.timeout)
      invariant e != null ==> forall x | x in out :: NoLaterThan(x.timeout, e.timeout)
      invariant forall x, y | x in out && y in h.events :: NoLaterThan(x.timeout, y.timeout)
      invariant forall x | x in out :: x in old(h.events) && x !in h.events && x.minHeapIdx == -1
      invariant forall x | x in old(h.events) :: x in out || x in h.events || x == e
      invariant forall i, j | 0 <= i < j < |out| :: out[i] != out[j] && NoLaterThan(out[i].timeout, out[j].timeout)
      decreases h.events, e != null
    {
      out := out + [e];
      e := h.Pop();
    }
  }

  /** The slots hold every event of the heap exactly once. */
  lemma {:induction false} EventCount(p: array<Event?>, ts: seq<Time>, es: set<Event>)
    requires Placed(p, ts, -1, es)
    ensures |es| == |ts| && forall i, j | 0 <= i < j < |ts| :: p[i] != p[j]
  {
    if ts == [] {
      assert es == {};
    } else {
      var last := p[|ts| - 1];
      Detached(p, ts, es, last);
      assert es - {last, last} == es - {last};
      assert Placed(p, ts[..|ts| - 1], -1, es - {last});
      EventCount(p, ts[..|ts| - 1], es - {last});
    }
  }

  /** The slot behind the heap as a hole of a larger heap. */
  lemma SlotAppended(p: array<Event?>, ts: seq<Time>, es: set<Event>, t: Time)
    requires Placed(p, ts, -1, es) && |ts| < p.Length
    ensures Placed(p, ts + [t], |ts|, es)
  {
  }

  /** Taking an event and the event of the last slot away leaves a hole. */
  lemma Detached(p: array<Event?>, ts: seq<Time>, es: set<Event>, e: Event)
    requires Placed(p, ts, -1, es) && e in es
    ensures 0 <= e.minHeapIdx < |ts| <= p.Length && p[e.minHeapIdx] == e
    ensures var last := p[|ts| - 1];
            && last != null && last in es && last.timeout == ts[|ts| - 1]
            && Placed(p, ts[..|ts| - 1], e.minHeapIdx, es - {e, last})
            && es - {e} == if e.minHeapIdx < |ts| - 1 then es - {e, last} + {last} else es - {e, last}
  {
    var last := p[|ts| - 1];
    assert e.minHeapIdx < |ts| - 1 ==> e != last;
  }
}
