/** The event queue of a window in kernel/gui/wm.c: a ring of 256 entries that merges
    pointer moves and wheel turns in place and says once that it overflowed. */
module EventRing {

  const RING: nat := 256      // WM_EVENT_RING_SIZE

  datatype Kind = FocusIn | FocusOut | PointerMove | PointerButton | Overflow | Wheel | Key

  type Word = w: nat | w < 0x1_0000_0000

  datatype WmEvent = WmEvent(kind: Kind, windowId: nat, timestamp: nat, a: Word, b: Word, c: Word, d: Word)

  const NO_EVENT: WmEvent := WmEvent(FocusIn, 0, 0, 0, 0, 0, 0)

  function AddWord(a: nat, b: nat): Word { (a + b) % 0x1_0000_0000 }

  function Next(i: nat): (j: nat) ensures j < RING { (i + 1) % 256 }

  /** The wheel turns of a sequence of events. */
  function WheelSum(s: seq<WmEvent>): nat {
    if s == [] then 0 else WheelSum(s[..|s| - 1]) + Turn(s[|s| - 1])
  }

  /** The same 32-bit sum. */
  ghost predicate Same32(x: int, y: int) { (x - y) % 0x1_0000_0000 == 0 }

  lemma Same32Means(x: nat, y: nat)
    ensures Same32(x, y) <==> x % 0x1_0000_0000 == y % 0x1_0000_0000
  {}

  /** Adding in 32 bits gives the sum up to a multiple of 2^32. */
  lemma AddWordSame(a: Word, b: Word, x: int, y: int)
    requires Same32(x, y)
    ensures Same32(x + AddWord(a, b) - a, y + b)
  {
    assert AddWord(a, b) == a + b || AddWord(a, b) == a + b - 0x1_0000_0000;
  }

  function Turn(e: WmEvent): nat { if e.kind == Wheel then e.a else 0 }

  function Overflows(s: seq<WmEvent>): nat {
    if s == [] then 0
    else Overflows(s[..|s| - 1]) + if s[|s| - 1].kind == Overflow then 1 else 0
  }

  /** Timestamps strictly increase and stay below the tick. */
  ghost predicate Stamped(s: seq<WmEvent>, tick: nat) {
    && (forall i, j | 0 <= i < j < |s| :: s[i].timestamp < s[j].timestamp)
    && (forall i | 0 <= i < |s| :: s[i].timestamp < tick)
  }

  /** Timestamps strictly increase. */
  ghost predicate Ascending(s: seq<WmEvent>) {
    forall i, j | 0 <= i < j < |s| :: s[i].timestamp < s[j].timestamp
  }

  /** e is merged into the newest event. */
  predicate Merges(s: seq<WmEvent>, e: WmEvent) {
    && |s| > 0 && (e.kind == PointerMove || e.kind == Wheel)
    && s[|s| - 1].kind == e.kind && s[|s| - 1].windowId == e.windowId
  }

  function Merged(prev: WmEvent, e: WmEvent): WmEvent {
    e.(a := if e.kind == Wheel then AddWord(prev.a, e.a) else e.a)
  }

  /** A bounded queue of at most 255 events. */
  datatype Queue = Queue(events: seq<WmEvent>, latched: bool)

  /** What queueing e does: merge it, add it, or, when the queue is full, put an overflow
      mark in the place of the oldest event the first time and nothing after that. */
  ghost predicate Queued(q: Queue, e: WmEvent, q': Queue, tick: nat, tick': nat) {
    if Merges(q.events, e) then
      && q' == q.(events := q.events[..|q.events| - 1]
                                       + [Merged(q.events[|q.events| - 1], e.(timestamp := tick))])
      && tick' == tick + 1
    else if |q.events| < RING - 1 then
      q' == q.(events := q.events + [e.(timestamp := tick)]) && tick' == tick + 1
    else if q.latched then
      q' == q && tick' == tick
    else
      && q'.latched && tick' == tick + 1 && |q'.events| == |q.events|
      && q'.events[..|q.events| - 1] == q.events[1..]
      && q'.events[|q.events| - 1].kind == Overflow && q'.events[|q.events| - 1].timestamp == tick
  }

  lemma QueuedBy(q: Queue, e: WmEvent, q': Queue, tick: nat, tick': nat)
    requires Merges(q.events, e) ==>
               && q' == q.(events := q.events[..|q.events| - 1]
                                       + [Merged(q.events[|q.events| - 1], e.(timestamp := tick))])
               && tick' == tick + 1
    requires !Merges(q.events, e) && |q.events| < RING - 1 ==>
               q' == q.(events := q.events + [e.(timestamp := tick)]) && tick' == tick + 1
    requires !Merges(q.events, e) && |q.events| >= RING - 1 && q.latched ==> q' == q && tick' == tick
    requires !Merges(q.events, e) && |q.events| >= RING - 1 && !q.latched ==>
               && q'.latched && tick' == tick + 1 && |q'.events| == |q.events|
               && q'.events[..|q.events| - 1] == q.events[1..]
               && q'.events[|q.events| - 1].kind == Overflow && q'.events[|q.events| - 1].timestamp == tick
    ensures Queued(q, e, q', tick, tick')
  {}

  // ---------------------------------------------------------------------
  // Sums and stamps under one change.

  lemma SumOne(s: seq<WmEvent>, e: WmEvent)
    ensures WheelSum(s + [e]) == WheelSum(s) + Turn(e)
    ensures Overflows(s + [e]) == Overflows(s) + if e.kind == Overflow then 1 else 0
  {
    assert (s + [e])[..|s|] == s;
  }

  lemma {:induction false} SumFirst(s: seq<WmEvent>)
    requires |s| > 0
    ensures WheelSum(s) == Turn(s[0]) + WheelSum(s[1..])
    ensures Overflows(s) == Overflows(s[1..]) + if s[0].kind == Overflow then 1 else 0
  {
    var n := |s| - 1;
    if n == 0 {
      assert s[..0] == [] && s[1..] == [];
    } else {
      SumFirst(s[..n]);
      assert s[..n][1..] == s[1..][..n - 1];
    }
  }

  lemma {:induction false} SumBoth(s: seq<WmEvent>, t: seq<WmEvent>)
    ensures WheelSum(s + t) == WheelSum(s) + WheelSum(t) && Overflows(s + t) == Overflows(s) + Overflows(t)
    decreases |t|
  {
    if t == [] {
      assert s + t == s;
    } else {
      var n := |t| - 1;
      SumBoth(s, t[..n]);
      assert s + t == s + t[..n] + [t[n]] && t == t[..n] + [t[n]];
      SumOne(s + t[..n], t[n]);
      SumOne(t[..n], t[n]);
    }
  }

  lemma StampNext(s: seq<WmEvent>, e: WmEvent, tick: nat)
    requires Stamped(s, tick) && e.timestamp == tick
    ensures Stamped(s + [e], tick + 1)
  {}

  lemma StampDrop(d: seq<WmEvent>, s: seq<WmEvent>, tick: nat)
    requires |s| > 0 && Stamped(d + s, tick)
    ensures Stamped(d + s[1..], tick)
  {
    var t := d + s;
    var u := d + s[1..];
    assert forall i | 0 <= i < |u| :: u[i] == t[if i < |d| then i else i + 1];
  }

  lemma StampMerge(d: seq<WmEvent>, s: seq<WmEvent>, e: WmEvent, tick: nat)
    requires |s| > 0 && Stamped(d + s, tick) && e.timestamp == tick
    ensures Stamped(d + (s[..|s| - 1] + [e]), tick + 1)
  {
    var n := |s| - 1;
    var t := d + s;
    var u := d + (s[..n] + [e]);
    assert forall i | 0 <= i < |u| - 1 :: u[i] == t[i];
  }

  class Ring {
    const ring: array<WmEvent>
    var head: nat
    var tail: nat
    var latched: bool               // ev_overflow_latched
    ghost var delivered: seq<WmEvent>
    ghost var turned: nat           // the wheel turns ever queued
    ghost var lost: nat             // the wheel turns dropped

    ghost predicate Shape()
      reads this`head, this`tail
    {
      ring.Length == RING && head < RING && tail < RING
    }

    ghost function Size(): nat
      reads this`head, this`tail
      requires Shape()
    {
      if head <= tail then tail - head else 256 + tail - head
    }

    /** Where the k-th oldest event is. */
    ghost function At(k: nat): nat
      reads this`head
    {
      (head + k) % 256
    }

    ghost function Events(): (s: seq<WmEvent>)
      reads this`head, this`tail, ring
      requires Shape()
      ensures |s| == Size() && forall k | 0 <= k < |s| :: s[k] == ring[At(k)]
    {
      var h := head;
      seq(Size(), k requires 0 <= k && ring.Length == RING reads ring => ring[(h + k) % 256])
    }

    ghost function Contents(): Queue
      reads this, ring
      requires Shape()
    {
      Queue(Events(), latched)
    }

    /** Over all polled and pending events timestamps strictly increase and an overflow is
        marked at most once; and no wheel turn is lost but those counted as lost. */
    ghost predicate Valid(tick: nat)
      reads this, ring
    {
      && Shape() && Size() < RING
      && Stamped(delivered + Events(), tick)
      && Overflows(delivered) + Overflows(Events()) == (if latched then 1 else 0)
      && Same32(WheelSum(delivered) + WheelSum(Events()) + lost, turned)
      && (!latched ==> lost == 0)
    }

    /** What Valid says of the events. */
    lemma Facts(tick: nat)
      requires Valid(tick)
      ensures Ascending(delivered + Events()) && Overflows(delivered + Events()) == (if latched then 1 else 0)
      ensures |Events()| < RING
      ensures !latched ==> WheelSum(delivered + Events()) % 0x1_0000_0000 == turned % 0x1_0000_0000
    {
      SumBoth(delivered, Events());
      Same32Means(WheelSum(delivered) + WheelSum(Events()), turned);
    }

    lemma HasShape(tick: nat)
      requires Valid(tick)
      ensures Shape()
    {}

    /** Other windows take ticks. */
    lemma Later(tick: nat, ticks: nat)
      requires Valid(tick)
      ensures Valid(tick + ticks)
    {}

    constructor ()
      ensures fresh(ring) && Valid(0) && Contents() == Queue([], false) && delivered == [] && turned == 0 && lost == 0
    {
      ring := new WmEvent[RING](_ => NO_EVENT);
      head, tail, latched := 0, 0, false;
      delivered, turned, lost := [], 0, 0;
    }

    /** The entries after the ring's write position or read position moved. */
    lemma EventsAre(s: seq<WmEvent>)
      requires Shape() && |s| == Size() && forall k | 0 <= k < |s| :: s[k] == ring[At(k)]
      ensures Events() == s
    {}

    /** The newest event becomes e. */
    method Replace(e: WmEvent)
      requires Shape() && Size() > 0
      modifies ring
      ensures Shape() && Events() == old(Events())[..old(Size()) - 1] + [e]
    {
      var last := (tail + 255) % 256;
      ghost var s := Events();
      ghost var n := Size() - 1;
      assert At(n) == last;
      ring[last] := e;
      EventsAre(s[..n] + [e]);
    }

    /** e goes behind the newest event. */
    method Push(e: WmEvent)
      requires Shape() && Size() < RING - 1
      modifies ring, this`tail
      ensures Shape() && Events() == old(Events()) + [e]
    {
      ghost var s := Events();
      assert At(Size()) == tail;
      assert forall k | 0 <= k < Size() :: At(k) != tail;
      ring[tail] := e;
      tail := Next(tail);
      EventsAre(s + [e]);
    }

    /** The full queue drops its oldest event for an overflow mark of window id. */
    method MarkOverflow(id: nat, tick: nat)
      requires Shape() && Size() == RING - 1
      modifies ring, this`tail, this`head
      ensures Shape() && Size() == RING - 1
      ensures Events()[..RING - 2] == old(Events())[1..]
      ensures var e := Events()[RING - 2]; e.kind == Overflow && e.timestamp == tick && e.windowId == id
    {
      hide Ring.Events;
      ghost var s := Events();
      assert At(Size()) == tail;
      assert forall k | 0 <= k < Size() :: At(k) != tail;
      var next := Next(tail);
      ring[tail] := ring[tail].(kind := Overflow, windowId := id, timestamp := tick);
      ghost var mark := ring[tail];
      assert next == head;
      tail := next;
      if tail == head {
        head := Next(head);
      }
      EventsAre(s[1..] + [mark]);
    }

    /** e is merged into the newest event. */
    method MergeEvent(e: WmEvent, tick: nat)
      requires Valid(tick) && Merges(Events(), e)
      modifies ring, this`turned
      ensures Valid(tick + 1) && turned == old(turned) + Turn(e)
      ensures Events() == old(Events())[..old(Size()) - 1]
                          + [Merged(old(Events())[old(Size()) - 1], e.(timestamp := tick))]
    {
      hide Stamped, WheelSum, Overflows, Merged, AddWord, Same32;
      var prev := ring[(tail + 255) % 256];
      assert At(Size() - 1) == (tail + 255) % 256;
      MergeKeeps(delivered, Events(), e.(timestamp := tick), tick, lost, turned);
      Replace(Merged(prev, e.(timestamp := tick)));
      turned := turned + Turn(e);
    }

    /** The queue is full: an overflow mark the first time, and nothing after that. */
    method DropEvent(e: WmEvent, id: nat, tick: nat) returns (tick': nat)
      requires Valid(tick) && Size() == RING - 1
      modifies ring, this`head, this`tail, this`latched, this`turned, this`lost
      ensures Valid(tick') && turned == old(turned) + Turn(e) && latched
      ensures tick' == if old(latched) then tick else tick + 1
      ensures old(latched) ==> Events() == old(Events())
      ensures !old(latched) ==> |Events()| == RING - 1 && Events()[..RING - 2] == old(Events())[1..]
                                && Events()[RING - 2].kind == Overflow && Events()[RING - 2].timestamp == tick
    {
      hide Stamped, WheelSum, Overflows, Turn;
      ghost var s := Events();
      tick' := tick;
      if !latched {
        latched := true;
        MarkOverflow(id, tick);
        OverflowMarked(delivered, s, Events(), tick);
        lost := lost + Turn(s[0]);
        tick' := tick + 1;
      }
      turned, lost := turned + Turn(e), lost + Turn(e);
    }

    /** e becomes the newest event. */
    method AppendEvent(e: WmEvent, tick: nat)
      requires Valid(tick) && Size() < RING - 1 && e.kind != Overflow
      modifies ring, this`tail, this`turned
      ensures Valid(tick + 1) && turned == old(turned) + Turn(e) && Events() == old(Events()) + [e.(timestamp := tick)]
    {
      hide Stamped, WheelSum, Overflows;
      PushKeeps(delivered, Events(), e.(timestamp := tick), tick);
      Push(e.(timestamp := tick));
      turned := turned + Turn(e);
    }

    /** wm_queue_event, for any event but the overflow mark, which only the queue itself
        makes. The tick is the counter all windows share; id is the window. */
    method QueueEvent(e: WmEvent, id: nat, tick: nat) returns (tick': nat)
      requires Valid(tick) && e.kind != Overflow
      modifies ring, this`head, this`tail, this`latched, this`turned, this`lost
      ensures Valid(tick') && tick <= tick'
      ensures Queued(old(Contents()), e, Contents(), tick, tick')
      ensures turned == old(turned) + Turn(e)
      ensures Merges(old(Events()), e) || |old(Events())| < RING - 1 ==> lost == old(lost)
    {
      hide Stamped, WheelSum, Overflows, Merged, AddWord, Turn, Same32, Queued;
      ghost var q := Contents();
      if head != tail {
        var prev := ring[(tail + 255) % 256];
        assert At(Size() - 1) == (tail + 255) % 256;
        if (e.kind == PointerMove || e.kind == Wheel) && prev.kind == e.kind && prev.windowId == e.windowId {
          MergeEvent(e, tick);
          QueuedBy(q, e, Contents(), tick, tick + 1);
          return tick + 1;
        }
      }
      if Next(tail) == head {
        tick' := DropEvent(e, id, tick);
        QueuedBy(q, e, Contents(), tick, tick');
        return;
      }
      AppendEvent(e, tick);
      QueuedBy(q, e, Contents(), tick, tick + 1);
      return tick + 1;
    }

    /** wm_poll_event: the oldest event, or none. */
    method PollEvent(ghost tick: nat) returns (some: bool, e: WmEvent)
      requires Valid(tick)
      modifies this`head, this`delivered
      ensures Valid(tick) && (some <==> old(Events()) != [])
      ensures some ==> e == old(Events())[0] && Events() == old(Events())[1..] && delivered == old(delivered) + [e]
      ensures !some ==> Events() == old(Events()) && delivered == old(delivered)
    {
      hide Stamped, WheelSum, Overflows, Same32;
      if head == tail {
        return false, NO_EVENT;
      }
      ghost var s := Events();
      assert At(0) == head;
      e := ring[head];
      head := Next(head);
      EventsAre(s[1..]);
      DeliverKeeps(delivered, s);
      delivered := delivered + [e];
      some := true;
    }
  }

  lemma MergeSums(s: seq<WmEvent>, e: WmEvent)
    requires Merges(s, e)
    ensures var n := |s| - 1; var s' := s[..n] + [Merged(s[n], e)];
            && Overflows(s') == Overflows(s) && WheelSum(s') + Turn(s[n]) == WheelSum(s) + Turn(Merged(s[n], e))
  {
    var n := |s| - 1;
    SumOne(s[..n], Merged(s[n], e));
    SumOne(s[..n], s[n]);
    assert s[..n] + [s[n]] == s;
  }

  lemma MergeKeeps(d: seq<WmEvent>, s: seq<WmEvent>, e: WmEvent, tick: nat, lost: nat, turned: nat)
    requires Merges(s, e) && Stamped(d + s, tick) && e.timestamp == tick
             && Same32(WheelSum(d) + WheelSum(s) + lost, turned)
    ensures var s' := s[..|s| - 1] + [Merged(s[|s| - 1], e)];
            && Stamped(d + s', tick + 1) && Overflows(s') == Overflows(s)
            && Same32(WheelSum(d) + WheelSum(s') + lost, turned + Turn(e))
  {
    hide Same32, AddWord, WheelSum, Overflows, Stamped;
    var n := |s| - 1;
    StampMerge(d, s, Merged(s[n], e), tick);
    MergeSums(s, e);
    AddWordSame(s[n].a, e.a, WheelSum(d) + WheelSum(s) + lost, turned);
  }

  lemma PushKeeps(d: seq<WmEvent>, s: seq<WmEvent>, e: WmEvent, tick: nat)
    requires Stamped(d + s, tick) && e.timestamp == tick && e.kind != Overflow
    ensures Stamped(d + (s + [e]), tick + 1) && Overflows(s + [e]) == Overflows(s)
            && WheelSum(s + [e]) == WheelSum(s) + Turn(e)
  {
    StampNext(d + s, e, tick);
    assert d + s + [e] == d + (s + [e]);
    SumOne(s, e);
  }

  lemma OverflowMarked(d: seq<WmEvent>, s: seq<WmEvent>, t: seq<WmEvent>, tick: nat)
    requires |s| > 0 && |t| == |s| && t[..|t| - 1] == s[1..] && t[|t| - 1].kind == Overflow
             && t[|t| - 1].timestamp == tick
    requires Stamped(d + s, tick) && Overflows(d) + Overflows(s) == 0
    ensures Stamped(d + t, tick + 1) && Overflows(d) + Overflows(t) == 1 && WheelSum(s) == Turn(s[0]) + WheelSum(t)
  {
    var e := t[|t| - 1];
    assert t == s[1..] + [e];
    StampDrop(d, s, tick);
    StampNext(d + s[1..], e, tick);
    assert d + s[1..] + [e] == d + t;
    SumOne(s[1..], e);
    SumFirst(s);
  }

  lemma DeliverKeeps(d: seq<WmEvent>, s: seq<WmEvent>)
    requires |s| > 0
    ensures d + [s[0]] + s[1..] == d + s
    ensures Overflows(d + [s[0]]) + Overflows(s[1..]) == Overflows(d) + Overflows(s)
    ensures WheelSum(d + [s[0]]) + WheelSum(s[1..]) == WheelSum(d) + WheelSum(s)
  {
    SumOne(d, s[0]);
    SumFirst(s);
  }

  /** What happens to a window's queue: an event for it, a poll, or ticks that the events
      of other windows take. */
  datatype Call = Send(e: WmEvent) | Poll | Elsewhere(ticks: nat)

  /** The wheel turns queued by these calls. */
  function Turned(calls: seq<Call>): nat {
    if calls == [] then 0
    else Turned(calls[..|calls| - 1]) + match calls[|calls| - 1] case Send(e) => Turn(e) case _ => 0
  }

  /** Over every mix of calls, from the creation of the window on, timestamps strictly
      increase over all events ever polled and then those pending, although events are
      merged in place; there is at most one overflow mark among them all; and without one
      nothing was dropped, and the 32-bit sum of the wheel turns queued is that of the
      turns polled and pending. */
  method Run(id: nat, calls: seq<Call>) returns (r: Ring, polled: seq<WmEvent>)
    requires forall i | 0 <= i < |calls| && calls[i].Send? :: calls[i].e.kind != Overflow
    ensures r.Shape() && |r.Events()| <= 255 && Ascending(polled + r.Events())
    ensures Overflows(polled + r.Events()) == if r.latched then 1 else 0
    ensures !r.latched ==> WheelSum(polled + r.Events()) % 0x1_0000_0000 == Turned(calls) % 0x1_0000_0000
  {
    hide Ring.Valid, Overflows, WheelSum, Turn;
    r := new Ring();
    polled := [];
    var tick, i := 0, 0;
    while i < |calls|
      invariant 0 <= i <= |calls| && fresh(r) && fresh(r.ring) && r.Valid(tick)
      invariant polled == r.delivered && r.turned == Turned(calls[..i])
      decreases |calls| - i
    {
      assert calls[..i + 1][..i] == calls[..i];
      match calls[i] {
      case Send(e) => tick := r.QueueEvent(e, id, tick);
      case Poll =>
        var some, e := r.PollEvent(tick);
        if some {
          polled := polled + [e];
        }
      case Elsewhere(ticks) =>
        r.Later(tick, ticks);
        tick := tick + ticks;
      }
      i := i + 1;
    }
    assert calls[..i] == calls;
    r.HasShape(tick);
    r.Facts(tick);
  }
}
