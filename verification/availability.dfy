/**
 * The free-slot computation of `check_availability`: collect the busy slots
 * of the timed events, sort them by start, and sweep a cursor across the
 * working-hours window, emitting every gap the cursor has to jump.
 *
 * Instants are whole minutes. The window `[dayStart, dayEnd)` and the events
 * come from the caller (the API query and the date arithmetic are not part
 * of this model); `instant` stands for `datetime.fromisoformat`.
 */
module Availability {
  import opened Wrappers
  import opened Events

  /** A busy entry of the result: an event's start, end and title. */
  datatype BusySlot = BusySlot(start: int, end: int, summary: string)

  /** A free entry of the result, the half-open range `[start, end)`. */
  datatype FreeSlot = FreeSlot(start: int, end: int)

  const BusyTitle := "(busy)"

  // ---------------------------------------------------------------------------
  // Collecting the busy slots

  /** An event with both a start and an end `dateTime`; all-day events have neither. */
  predicate IsTimed(e: Event)
  {
    Present(e.start.dateTime) && Present(e.end.dateTime)
  }

  function ToBusy(e: Event, instant: string -> int): BusySlot
    requires IsTimed(e)
  {
    BusySlot(instant(e.start.dateTime.value), instant(e.end.dateTime.value), e.summary.GetOr(BusyTitle))
  }

  /** The busy list built from `events`, in the order they were received. */
  function BusySlots(events: seq<Event>, instant: string -> int): seq<BusySlot>
  {
    if events == [] then []
    else
      var last := events[|events| - 1];
      BusySlots(events[..|events| - 1], instant) + (if IsTimed(last) then [ToBusy(last, instant)] else [])
  }

  /** The positions of the timed events in `events`, ascending. */
  function TimedPositions(events: seq<Event>): seq<nat>
  {
    if events == [] then []
    else
      var n := |events| - 1;
      TimedPositions(events[..n]) + (if IsTimed(events[n]) then [n] else [])
  }

  /** The timed positions are the indices of the timed events, each once and ascending. */
  lemma {:induction false} TimedPositionsAreTheTimedEvents(events: seq<Event>)
    ensures forall k :: 0 <= k < |TimedPositions(events)| ==>
              TimedPositions(events)[k] < |events| && IsTimed(events[TimedPositions(events)[k]])
    ensures forall k, l :: 0 <= k < l < |TimedPositions(events)| ==> TimedPositions(events)[k] < TimedPositions(events)[l]
    ensures forall i :: 0 <= i < |events| && IsTimed(events[i]) ==> i in TimedPositions(events)
  {
    if events != [] {
      var n := |events| - 1;
      TimedPositionsAreTheTimedEvents(events[..n]);
      var pos := TimedPositions(events[..n]);
      forall k | 0 <= k < |pos| ensures pos[k] < n && events[pos[k]] == events[..n][pos[k]] {
      }
      forall i | 0 <= i < |events| && IsTimed(events[i]) ensures i in TimedPositions(events) {
        if i < n {
          assert events[..n][i] == events[i];
        }
      }
    }
  }

  /**
   * The busy list holds exactly the timed events, one slot each and in the
   * order received: its k-th slot comes from the k-th timed event, and every
   * timed event (and no all-day event) is used.
   */
  lemma {:induction false} BusySlotsAreTheTimedEvents(events: seq<Event>, instant: string -> int)
    ensures var busy, pos := BusySlots(events, instant), TimedPositions(events);
            && |busy| == |pos|
            && (forall k :: 0 <= k < |pos| ==> pos[k] < |events| && IsTimed(events[pos[k]]) &&
                                               busy[k] == ToBusy(events[pos[k]], instant))
            && (forall k, l :: 0 <= k < l < |pos| ==> pos[k] < pos[l])
            && (forall i :: 0 <= i < |events| && IsTimed(events[i]) ==> i in pos)
  {
    TimedPositionsAreTheTimedEvents(events);
    if events != [] {
      var n := |events| - 1;
      BusySlotsAreTheTimedEvents(events[..n], instant);
      var busy, pos := BusySlots(events[..n], instant), TimedPositions(events[..n]);
      forall k | 0 <= k < |pos| ensures busy[k] == ToBusy(events[pos[k]], instant) {
        assert events[..n][pos[k]] == events[pos[k]];
      }
    }
  }

  // ---------------------------------------------------------------------------
  // Sorting by start (Python's `sorted` with `key=start`, which is stable)

  predicate SortedByStart(s: seq<BusySlot>)
  {
    forall i, j :: 0 <= i < j < |s| ==> s[i].start <= s[j].start
  }

  /** Puts `b` in front of the first slot that does not start before it. */
  function Insert(b: BusySlot, s: seq<BusySlot>): seq<BusySlot>
  {
    if s == [] || b.start <= s[0].start then [b] + s
    else [s[0]] + Insert(b, s[1..])
  }

  /** Inserting adds exactly the one slot. */
  lemma {:induction false} InsertAddsSlot(b: BusySlot, s: seq<BusySlot>)
    ensures multiset(Insert(b, s)) == multiset(s) + multiset{b}
  {
    if s != [] && s[0].start < b.start {
      InsertAddsSlot(b, s[1..]);
      assert s == [s[0]] + s[1..];
    }
  }

  lemma {:induction false} InsertKeepsOrder(b: BusySlot, s: seq<BusySlot>)
    requires SortedByStart(s)
    ensures SortedByStart(Insert(b, s))
    ensures Insert(b, s)[0] == b || (s != [] && Insert(b, s)[0] == s[0])
  {
    if s != [] && s[0].start < b.start {
      var tail := Insert(b, s[1..]);
      InsertKeepsOrder(b, s[1..]);
      assert s[0].start <= tail[0].start by {
        if tail[0] != b {
          assert tail[0] == s[1];
        }
      }
      var r := [s[0]] + tail;
      forall i, j | 0 <= i < j < |r| ensures r[i].start <= r[j].start {
        assert r[j] == tail[j - 1];
        if i > 0 {
          assert r[i] == tail[i - 1];
        } else if j > 1 {
          assert tail[0].start <= tail[j - 1].start;
        }
      }
    }
  }

  function SortByStart(s: seq<BusySlot>): (r: seq<BusySlot>)
    ensures SortedByStart(r)
    ensures multiset(r) == multiset(s)
  {
    if s == [] then []
    else
      assert s == [s[0]] + s[1..];
      InsertKeepsOrder(s[0], SortByStart(s[1..]));
      InsertAddsSlot(s[0], SortByStart(s[1..]));
      Insert(s[0], SortByStart(s[1..]))
  }

  /** The slots of `s` that start at `t`, in their order in `s`. */
  function StartingAt(s: seq<BusySlot>, t: int): seq<BusySlot>
  {
    if s == [] then []
    else (if s[0].start == t then [s[0]] else []) + StartingAt(s[1..], t)
  }

  lemma {:induction false} InsertKeepsTies(b: BusySlot, s: seq<BusySlot>, t: int)
    ensures StartingAt(Insert(b, s), t) == (if b.start == t then [b] else []) + StartingAt(s, t)
  {
    if s == [] || b.start <= s[0].start {
      InsertInFront(b, s);
      StartingAtCons(b, s, t);
    } else {
      InsertPast(b, s);
      InsertKeepsTies(b, s[1..], t);
      StartingAtCons(s[0], Insert(b, s[1..]), t);
      assert s[0].start != t || b.start != t;
    }
  }

  lemma StartingAtCons(x: BusySlot, s: seq<BusySlot>, t: int)
    ensures StartingAt([x] + s, t) == (if x.start == t then [x] else []) + StartingAt(s, t)
  {
    assert ([x] + s)[0] == x && ([x] + s)[1..] == s;
  }

  /** The sort is stable: slots with the same start keep their received order. */
  lemma {:induction false} SortIsStable(s: seq<BusySlot>, t: int)
    ensures StartingAt(SortByStart(s), t) == StartingAt(s, t)
  {
    if s != [] {
      SortIsStable(s[1..], t);
      InsertKeepsTies(s[0], SortByStart(s[1..]), t);
    }
  }

  // ---------------------------------------------------------------------------
  // The sweep

  function Max(a: int, b: int): int
  {
    if a < b then b else a
  }

  /** The free slot in front of busy slot `b` when the cursor has not reached its start. */
  function Gap(current: int, b: BusySlot): seq<FreeSlot>
  {
    if current < b.start then [FreeSlot(current, b.start)] else []
  }

  /**
   * The free slots the sweep emits from cursor `current` over `busy`, the last
   * of them running from the final cursor to `dayEnd`.
   */
  function Sweep(current: int, busy: seq<BusySlot>, dayEnd: int): seq<FreeSlot>
    decreases |busy|
  {
    if busy == [] then
      if current < dayEnd then [FreeSlot(current, dayEnd)] else []
    else
      Gap(current, busy[0]) + Sweep(Max(current, busy[0].end), busy[1..], dayEnd)
  }

  /** The free list of `check_availability` for the window and a busy list in any order. */
  function FreeSlots(dayStart: int, dayEnd: int, busy: seq<BusySlot>): seq<FreeSlot>
  {
    Sweep(dayStart, SortByStart(busy), dayEnd)
  }

  /**
   * `check_availability` from the received events on: the busy list in
   * received order, and the free list the sweep emits over it sorted by start.
   */
  method CheckAvailability(events: seq<Event>, dayStart: int, dayEnd: int, instant: string -> int)
    returns (busy: seq<BusySlot>, free: seq<FreeSlot>)
    ensures busy == BusySlots(events, instant)
    ensures free == FreeSlots(dayStart, dayEnd, busy)
  {
    busy := [];
    for i := 0 to |events|
      invariant busy == BusySlots(events[..i], instant)
    {
      var event := events[i];
      var start, end := event.start.dateTime, event.end.dateTime;
      BusySlotsStep(events, i, instant);
      if Present(start) && Present(end) {
        busy := busy + [ToBusy(event, instant)];
      }
    }
    assert events[..|events|] == events;

    free := SweepFreeSlots(dayStart, dayEnd, SortByStart(busy));
  }

  /**
   * The loop of `check_availability` over the busy slots in start order: the
   * cursor starts at the window's start, each gap before a busy slot's start
   * is emitted, and the cursor moves to the later of itself and that slot's end.
   */
  method SweepFreeSlots(dayStart: int, dayEnd: int, sorted: seq<BusySlot>) returns (free: seq<FreeSlot>)
    ensures free == Sweep(dayStart, sorted, dayEnd)
  {
    free := [];
    var current := dayStart;
    for k := 0 to |sorted|
      invariant free + Sweep(current, sorted[k..], dayEnd) == Sweep(dayStart, sorted, dayEnd)
    {
      var slot := sorted[k];
      SweepStep(current, sorted, k, dayEnd);
      ghost var before, gap := free, Gap(current, slot);
      if current < slot.start {
        free := free + [FreeSlot(current, slot.start)];
      }
      current := Max(current, slot.end);
      AppendAssociates(before, gap, Sweep(current, sorted[k + 1..], dayEnd));
    }
    assert sorted[|sorted|..] == [];
    if current < dayEnd {
      free := free + [FreeSlot(current, dayEnd)];
    }
  }

  lemma AppendAssociates(a: seq<FreeSlot>, b: seq<FreeSlot>, c: seq<FreeSlot>)
    ensures a + (b + c) == (a + b) + c
  {
  }

  lemma BusySlotsStep(events: seq<Event>, i: nat, instant: string -> int)
    requires i < |events|
    ensures BusySlots(events[..i + 1], instant) ==
            BusySlots(events[..i], instant) + (if IsTimed(events[i]) then [ToBusy(events[i], instant)] else [])
  {
    assert events[..i + 1][..i] == events[..i];
  }

  lemma SweepStep(current: int, sorted: seq<BusySlot>, k: nat, dayEnd: int)
    requires k < |sorted|
    ensures Sweep(current, sorted[k..], dayEnd) ==
            Gap(current, sorted[k]) + Sweep(Max(current, sorted[k].end), sorted[k + 1..], dayEnd)
  {
    assert sorted[k..][1..] == sorted[k + 1..];
  }

  // ---------------------------------------------------------------------------
  // What the free list promises

  /** Instant `t` lies in `[f.start, f.end)`. */
  predicate InFree(t: int, f: FreeSlot)
  {
    f.start <= t < f.end
  }

  /** Instant `t` lies inside some busy slot. */
  predicate IsBusyAt(t: int, busy: seq<BusySlot>)
  {
    exists j :: 0 <= j < |busy| && busy[j].start <= t < busy[j].end
  }

  /** Instant `t` lies inside some free slot. */
  predicate IsFreeAt(t: int, free: seq<FreeSlot>)
  {
    exists k :: 0 <= k < |free| && InFree(t, free[k])
  }

  /** Half-open ranges overlap when each starts before the other ends. */
  predicate Overlaps(f: FreeSlot, b: BusySlot)
  {
    f.start < b.end && b.start < f.end
  }

  /** Every free slot is non-empty and starts at `lo` or later. */
  predicate NonEmptyFrom(free: seq<FreeSlot>, lo: int)
  {
    forall k :: 0 <= k < |free| ==> lo <= free[k].start < free[k].end
  }

  /** No free slot overlaps a busy slot. */
  predicate AvoidsBusy(free: seq<FreeSlot>, busy: seq<BusySlot>)
  {
    forall k, j :: 0 <= k < |free| && 0 <= j < |busy| ==> !Overlaps(free[k], busy[j])
  }

  /** Every free slot ends at `hi` or earlier. */
  predicate EndsBy(free: seq<FreeSlot>, hi: int)
  {
    forall k :: 0 <= k < |free| ==> free[k].end <= hi
  }

  /** Each free slot ends before the next one starts: ascending and pairwise disjoint. */
  predicate Ascending(free: seq<FreeSlot>)
  {
    forall k, l :: 0 <= k < l < |free| ==> free[k].end <= free[l].start
  }

  predicate WellFormed(busy: seq<BusySlot>)
  {
    forall j :: 0 <= j < |busy| ==> busy[j].start <= busy[j].end
  }

  lemma {:induction false} SweepSlotsAreNonEmpty(current: int, busy: seq<BusySlot>, dayEnd: int)
    ensures NonEmptyFrom(Sweep(current, busy, dayEnd), current)
    decreases |busy|
  {
    if busy != [] {
      var next := Max(current, busy[0].end);
      SweepSlotsAreNonEmpty(next, busy[1..], dayEnd);
      var gap: seq<FreeSlot>, rest: seq<FreeSlot> := Gap(current, busy[0]), Sweep(next, busy[1..], dayEnd);
      var free := gap + rest;
      forall k | 0 <= k < |free| ensures current <= free[k].start < free[k].end {
        if k < |gap| {
          assert free[k] == gap[k] == FreeSlot(current, busy[0].start);
        } else {
          assert free[k] == rest[k - |gap|];
          assert next <= rest[k - |gap|].start < rest[k - |gap|].end;
        }
      }
      assert Sweep(current, busy, dayEnd) == free;
    }
  }

  lemma {:induction false} SweepAvoidsBusy(current: int, busy: seq<BusySlot>, dayEnd: int)
    requires SortedByStart(busy)
    ensures AvoidsBusy(Sweep(current, busy, dayEnd), busy)
    decreases |busy|
  {
    if busy != [] {
      var next := Max(current, busy[0].end);
      SweepAvoidsBusy(next, busy[1..], dayEnd);
      SweepSlotsAreNonEmpty(next, busy[1..], dayEnd);
      var gap: seq<FreeSlot>, rest: seq<FreeSlot> := Gap(current, busy[0]), Sweep(next, busy[1..], dayEnd);
      var free := gap + rest;
      forall k, j | 0 <= k < |gap + rest| && 0 <= j < |busy|
        ensures !Overlaps(free[k], busy[j])
      {
        if k < |gap| {
          assert free[k] == FreeSlot(current, busy[0].start);
          assert busy[0].start <= busy[j].start;
        } else {
          var f := rest[k - |gap|];
          assert free[k] == f;
          assert next <= f.start;
          if j > 0 {
            assert busy[j] == busy[1..][j - 1];
          }
        }
      }
    }
  }

  lemma {:induction false} SweepCoversIdleTime(current: int, busy: seq<BusySlot>, dayEnd: int, t: int)
    requires current <= t < dayEnd && !IsBusyAt(t, busy)
    ensures IsFreeAt(t, Sweep(current, busy, dayEnd))
    decreases |busy|
  {
    var free := Sweep(current, busy, dayEnd);
    if busy == [] {
      assert InFree(t, free[0]);
    } else if current < busy[0].start && t < busy[0].start {
      assert InFree(t, free[0]);
    } else {
      assert !(busy[0].start <= t < busy[0].end);
      var next := Max(current, busy[0].end);
      var gap: seq<FreeSlot>, rest: seq<FreeSlot> := Gap(current, busy[0]), Sweep(next, busy[1..], dayEnd);
      forall j | 0 <= j < |busy[1..]| ensures !(busy[1..][j].start <= t < busy[1..][j].end) {
        assert busy[1..][j] == busy[j + 1];
      }
      SweepCoversIdleTime(next, busy[1..], dayEnd, t);
      var k :| 0 <= k < |rest| && InFree(t, rest[k]);
      assert free == gap + rest;
      assert free[|gap| + k] == rest[k];
    }
  }

  lemma {:induction false} SweepStaysInWindow(current: int, busy: seq<BusySlot>, dayEnd: int)
    requires forall j :: 0 <= j < |busy| ==> busy[j].start <= dayEnd
    ensures EndsBy(Sweep(current, busy, dayEnd), dayEnd)
    decreases |busy|
  {
    if busy != [] {
      var next := Max(current, busy[0].end);
      SweepStaysInWindow(next, busy[1..], dayEnd);
      var gap: seq<FreeSlot>, rest: seq<FreeSlot> := Gap(current, busy[0]), Sweep(next, busy[1..], dayEnd);
      var free := gap + rest;
      forall k | 0 <= k < |gap + rest| ensures free[k].end <= dayEnd {
        if k >= |gap| {
          assert free[k] == rest[k - |gap|];
        }
      }
    }
  }

  lemma {:induction false} SweepIsAscending(current: int, busy: seq<BusySlot>, dayEnd: int)
    requires WellFormed(busy)
    ensures Ascending(Sweep(current, busy, dayEnd))
    decreases |busy|
  {
    if busy != [] {
      var next := Max(current, busy[0].end);
      assert busy[0].start <= busy[0].end;
      assert WellFormed(busy[1..]) by {
        forall j | 0 <= j < |busy[1..]| ensures busy[1..][j].start <= busy[1..][j].end {
          assert busy[1..][j] == busy[j + 1];
        }
      }
      SweepIsAscending(next, busy[1..], dayEnd);
      SweepSlotsAreNonEmpty(next, busy[1..], dayEnd);
      var gap: seq<FreeSlot>, rest: seq<FreeSlot> := Gap(current, busy[0]), Sweep(next, busy[1..], dayEnd);
      var free := gap + rest;
      forall k, l | 0 <= k < l < |gap + rest| ensures free[k].end <= free[l].start {
        assert free[l] == rest[l - |gap|];
        if k >= |gap| {
          assert free[k] == rest[k - |gap|];
        }
      }
    }
  }

  lemma SortedHoldsSameSlots(busy: seq<BusySlot>, j: nat) returns (i: nat)
    requires j < |busy|
    ensures i < |SortByStart(busy)| && SortByStart(busy)[i] == busy[j]
  {
    var sorted := SortByStart(busy);
    assert busy[j] in multiset(busy);
    assert busy[j] in multiset(sorted);
    i :| i < |sorted| && sorted[i] == busy[j];
  }

  lemma SortedHoldsOnlySlots(busy: seq<BusySlot>, i: nat) returns (j: nat)
    requires i < |SortByStart(busy)|
    ensures j < |busy| && busy[j] == SortByStart(busy)[i]
  {
    var sorted := SortByStart(busy);
    assert sorted[i] in multiset(sorted);
    assert sorted[i] in multiset(busy);
    j :| j < |busy| && busy[j] == sorted[i];
  }

  /**
   * The free list of a window and a busy list received in any order, with
   * any overlap, nesting or duplication:
   *  - every free slot is non-empty and starts no earlier than the window;
   *  - no free slot overlaps any busy slot;
   *  - every instant of the window that no busy slot covers is in a free slot;
   *  - with busy slots that do not end before they start, the free slots come
   *    out in ascending order and pairwise disjoint;
   *  - with busy slots that start no later than the window's end (what the
   *    Calendar query asks for), every free slot ends within the window.
   */
  lemma FreeSlotsCorrect(dayStart: int, dayEnd: int, busy: seq<BusySlot>)
    ensures NonEmptyFrom(FreeSlots(dayStart, dayEnd, busy), dayStart)
    ensures AvoidsBusy(FreeSlots(dayStart, dayEnd, busy), busy)
    ensures forall t :: dayStart <= t < dayEnd && !IsBusyAt(t, busy) ==> IsFreeAt(t, FreeSlots(dayStart, dayEnd, busy))
    ensures WellFormed(busy) ==> Ascending(FreeSlots(dayStart, dayEnd, busy))
    ensures (forall j :: 0 <= j < |busy| ==> busy[j].start <= dayEnd) ==> EndsBy(FreeSlots(dayStart, dayEnd, busy), dayEnd)
  {
    var sorted := SortByStart(busy);
    var free := Sweep(dayStart, sorted, dayEnd);
    SweepSlotsAreNonEmpty(dayStart, sorted, dayEnd);
    SweepAvoidsBusy(dayStart, sorted, dayEnd);
    forall k, j | 0 <= k < |free| && 0 <= j < |busy| ensures !Overlaps(free[k], busy[j]) {
      var i := SortedHoldsSameSlots(busy, j);
    }
    forall t | dayStart <= t < dayEnd && !IsBusyAt(t, busy) ensures IsFreeAt(t, free) {
      forall i | 0 <= i < |sorted| ensures !(sorted[i].start <= t < sorted[i].end) {
        var j := SortedHoldsOnlySlots(busy, i);
      }
      SweepCoversIdleTime(dayStart, sorted, dayEnd, t);
    }
    if WellFormed(busy) {
      forall i | 0 <= i < |sorted| ensures sorted[i].start <= sorted[i].end {
        var j := SortedHoldsOnlySlots(busy, i);
      }
      SweepIsAscending(dayStart, sorted, dayEnd);
    }
    if forall j :: 0 <= j < |busy| ==> busy[j].start <= dayEnd {
      forall i | 0 <= i < |sorted| ensures sorted[i].start <= dayEnd {
        var j := SortedHoldsOnlySlots(busy, i);
      }
      SweepStaysInWindow(dayStart, sorted, dayEnd);
    }
  }

  /**
   * Given busy slots that start no later than the window's end, the free
   * slots are exactly the complement of the busy time within the window.
   */
  lemma FreeIsComplementOfBusy(dayStart: int, dayEnd: int, busy: seq<BusySlot>, t: int)
    requires forall j :: 0 <= j < |busy| ==> busy[j].start <= dayEnd
    ensures IsFreeAt(t, FreeSlots(dayStart, dayEnd, busy)) <==> dayStart <= t < dayEnd && !IsBusyAt(t, busy)
  {
    var free := FreeSlots(dayStart, dayEnd, busy);
    FreeSlotsCorrect(dayStart, dayEnd, busy);
    if IsFreeAt(t, free) {
      var k :| 0 <= k < |free| && InFree(t, free[k]);
      forall j | 0 <= j < |busy| ensures !(busy[j].start <= t < busy[j].end) {
        assert !Overlaps(free[k], busy[j]);
      }
    }
  }

  /** With nothing busy and a non-empty window, the whole window is free. */
  lemma NoBusyMeansWholeWindow(dayStart: int, dayEnd: int)
    requires dayStart < dayEnd
    ensures FreeSlots(dayStart, dayEnd, []) == [FreeSlot(dayStart, dayEnd)]
  {
  }

  /** A busy slot that spans the whole window leaves no free time at all. */
  lemma CoveredWindowHasNoFreeTime(dayStart: int, dayEnd: int, busy: seq<BusySlot>, j: nat)
    requires forall i :: 0 <= i < |busy| ==> busy[i].start <= dayEnd
    requires j < |busy| && busy[j].start <= dayStart && dayEnd <= busy[j].end
    ensures FreeSlots(dayStart, dayEnd, busy) == []
  {
    var free := FreeSlots(dayStart, dayEnd, busy);
    FreeSlotsCorrect(dayStart, dayEnd, busy);
    assert free != [] ==> IsFreeAt(free[0].start, free);
    forall t ensures !IsFreeAt(t, free) {
      FreeIsComplementOfBusy(dayStart, dayEnd, busy, t);
      if dayStart <= t < dayEnd {
        assert busy[j].start <= t < busy[j].end;
      }
    }
  }

  /**
   * A busy slot received twice in a row, anywhere in the received list, frees
   * exactly what it frees when received once.
   */
  lemma DuplicateBusySlotIsHarmless(dayStart: int, dayEnd: int, before: seq<BusySlot>, b: BusySlot, after: seq<BusySlot>)
    requires b.start <= b.end
    ensures FreeSlots(dayStart, dayEnd, before + [b, b] + after) == FreeSlots(dayStart, dayEnd, before + [b] + after)
  {
    var x, y := SortKeepsCopiesTogether(before, b, after);
    SweepSkipsRepeat(dayStart, x, b, y, dayEnd);
  }

  /** Sorting keeps two adjacent copies of a slot adjacent, with the same slots around them as a single copy. */
  lemma {:induction false} SortKeepsCopiesTogether(before: seq<BusySlot>, b: BusySlot, after: seq<BusySlot>)
    returns (x: seq<BusySlot>, y: seq<BusySlot>)
    ensures SortByStart(before + [b, b] + after) == x + [b, b] + y
    ensures SortByStart(before + [b] + after) == x + [b] + y
    decreases |before|
  {
    if before == [] {
      assert [] + [b, b] + after == [b] + ([b] + after);
      assert ([b] + ([b] + after))[1..] == [b] + after;
      assert [] + [b] + after == [b] + after;
      assert ([b] + after)[1..] == after;
      x, y := InsertTwice(b, SortByStart(after));
    } else {
      var c := before[0];
      assert (before + [b, b] + after)[1..] == before[1..] + [b, b] + after;
      assert (before + [b] + after)[1..] == before[1..] + [b] + after;
      var x1, y1 := SortKeepsCopiesTogether(before[1..], b, after);
      x, y := InsertAround(c, x1, b, y1);
    }
  }

  /** Inserting a slot twice puts the two copies side by side. */
  lemma {:induction false} InsertTwice(b: BusySlot, s: seq<BusySlot>) returns (x: seq<BusySlot>, y: seq<BusySlot>)
    ensures Insert(b, s) == x + [b] + y
    ensures Insert(b, Insert(b, s)) == x + [b, b] + y
  {
    if s == [] || b.start <= s[0].start {
      InsertInFront(b, s);
      InsertInFront(b, [b] + s);
      x, y := [], s;
      assert [b] + s == x + [b] + y;
      assert [b] + ([b] + s) == x + [b, b] + y;
    } else {
      var x1, y1 := InsertTwice(b, s[1..]);
      var rest := Insert(b, s[1..]);
      InsertPast(b, s);
      var once := [s[0]] + rest;
      assert once[0] == s[0] && once[1..] == rest;
      InsertPast(b, once);
      x, y := [s[0]] + x1, y1;
      assert once == x + [b] + y;
      assert Insert(b, once) == [s[0]] + (x1 + [b, b] + y1);
      assert [s[0]] + (x1 + [b, b] + y1) == x + [b, b] + y;
    }
  }

  /** Inserting another slot never separates two adjacent copies. */
  lemma {:induction false} InsertAround(c: BusySlot, x: seq<BusySlot>, b: BusySlot, y: seq<BusySlot>)
    returns (x': seq<BusySlot>, y': seq<BusySlot>)
    ensures Insert(c, x + [b, b] + y) == x' + [b, b] + y'
    ensures Insert(c, x + [b] + y) == x' + [b] + y'
  {
    var twice, once := x + [b, b] + y, x + [b] + y;
    if x == [] {
      assert twice == [b, b] + y && once == [b] + y;
      x', y' := InsertBeforePair(c, b, y);
    } else if c.start <= x[0].start {
      InsertInFront(c, twice);
      InsertInFront(c, once);
      x', y' := [c] + x, y;
    } else {
      InsertPast(c, twice);
      InsertPast(c, once);
      assert twice[0] == x[0] && twice[1..] == x[1..] + [b, b] + y;
      assert once[0] == x[0] && once[1..] == x[1..] + [b] + y;
      var x1, y1 := InsertAround(c, x[1..], b, y);
      x', y' := [x[0]] + x1, y1;
    }
  }

  /** Inserting next to two copies at the front lands before or after both. */
  lemma InsertBeforePair(c: BusySlot, b: BusySlot, y: seq<BusySlot>) returns (x': seq<BusySlot>, y': seq<BusySlot>)
    ensures Insert(c, [b, b] + y) == x' + [b, b] + y'
    ensures Insert(c, [b] + y) == x' + [b] + y'
  {
    var twice, once := [b, b] + y, [b] + y;
    if c.start <= b.start {
      InsertInFront(c, twice);
      InsertInFront(c, once);
      x', y' := [c], y;
      assert [c] + twice == x' + [b, b] + y';
      assert [c] + once == x' + [b] + y';
    } else {
      assert twice[0] == b && twice[1..] == once;
      assert once[0] == b && once[1..] == y;
      InsertPast(c, twice);
      InsertPast(c, once);
      var rest := Insert(c, y);
      x', y' := [], rest;
      assert Insert(c, once) == [b] + rest;
      assert Insert(c, twice) == [b] + ([b] + rest);
      assert [b] + ([b] + rest) == x' + [b, b] + y';
    }
  }

  lemma InsertInFront(b: BusySlot, s: seq<BusySlot>)
    requires s == [] || b.start <= s[0].start
    ensures Insert(b, s) == [b] + s
  {
  }

  lemma InsertPast(b: BusySlot, s: seq<BusySlot>)
    requires s != [] && s[0].start < b.start
    ensures Insert(b, s) == [s[0]] + Insert(b, s[1..])
  {
  }

  /** The sweep passes over a repeated well-formed busy slot as over a single one. */
  lemma {:induction false} SweepSkipsRepeat(current: int, x: seq<BusySlot>, b: BusySlot, y: seq<BusySlot>, dayEnd: int)
    requires b.start <= b.end
    ensures Sweep(current, x + [b, b] + y, dayEnd) == Sweep(current, x + [b] + y, dayEnd)
    decreases |x|
  {
    var twice, once := x + [b, b] + y, x + [b] + y;
    if x == [] {
      var next := Max(current, b.end);
      assert twice[0] == b && twice[1..] == [b] + y;
      assert once[0] == b && once[1..] == y;
      assert ([b] + y)[0] == b && ([b] + y)[1..] == y;
      assert Gap(next, b) == [] && Max(next, b.end) == next;
    } else {
      assert twice[0] == x[0] && twice[1..] == x[1..] + [b, b] + y;
      assert once[0] == x[0] && once[1..] == x[1..] + [b] + y;
      SweepSkipsRepeat(Max(current, x[0].end), x[1..], b, y, dayEnd);
    }
  }

  /** Every busy slot lasts: it starts before it ends. */
  predicate Lasting(busy: seq<BusySlot>)
  {
    forall j :: 0 <= j < |busy| ==> busy[j].start < busy[j].end
  }

  /** A gap separates each free slot from the next: no two free slots touch. */
  predicate Separated(free: seq<FreeSlot>)
  {
    forall k :: 0 <= k < |free| - 1 ==> free[k].end < free[k + 1].start
  }

  lemma {:induction false} SweepSeparatesSlots(current: int, busy: seq<BusySlot>, dayEnd: int)
    requires Lasting(busy)
    ensures Separated(Sweep(current, busy, dayEnd))
    decreases |busy|
  {
    if busy != [] {
      var next := Max(current, busy[0].end);
      assert Lasting(busy[1..]) by {
        forall j | 0 <= j < |busy[1..]| ensures busy[1..][j].start < busy[1..][j].end {
          assert busy[1..][j] == busy[j + 1];
        }
      }
      SweepSeparatesSlots(next, busy[1..], dayEnd);
      SweepSlotsAreNonEmpty(next, busy[1..], dayEnd);
      var gap: seq<FreeSlot>, rest: seq<FreeSlot> := Gap(current, busy[0]), Sweep(next, busy[1..], dayEnd);
      var free := gap + rest;
      forall k | 0 <= k < |free| - 1 ensures free[k].end < free[k + 1].start {
        if k < |gap| {
          assert free[k].end == busy[0].start < busy[0].end <= next;
          assert free[k + 1] == rest[0];
        } else {
          assert free[k] == rest[k - |gap|] && free[k + 1] == rest[k - |gap| + 1];
        }
      }
    }
  }

  /**
   * When every busy slot starts before it ends, the free slots are maximal:
   * each one stops where busy time begins, so no two of them touch.
   */
  lemma FreeSlotsAreMaximal(dayStart: int, dayEnd: int, busy: seq<BusySlot>)
    ensures Lasting(busy) ==> Separated(FreeSlots(dayStart, dayEnd, busy))
  {
    if Lasting(busy) {
      var sorted := SortByStart(busy);
      forall i | 0 <= i < |sorted| ensures sorted[i].start < sorted[i].end {
        var j := SortedHoldsOnlySlots(busy, i);
      }
      SweepSeparatesSlots(dayStart, sorted, dayEnd);
    }
  }

  /**
   * A zero-length busy slot inside the window frees nothing less, but the
   * sweep still stops at it: the free stretch comes out as two touching slots.
   */
  lemma ZeroLengthEventSplitsFreeTime(dayStart: int, dayEnd: int, t: int, title: string)
    requires dayStart < t < dayEnd
    ensures FreeSlots(dayStart, dayEnd, [BusySlot(t, t, title)]) == [FreeSlot(dayStart, t), FreeSlot(t, dayEnd)]
  {
    var b := BusySlot(t, t, title);
    InsertInFront(b, []);
    assert [b][1..] == [];
    assert SortByStart([b]) == [b];
    assert Sweep(t, [], dayEnd) == [FreeSlot(t, dayEnd)];
    assert Sweep(dayStart, [b], dayEnd) == Gap(dayStart, b) + Sweep(t, [], dayEnd);
  }
}
