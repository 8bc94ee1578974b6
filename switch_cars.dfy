/** The car-switching controller of the car show: an index over a fixed list
    of cars that three entry points move (the name buttons jump to a car, the
    left and right arrows step by one). Every move that passes its guard hands
    one SwitchIndex event to the subscribers before the index changes, and the
    two arrow buttons are disabled at the ends of the list.
 */
module SwitchCars {

  datatype Option<T> = None | Some(value: T)

  /** A car as the controller sees it: only its name is shown (on its button). */
  datatype CarDetails = CarDetails(name: string)

  /** The payload of a switch event: the index before and after the move. */
  datatype SwitchIndex = SwitchIndex(prev: int, current: int)

  /** The three entry points of the controller, as calls a user can trigger. */
  datatype Call = Select(index: int) | Prev | Next

  /** The index and the events emitted so far. */
  datatype Outcome = Outcome(index: int, log: seq<SwitchIndex>)

  /** A handler registered through onSelect, with the length of the event log
      at the moment it subscribed: it is handed every event from there on. */
  datatype Subscription = Subscription(handler: nat, since: nat)

  /** An index the controller can hold over `n` cars. The controller starts at
      0 even when there are no cars, so 0 is always admitted. */
  predicate ValidIndex(n: nat, k: int)
  {
    0 <= k < n || k == 0
  }

  /** An event a controller over `n` cars may emit: a real move between two cars. */
  predicate WellFormed(n: nat, e: SwitchIndex)
  {
    0 <= e.prev < n && 0 <= e.current < n && e.prev != e.current
  }

  /** The event `call` emits when the controller is at `cur`, or None when the
      call's guard returns early and nothing happens. */
  function Emit(n: nat, cur: int, call: Call): (r: Option<SwitchIndex>)
    // the event is emitted before the index changes, so it starts at the old index
    ensures r.Some? ==> r.value.prev == cur && r.value.current != cur
    // a move never leaves the list
    ensures r.Some? && ValidIndex(n, cur) ==> WellFormed(n, r.value)
    // how far each call moves
    ensures r.Some? && call.Select? ==> r.value.current == call.index
    ensures r.Some? && call.Prev? ==> r.value.current == cur - 1
    ensures r.Some? && call.Next? ==> r.value.current == cur + 1
    // when each call is a no-op, at an index the controller can hold
    ensures ValidIndex(n, cur) && call.Select? ==>
              (r.None? <==> call.index < 0 || call.index >= n || call.index == cur)
    ensures ValidIndex(n, cur) && call.Prev? ==> (r.None? <==> cur == 0)
    ensures ValidIndex(n, cur) && call.Next? ==> (r.None? <==> n == 0 || cur == n - 1)
  {
    match call
    case Select(i) =>
      if i < 0 || i >= n || cur == i then None else Some(SwitchIndex(cur, i))
    case Prev =>
      if cur - 1 < 0 then None else Some(SwitchIndex(cur, cur - 1))
    case Next =>
      if cur + 1 >= n then None else Some(SwitchIndex(cur, cur + 1))
  }

  /** The index after a call that emitted `e` from `cur`. */
  function After(cur: int, e: Option<SwitchIndex>): int
  {
    if e.Some? then e.value.current else cur
  }

  /** The events a call that emitted `e` adds to the log. */
  function Emitted(e: Option<SwitchIndex>): seq<SwitchIndex>
  {
    if e.Some? then [e.value] else []
  }

  /** The index and event log after making `calls`, in order, from `start`. */
  function Run(n: nat, start: int, calls: seq<Call>): (o: Outcome)
    // every call emits at most one event
    ensures |o.log| <= |calls|
    // any sequence of calls keeps the index on the list
    ensures ValidIndex(n, start) ==> ValidIndex(n, o.index)
    decreases |calls|
  {
    if calls == [] then Outcome(start, [])
    else
      var o := Run(n, start, calls[..|calls| - 1]);
      var e := Emit(n, o.index, calls[|calls| - 1]);
      Outcome(After(o.index, e), o.log + Emitted(e))
  }

  /** `log` is a chain of moves from `start` to `end`: each event begins where
      the one before it ended. */
  predicate Chained(start: int, log: seq<SwitchIndex>, end: int)
    decreases |log|
  {
    if log == [] then start == end
    else log[|log| - 1].current == end && Chained(start, log[..|log| - 1], log[|log| - 1].prev)
  }

  /** The same chain, stated link by link. */
  predicate Linked(start: int, log: seq<SwitchIndex>, end: int)
  {
    (log == [] ==> start == end) &&
    (log != [] ==> log[0].prev == start && log[|log| - 1].current == end) &&
    forall i :: 0 <= i < |log| - 1 ==> log[i].current == log[i + 1].prev
  }

  /** The recursive and the link-by-link statement of a chain agree. */
  lemma {:induction false} ChainedIsLinked(start: int, log: seq<SwitchIndex>, end: int)
    ensures Chained(start, log, end) <==> Linked(start, log, end)
    decreases |log|
  {
    if log != [] {
      var init, last := log[..|log| - 1], log[|log| - 1];
      ChainedIsLinked(start, init, last.prev);
      if Linked(start, log, end) {
        assert Linked(start, init, last.prev) by {
          if init != [] {
            assert log[|log| - 2].current == log[|log| - 1].prev;
          }
        }
      }
      if Chained(start, log, end) {
        assert Linked(start, init, last.prev);
        forall i | 0 <= i < |log| - 1
          ensures log[i].current == log[i + 1].prev
        {
          if i < |log| - 2 {
            assert init[i].current == init[i + 1].prev;
          }
        }
      }
    }
  }

  /** Making one more call extends the run by that call's event. */
  lemma RunAppend(n: nat, start: int, calls: seq<Call>, c: Call, cur: int, log: seq<SwitchIndex>)
    requires Run(n, start, calls) == Outcome(cur, log)
    ensures Run(n, start, calls + [c]) ==
              Outcome(After(cur, Emit(n, cur, c)), log + Emitted(Emit(n, cur, c)))
  {
    assert (calls + [c])[..|calls|] == calls;
  }

  /** The events of any run form a chain from the start to the final index. */
  lemma {:induction false} RunChained(n: nat, start: int, calls: seq<Call>)
    ensures Chained(start, Run(n, start, calls).log, Run(n, start, calls).index)
    decreases |calls|
  {
    if calls != [] {
      var init := calls[..|calls| - 1];
      RunChained(n, start, init);
      var o := Run(n, start, init);
      var e := Emit(n, o.index, calls[|calls| - 1]);
      if e.Some? {
        var log := o.log + [e.value];
        assert log[..|log| - 1] == o.log;
      } else {
        assert o.log + Emitted(e) == o.log;
      }
    }
  }

  /** From an index the controller can hold, every event of a run is a move
      between two different cars of the list. */
  lemma {:induction false} RunEventsWellFormed(n: nat, start: int, calls: seq<Call>)
    requires ValidIndex(n, start)
    ensures forall e :: e in Run(n, start, calls).log ==> WellFormed(n, e)
    decreases |calls|
  {
    if calls != [] {
      var init := calls[..|calls| - 1];
      RunEventsWellFormed(n, start, init);
      var o := Run(n, start, init);
      var e := Emit(n, o.index, calls[|calls| - 1]);
      assert Run(n, start, calls).log == o.log + Emitted(e);
    }
  }

  /** A run in which no event was emitted leaves the index where it started. */
  lemma {:induction false} SilentRunKeepsIndex(n: nat, start: int, calls: seq<Call>)
    requires Run(n, start, calls).log == []
    ensures Run(n, start, calls).index == start
  {
    RunChained(n, start, calls);
  }

  /** A name button reaches its car from any index the controller can hold. */
  lemma SelectReaches(n: nat, cur: int, j: int)
    requires ValidIndex(n, cur) && 0 <= j < n
    ensures Run(n, cur, [Select(j)]).index == j
    ensures Run(n, cur, [Select(j)]).log == if j == cur then [] else [SwitchIndex(cur, j)]
  {
  }

  /** The left arrow undoes the right arrow, and both moves are reported. */
  lemma PrevUndoesNext(n: nat, k: int)
    requires 0 <= k && k + 1 < n
    ensures Run(n, k, [Next, Prev]) == Outcome(k, [SwitchIndex(k, k + 1), SwitchIndex(k + 1, k)])
  {
  }

  /** Three cars, starting at the first: the right arrow moves 0 to 1, then 1
      to 2, then does nothing at the last car. */
  lemma ThreeCarsWalk()
    ensures Run(3, 0, [Next, Next, Next]) == Outcome(2, [SwitchIndex(0, 1), SwitchIndex(1, 2)])
  {
    assert [Next, Next, Next][..2] == [Next, Next];
    assert [Next, Next][..1] == [Next];
    assert [Next][..0] == [];
  }

  /** The left arrow is disabled exactly when the left arrow does nothing. */
  predicate LeftArrowDisabled(k: int)
  {
    k == 0
  }

  /** The right arrow is disabled exactly at the last car. */
  predicate RightArrowDisabled(n: nat, k: int)
  {
    k == n - 1
  }

  /** On a non-empty list, each arrow is disabled exactly when pressing it
      would do nothing. */
  lemma ArrowsMatchGuards(n: nat, k: int)
    requires n > 0 && ValidIndex(n, k)
    ensures LeftArrowDisabled(k) <==> Emit(n, k, Prev).None?
    ensures RightArrowDisabled(n, k) <==> Emit(n, k, Next).None?
  {
  }

  /** With no cars the right arrow stays enabled, although pressing it does nothing. */
  lemma EmptyListRightArrow()
    ensures !RightArrowDisabled(0, 0) && Emit(0, 0, Next).None?
  {
  }

  /** The controller over a fixed list of cars. */
  class SwitchCarsController {
    const cars: seq<CarDetails>
    var currentIndex: int
    /** Every event handed to the subscribers so far, in order. */
    var events: seq<SwitchIndex>
    var subscriptions: seq<Subscription>
    var leftArrowDisabled: bool
    var rightArrowDisabled: bool
    /** Every entry-point call made so far, including those that did nothing. */
    ghost var calls: seq<Call>

    /** The arrow buttons show the state of the current index. */
    ghost predicate ArrowsMatch()
      reads this
    {
      leftArrowDisabled == LeftArrowDisabled(currentIndex) &&
      rightArrowDisabled == RightArrowDisabled(|cars|, currentIndex)
    }

    ghost predicate Valid()
      reads this
    {
      Run(|cars|, 0, calls) == Outcome(currentIndex, events) &&
      ValidIndex(|cars|, currentIndex) &&
      Linked(0, events, currentIndex) &&
      (forall e :: e in events ==> WellFormed(|cars|, e)) &&
      (forall s :: s in subscriptions ==> s.since <= |events|) &&
      ArrowsMatch()
    }

    /** Re-establishes Valid from the history after a call has been recorded. */
    ghost method ProveValid()
      requires Run(|cars|, 0, calls) == Outcome(currentIndex, events)
      requires forall s :: s in subscriptions ==> s.since <= |events|
      requires ArrowsMatch()
      ensures Valid()
    {
      RunChained(|cars|, 0, calls);
      ChainedIsLinked(0, events, currentIndex);
      RunEventsWellFormed(|cars|, 0, calls);
    }

    constructor (cars: seq<CarDetails>)
      ensures Valid()
      ensures this.cars == cars && currentIndex == 0
      ensures events == [] && subscriptions == [] && calls == []
      ensures leftArrowDisabled && (rightArrowDisabled <==> |cars| == 1)
    {
      this.cars := cars;
      currentIndex := 0;
      events := [];
      subscriptions := [];
      calls := [];
      new;
      CheckButtonsStatusActive();
    }

    /** Registers a handler for the switch events emitted from now on. */
    method OnSelect(handler: nat)
      requires Valid()
      modifies this`subscriptions
      ensures Valid()
      ensures subscriptions == old(subscriptions) + [Subscription(handler, |events|)]
    {
      subscriptions := subscriptions + [Subscription(handler, |events|)];
    }

    /** Jumps to car `index` (a name button). */
    method SelectCarIndex(index: int)
      requires Valid()
      modifies this
      ensures Valid()
      ensures calls == old(calls) + [Select(index)]
      ensures subscriptions == old(subscriptions)
      ensures index < 0 || index >= |cars| || index == old(currentIndex) ==>
                currentIndex == old(currentIndex) && events == old(events) &&
                leftArrowDisabled == old(leftArrowDisabled) &&
                rightArrowDisabled == old(rightArrowDisabled)
      ensures 0 <= index < |cars| && index != old(currentIndex) ==>
                currentIndex == index &&
                events == old(events) + [SwitchIndex(old(currentIndex), index)]
    {
      RunAppend(|cars|, 0, calls, Select(index), currentIndex, events);
      calls := calls + [Select(index)];
      if index < 0 || index >= |cars| || currentIndex == index {
        assert events + Emitted(None) == events;
        ProveValid();
        return;
      }
      ghost var moved := Outcome(index, events + [SwitchIndex(currentIndex, index)]);
      assert Run(|cars|, 0, calls) == moved by {
        assert Emit(|cars|, currentIndex, Select(index)) == Some(SwitchIndex(currentIndex, index));
      }
      events := events + [SwitchIndex(currentIndex, index)];
      currentIndex := index;
      CheckButtonsStatusActive();
      assert Outcome(currentIndex, events) == moved;
      ProveValid();
    }

    /** Moves one car to the left (the left arrow). */
    method PrevCar()
      requires Valid()
      modifies this
      ensures Valid()
      ensures calls == old(calls) + [Prev]
      ensures subscriptions == old(subscriptions)
      ensures old(currentIndex) == 0 ==>
                currentIndex == old(currentIndex) && events == old(events) &&
                leftArrowDisabled == old(leftArrowDisabled) &&
                rightArrowDisabled == old(rightArrowDisabled)
      ensures old(currentIndex) != 0 ==>
                currentIndex == old(currentIndex) - 1 &&
                events == old(events) + [SwitchIndex(old(currentIndex), old(currentIndex) - 1)]
    {
      RunAppend(|cars|, 0, calls, Prev, currentIndex, events);
      calls := calls + [Prev];
      if currentIndex - 1 < 0 {
        assert events + Emitted(None) == events;
        ProveValid();
        return;
      }
      ghost var moved := Outcome(currentIndex - 1, events + [SwitchIndex(currentIndex, currentIndex - 1)]);
      assert Run(|cars|, 0, calls) == moved by {
        assert Emit(|cars|, currentIndex, Prev) == Some(SwitchIndex(currentIndex, currentIndex - 1));
      }
      events := events + [SwitchIndex(currentIndex, currentIndex - 1)];
      currentIndex := currentIndex - 1;
      CheckButtonsStatusActive();
      assert Outcome(currentIndex, events) == moved;
      ProveValid();
    }

    /** Moves one car to the right (the right arrow). */
    method NextCar()
      requires Valid()
      modifies this
      ensures Valid()
      ensures calls == old(calls) + [Next]
      ensures subscriptions == old(subscriptions)
      ensures old(currentIndex) + 1 >= |cars| ==>
                currentIndex == old(currentIndex) && events == old(events) &&
                leftArrowDisabled == old(leftArrowDisabled) &&
                rightArrowDisabled == old(rightArrowDisabled)
      ensures old(currentIndex) + 1 < |cars| ==>
                currentIndex == old(currentIndex) + 1 &&
                events == old(events) + [SwitchIndex(old(currentIndex), old(currentIndex) + 1)]
    {
      RunAppend(|cars|, 0, calls, Next, currentIndex, events);
      calls := calls + [Next];
      if currentIndex + 1 >= |cars| {
        assert events + Emitted(None) == events;
        ProveValid();
        return;
      }
      ghost var moved := Outcome(currentIndex + 1, events + [SwitchIndex(currentIndex, currentIndex + 1)]);
      assert Run(|cars|, 0, calls) == moved by {
        assert Emit(|cars|, currentIndex, Next) == Some(SwitchIndex(currentIndex, currentIndex + 1));
      }
      events := events + [SwitchIndex(currentIndex, currentIndex + 1)];
      currentIndex := currentIndex + 1;
      CheckButtonsStatusActive();
      assert Outcome(currentIndex, events) == moved;
      ProveValid();
    }

    /** Disables the left arrow at the first car and the right arrow at the last. */
    method CheckButtonsStatusActive()
      modifies this`leftArrowDisabled, this`rightArrowDisabled
      ensures ArrowsMatch()
      ensures leftArrowDisabled <==> currentIndex == 0
      ensures rightArrowDisabled <==> currentIndex == |cars| - 1
    {
      if currentIndex == 0 {
        leftArrowDisabled := true;
      } else {
        leftArrowDisabled := false;
      }
      if currentIndex == |cars| - 1 {
        rightArrowDisabled := true;
      } else {
        rightArrowDisabled := false;
      }
    }
  }
}
