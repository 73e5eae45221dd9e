/**
Runs of one subscription: saves by any number of writers, lossy live delivery,
polls and reads, in any interleaving, with a log that is only appended to.
*/
module NotifyRuns {
  import opened Messages
  import opened Decimals
  import opened Notify

  /** An event in the channel, and whether it came there by live delivery. */
  datatype Item = Item(e: Event, live: bool)

  datatype Feed = Feed(
    log: seq<Event>,          // the user's log
    numbers: seq<nat>,        // the numbers its IDs are printed from
    counter: nat,             // the last number given out, to any user
    reserved: set<nat>,       // numbers given to saves of this user that are not in the log yet
    capacity: nat,
    ch: seq<Item>,
    cursor: string,
    batch: seq<Event>,        // what the poll under way has still to enqueue
    received: seq<Item>,
    dropped: nat)

  datatype Step =
    | Reserve(others: nat)                    // a save takes its number, after saves for other users
    | Append(n: nat, payload: string, timestamp: Time)
    | Live(e: Event)
    | BeginPoll
    | PollOne
    | Read

  predicate Enabled(x: Feed, step: Step) {
    match step
    case Append(n, _, _) => n in x.reserved
    case BeginPoll => x.batch == []
    case PollOne => x.batch != []
    case Read => x.ch != []
    case _ => true
  }

  function Do(x: Feed, step: Step): Feed
    requires Enabled(x, step)
  {
    match step
    case Reserve(others) => x.(counter := x.counter + others + 1, reserved := x.reserved + {x.counter + others + 1})
    case Append(n, payload, timestamp) =>
      x.(log := x.log + [Event(Digits(n), payload, timestamp)], numbers := x.numbers + [n], reserved := x.reserved - {n})
    case Live(e) =>
      if |x.ch| < x.capacity then x.(ch := x.ch + [Item(e, true)]) else x.(dropped := x.dropped + 1)
    case BeginPoll => x.(batch := Listed(x.log, x.cursor, POLL_LIMIT))
    case PollOne =>
      if |x.ch| < x.capacity then x.(ch := x.ch + [Item(x.batch[0], false)], cursor := x.batch[0].id, batch := x.batch[1..])
      else x.(batch := [])
    case Read => x.(received := x.received + [x.ch[0]], ch := x.ch[1..])
  }

  ghost predicate Run(x: Feed, steps: seq<Step>, x': Feed)
    decreases |steps|
  {
    if steps == [] then x' == x else Enabled(x, steps[0]) && Run(Do(x, steps[0]), steps[1..], x')
  }

  // ---------------------------------------------------------------------
  // The log
  // ---------------------------------------------------------------------

  /** IDs are printed numbers, each used once, and none of them is still to come. */
  ghost predicate LogOk(log: seq<Event>, numbers: seq<nat>, counter: nat, reserved: set<nat>) {
    && |numbers| == |log|
    && (forall i :: 0 <= i < |log| ==> log[i].id == Digits(numbers[i]))
    && (forall i :: 0 <= i < |log| ==> numbers[i] <= counter && numbers[i] !in reserved)
    && (forall i, j :: 0 <= i < j < |log| ==> numbers[i] != numbers[j])
    && (forall n :: n in reserved ==> n <= counter)
  }

  /** The number may still become the ID of an event in this log. */
  predicate ToCome(counter: nat, reserved: set<nat>, n: nat) {
    n > counter || n in reserved
  }

  lemma DigitsDiffer(n: nat, n': nat)
    requires Digits(n) == Digits(n')
    ensures n == n'
  {
    ValueOfDigits(n);
    ValueOfDigits(n');
  }

  lemma PositionOf(x: Feed, i: nat)
    requires LogOk(x.log, x.numbers, x.counter, x.reserved) && i < |x.log|
    ensures Position(x.log, x.log[i].id) == i + 1
  {
    var p := After(x.log, x.log[i].id, 0);
    assert p > 0;
    if p != i + 1 {
      DigitsDiffer(x.numbers[p - 1], x.numbers[i]);
    }
  }

  /** The cursor keeps its place when the log grows. */
  ghost predicate Settled(log: seq<Event>, counter: nat, reserved: set<nat>, cursor: string) {
    || cursor == ""
    || (exists i :: 0 <= i < |log| && log[i].id == cursor)
    || (forall n: nat :: ToCome(counter, reserved, n) ==> Digits(n) != cursor)
  }

  lemma PositionGrows(log: seq<Event>, e: Event, id: string)
    requires id == "" || (exists i :: 0 <= i < |log| && log[i].id == id) || e.id != id
    ensures Position(log + [e], id) == Position(log, id)
  {
    hide After;
    var log' := log + [e];
    if id != "" {
      var p, p' := After(log, id, 0), After(log', id, 0);
      if p > 0 {
        assert log'[p - 1].id == id;
        assert forall j :: 0 <= j < p - 1 ==> log'[j] == log[j];
      } else {
        assert forall j :: 0 <= j < |log| ==> log'[j] == log[j];
      }
    }
  }

  // ---------------------------------------------------------------------
  // What was polled
  // ---------------------------------------------------------------------

  function Polled(items: seq<Item>): seq<Event> {
    if items == [] then []
    else
      var last := items[|items| - 1];
      Polled(items[..|items| - 1]) + (if last.live then [] else [last.e])
  }

  lemma PolledMore(items: seq<Item>, item: Item)
    ensures Polled(items + [item]) == Polled(items) + (if item.live then [] else [item.e])
  {
    assert (items + [item])[..|items|] == items;
  }

  /** All events that came into the channel by backfill or polling, in order. */
  function AllPolled(x: Feed): seq<Event> {
    Polled(x.received + x.ch)
  }

  ghost predicate Inv(x: Feed, from: nat) {
    && LogOk(x.log, x.numbers, x.counter, x.reserved) && Settled(x.log, x.counter, x.reserved, x.cursor)
    && x.capacity >= 1 && |x.ch| <= x.capacity
    && from <= Position(x.log, x.cursor)
    && AllPolled(x) == x.log[from..Position(x.log, x.cursor)]
    && Position(x.log, x.cursor) + |x.batch| <= |x.log|
    && x.batch == x.log[Position(x.log, x.cursor)..Position(x.log, x.cursor) + |x.batch|]
  }

  lemma ReserveInv(x: Feed, from: nat, others: nat)
    requires Inv(x, from)
    ensures Inv(Do(x, Reserve(others)), from)
  {
    hide Position, Polled, Digits;
  }

  lemma LogOkMore(log: seq<Event>, numbers: seq<nat>, counter: nat, reserved: set<nat>, n: nat, e: Event)
    requires LogOk(log, numbers, counter, reserved) && n in reserved && e.id == Digits(n)
    ensures LogOk(log + [e], numbers + [n], counter, reserved - {n})
  {
    hide Digits;
  }

  lemma SettledMore(log: seq<Event>, counter: nat, reserved: set<nat>, cursor: string, n: nat, e: Event)
    requires Settled(log, counter, reserved, cursor) && n in reserved && e.id == Digits(n)
    ensures Settled(log + [e], counter, reserved - {n}, cursor) && Position(log + [e], cursor) == Position(log, cursor)
  {
    hide Digits, Position;
    assert ToCome(counter, reserved, n);
    PositionGrows(log, e, cursor);
    if exists i :: 0 <= i < |log| && log[i].id == cursor {
      var i :| 0 <= i < |log| && log[i].id == cursor;
      assert (log + [e])[i].id == cursor;
    }
  }

  lemma AppendInv(x: Feed, from: nat, n: nat, payload: string, timestamp: Time)
    requires Inv(x, from) && n in x.reserved
    ensures Inv(Do(x, Append(n, payload, timestamp)), from)
  {
    hide Position, Polled, Digits, LogOk, Settled;
    var e := Event(Digits(n), payload, timestamp);
    LogOkMore(x.log, x.numbers, x.counter, x.reserved, n, e);
    SettledMore(x.log, x.counter, x.reserved, x.cursor, n, e);
    var p := Position(x.log, x.cursor);
    assert (x.log + [e])[from..p] == x.log[from..p];
    assert (x.log + [e])[p..p + |x.batch|] == x.log[p..p + |x.batch|];
  }

  lemma LiveInv(x: Feed, from: nat, e: Event)
    requires Inv(x, from)
    ensures Inv(Do(x, Live(e)), from)
  {
    hide Position, LogOk, Settled;
    PolledMore(x.received + x.ch, Item(e, true));
    assert x.received + (x.ch + [Item(e, true)]) == x.received + x.ch + [Item(e, true)];
  }

  /** The poll under way goes on with the event at the cursor. */
  lemma NextUp(x: Feed, from: nat)
    requires Inv(x, from) && x.batch != []
    ensures var p := Position(x.log, x.cursor);
            p < |x.log| && x.batch[0] == x.log[p] && Position(x.log, x.batch[0].id) == p + 1 && x.capacity >= 1
  {
    hide Position, Polled, LogOk, Settled;
    PositionOf(x, Position(x.log, x.cursor));
  }

  lemma PollOneInv(x: Feed, from: nat)
    requires Inv(x, from) && x.batch != []
    ensures Inv(Do(x, PollOne), from)
  {
    hide Position, Polled, LogOk;
    var x' := Do(x, PollOne);
    var p := Position(x.log, x.cursor);
    if |x.ch| < x.capacity {
      NextUp(x, from);
      var item := Item(x.batch[0], false);
      PolledMore(x.received + x.ch, item);
      assert x'.received + x'.ch == x.received + x.ch + [item];
      assert x.log[from..p + 1] == x.log[from..p] + [x.log[p]];
      assert x'.batch == x.log[p + 1..p + 1 + |x'.batch|];
      assert x'.log[p].id == x'.cursor;
    }
  }

  lemma ReadInv(x: Feed, from: nat)
    requires Inv(x, from) && x.ch != []
    ensures Inv(Do(x, Read), from)
  {
    hide Position, Polled;
    var x' := Do(x, Read);
    assert x'.received + x'.ch == x.received + x.ch;
  }

  lemma StepInv(x: Feed, from: nat, step: Step)
    requires Inv(x, from) && Enabled(x, step)
    ensures Inv(Do(x, step), from)
  {
    hide Polled, LogOk, Settled, Position;
    match step
    case Reserve(others) => ReserveInv(x, from, others);
    case Append(n, payload, timestamp) => AppendInv(x, from, n, payload, timestamp);
    case Live(e) => LiveInv(x, from, e);
    case BeginPoll =>
    case PollOne => PollOneInv(x, from);
    case Read => ReadInv(x, from);
  }

  lemma {:induction false} RunInv(x: Feed, from: nat, steps: seq<Step>, x': Feed)
    requires Inv(x, from) && Run(x, steps, x')
    ensures Inv(x', from)
    decreases |steps|
  {
    if steps != [] {
      StepInv(x, from, steps[0]);
      RunInv(Do(x, steps[0]), from, steps[1..], x');
    }
  }

  // ---------------------------------------------------------------------
  // Subscribing
  // ---------------------------------------------------------------------

  function Items(events: seq<Event>): (items: seq<Item>)
    ensures |items| == |events|
  {
    if events == [] then [] else Items(events[..|events| - 1]) + [Item(events[|events| - 1], false)]
  }

  lemma {:induction false} PolledItems(events: seq<Event>)
    ensures Polled(Items(events)) == events
  {
    if events != [] {
      var n := |events| - 1;
      PolledItems(events[..n]);
      PolledMore(Items(events[..n]), Item(events[n], false));
    }
  }

  function Subscribed(log: seq<Event>, numbers: seq<nat>, counter: nat, reserved: set<nat>, capacity: nat, lastEventId: string): Feed {
    var listed := if lastEventId == "" then [] else Listed(log, lastEventId, 0);
    var n := Fit(|listed|, 0, capacity);
    Feed(log, numbers, counter, reserved, capacity, Items(listed[..n]), if n == 0 then lastEventId else listed[n - 1].id, [], [], 0)
  }

  /** An ID that is empty, or given while the log has events, or that no later event will get. */
  ghost predicate Stable(log: seq<Event>, counter: nat, reserved: set<nat>, lastEventId: string) {
    lastEventId == "" || log != [] || forall n: nat :: ToCome(counter, reserved, n) ==> Digits(n) != lastEventId
  }

  lemma ListedIs(log: seq<Event>, id: string, limit: int)
    ensures var p, listed := Position(log, id), Listed(log, id, limit);
            p + |listed| <= |log| && listed == log[p..p + |listed|] && (listed == [] <==> p == |log|)
  {
  }

  lemma PositionKnown(log: seq<Event>, id: string)
    requires Position(log, id) > 0
    ensures log[Position(log, id) - 1].id == id
  {
  }

  lemma BackfilledInv(x: Feed, from: nat, n: nat)
    requires LogOk(x.log, x.numbers, x.counter, x.reserved) && x.capacity >= n >= 1 && from + n <= |x.log|
    requires x.received == [] && x.batch == [] && x.ch == Items(x.log[from..from + n]) && x.cursor == x.log[from + n - 1].id
    ensures Inv(x, from)
  {
    hide Polled, LogOk, Items, Position;
    PolledItems(x.log[from..from + n]);
    assert x.received + x.ch == x.ch;
    PositionOf(x, from + n - 1);
  }

  lemma UnfilledInv(x: Feed, from: nat)
    requires LogOk(x.log, x.numbers, x.counter, x.reserved) && Settled(x.log, x.counter, x.reserved, x.cursor) && x.capacity >= 1
    requires x.received == [] && x.batch == [] && x.ch == Items([]) && Position(x.log, x.cursor) == from
    ensures Inv(x, from)
  {
    hide LogOk, Settled, Position;
    assert x.received + x.ch == [];
  }

  /** An ID behind which nothing is listed is settled. */
  lemma StartSettled(log: seq<Event>, counter: nat, reserved: set<nat>, lastEventId: string, listed: seq<Event>)
    requires Stable(log, counter, reserved, lastEventId)
    requires listed == (if lastEventId == "" then [] else Listed(log, lastEventId, 0)) && listed == []
    ensures Settled(log, counter, reserved, lastEventId)
  {
    hide Position, Listed;
    ListedIs(log, lastEventId, 0);
    if Position(log, lastEventId) > 0 {
      PositionKnown(log, lastEventId);
    }
  }

  lemma SubscribedInv(log: seq<Event>, numbers: seq<nat>, counter: nat, reserved: set<nat>, capacity: nat, lastEventId: string)
    requires LogOk(log, numbers, counter, reserved) && capacity >= 1 && Stable(log, counter, reserved, lastEventId)
    ensures Inv(Subscribed(log, numbers, counter, reserved, capacity, lastEventId), Position(log, lastEventId))
  {
    hide LogOk, Items, Position, Listed, Inv, Stable, Settled;
    var x := Subscribed(log, numbers, counter, reserved, capacity, lastEventId);
    var p := Position(log, lastEventId);
    var listed := if lastEventId == "" then [] else Listed(log, lastEventId, 0);
    var n := Fit(|listed|, 0, capacity);
    ListedIs(log, lastEventId, 0);
    if n > 0 {
      assert listed[..n] == log[p..p + n];
      BackfilledInv(x, p, n);
    } else {
      assert listed[..0] == [];
      assert Settled(log, counter, reserved, lastEventId) by {
        StartSettled(log, counter, reserved, lastEventId, listed);
      }
      UnfilledInv(x, p);
    }
  }

  /** What was polled is the stretch of the log from the start position to the cursor. */
  ghost predicate Contiguous(x: Feed, from: nat) {
    from <= Position(x.log, x.cursor) && AllPolled(x) == x.log[from..Position(x.log, x.cursor)]
  }

  /** In every run, exactly when the subscription's last event ID is stable: the backfilled and polled
      events are, in order and without gaps, the log from the start position to the poll cursor. */
  lemma ContiguousIff(log: seq<Event>, numbers: seq<nat>, counter: nat, reserved: set<nat>, capacity: nat, lastEventId: string)
    requires LogOk(log, numbers, counter, reserved) && capacity >= 1
    ensures (forall steps, x :: Run(Subscribed(log, numbers, counter, reserved, capacity, lastEventId), steps, x) ==>
               Contiguous(x, Position(log, lastEventId)))
            <==> Stable(log, counter, reserved, lastEventId)
  {
    var x0, from := Subscribed(log, numbers, counter, reserved, capacity, lastEventId), Position(log, lastEventId);
    if Stable(log, counter, reserved, lastEventId) {
      SubscribedInv(log, numbers, counter, reserved, capacity, lastEventId);
      forall steps, x | Run(x0, steps, x) ensures Contiguous(x, from) {
        RunInv(x0, from, steps, x);
      }
    } else {
      var steps, x := UnstableSkips(log, numbers, counter, reserved, capacity, lastEventId);
      assert Run(x0, steps, x) && !Contiguous(x, from);
    }
  }

  /** Otherwise an event may take the ID of the cursor, and it and all before it are never polled. */
  lemma UnstableSkips(log: seq<Event>, numbers: seq<nat>, counter: nat, reserved: set<nat>, capacity: nat, lastEventId: string)
    returns (steps: seq<Step>, x: Feed)
    requires LogOk(log, numbers, counter, reserved) && capacity >= 1 && !Stable(log, counter, reserved, lastEventId)
    ensures Run(Subscribed(log, numbers, counter, reserved, capacity, lastEventId), steps, x)
    ensures Position(log, lastEventId) == 0 && AllPolled(x) == [] && |x.log| == 1 && Position(x.log, x.cursor) == 1
  {
    hide Digits;
    var n: nat :| ToCome(counter, reserved, n) && Digits(n) == lastEventId;
    var x0 := Subscribed(log, numbers, counter, reserved, capacity, lastEventId);
    var x1 := x0;
    steps := [Append(n, "", 0)];
    if n !in reserved {
      x1 := Do(x0, Reserve(n - counter - 1));
      steps := [Reserve(n - counter - 1)] + steps;
      assert steps[1..] == [Append(n, "", 0)];
    }
    x := Do(x1, Append(n, "", 0));
    assert [Append(n, "", 0)][1..] == [];
    assert Run(x, [], x);
    assert Run(x1, [Append(n, "", 0)], x);
    assert x.log == [Event(lastEventId, "", 0)];
    assert x.log[0].id == x.cursor;
  }

  // ---------------------------------------------------------------------
  // Draining
  // ---------------------------------------------------------------------

  /** The rest of the poll under way. */
  function Finish(x: Feed): (y: Feed)
    ensures y.batch == []
    decreases |x.batch|
  {
    if x.batch == [] then x else Finish(Do(x, PollOne))
  }

  /** A whole poll, then one read. */
  function Round(x: Feed): (y: Feed)
    requires x.batch == []
    ensures y.batch == []
  {
    var y := Finish(Do(x, BeginPoll));
    if y.ch == [] then y else Do(y, Read)
  }

  function Rounds(x: Feed, n: nat): Feed
    requires x.batch == []
    decreases n
  {
    if n == 0 then x else Rounds(Round(x), n - 1)
  }

  function Events(items: seq<Item>): (events: seq<Event>)
    ensures |events| == |items| && forall i :: 0 <= i < |items| ==> events[i] == items[i].e
  {
    seq(|items|, i requires 0 <= i < |items| => items[i].e)
  }

  /** Everything the consumer has or will still get: received, in the channel, and after the cursor. */
  function Whole(x: Feed): seq<Event> {
    Events(x.received + x.ch) + x.log[Position(x.log, x.cursor)..]
  }

  lemma EnqueuedWhole(x: Feed, x': Feed, p: nat)
    requires x'.log == x.log && p < |x.log| && Position(x.log, x.cursor) == p && Position(x.log, x'.cursor) == p + 1
    requires x'.received == x.received && x'.ch == x.ch + [Item(x.log[p], false)]
    ensures Whole(x') == Whole(x)
  {
    hide Position;
    assert x'.received + x'.ch == x.received + x.ch + [Item(x.log[p], false)];
    assert Events(x'.received + x'.ch) == Events(x.received + x.ch) + [x.log[p]];
    assert x.log[p..] == [x.log[p]] + x.log[p + 1..];
  }

  lemma PollOneKeeps(x: Feed, from: nat)
    requires Inv(x, from) && x.batch != []
    ensures Inv(Do(x, PollOne), from) && Whole(Do(x, PollOne)) == Whole(x) && Do(x, PollOne).ch != []
  {
    hide Inv, Whole, Position;
    PollOneInv(x, from);
    NextUp(x, from);
    if |x.ch| < x.capacity {
      EnqueuedWhole(x, Do(x, PollOne), Position(x.log, x.cursor));
    } else {
      SameWhole(x);
    }
  }

  lemma SameWhole(x: Feed)
    ensures Whole(x.(batch := [])) == Whole(x)
  {
  }

  lemma {:induction false} FinishKeeps(x: Feed, from: nat)
    requires Inv(x, from)
    ensures Inv(Finish(x), from) && Whole(Finish(x)) == Whole(x) && Finish(x).received == x.received && Finish(x).log == x.log
    ensures x.batch != [] || x.ch != [] ==> Finish(x).ch != []
    decreases |x.batch|
  {
    hide Inv, Whole;
    if x.batch != [] {
      PollOneKeeps(x, from);
      FinishKeeps(Do(x, PollOne), from);
    }
  }

  lemma ReadKeeps(y: Feed, from: nat)
    requires Inv(y, from) && y.ch != []
    ensures Inv(Do(y, Read), from) && Whole(Do(y, Read)) == Whole(y) && |Do(y, Read).received| == |y.received| + 1
  {
    hide Inv, Position;
    ReadInv(y, from);
    assert Do(y, Read).received + Do(y, Read).ch == y.received + y.ch;
  }

  lemma BeginPollKeeps(x: Feed, from: nat)
    requires Inv(x, from) && x.batch == [] && |x.received| < |Whole(x)|
    ensures var x1 := Do(x, BeginPoll);
            Inv(x1, from) && Whole(x1) == Whole(x) && x1.received == x.received && (x1.ch != [] || x1.batch != [])
  {
    hide Polled, LogOk, Settled, Position, Listed;
    ListedIs(x.log, x.cursor, POLL_LIMIT);
  }

  /** A round reads one event as long as anything is outstanding. */
  lemma RoundReads(x: Feed, from: nat)
    requires Inv(x, from) && x.batch == [] && |x.received| < |Whole(x)|
    ensures Inv(Round(x), from) && Whole(Round(x)) == Whole(x) && |Round(x).received| == |x.received| + 1 && Round(x).log == x.log
  {
    hide Inv, Whole, Finish;
    BeginPollKeeps(x, from);
    FinishKeeps(Do(x, BeginPoll), from);
    ReadKeeps(Finish(Do(x, BeginPoll)), from);
  }

  lemma {:induction false} RoundsRead(x: Feed, from: nat, n: nat)
    requires Inv(x, from) && x.batch == [] && |x.received| + n <= |Whole(x)|
    ensures Whole(Rounds(x, n)) == Whole(x) && |Rounds(x, n).received| == |x.received| + n
    ensures Inv(Rounds(x, n), from) && Rounds(x, n).log == x.log
    decreases n
  {
    hide Inv, Whole, Round;
    if n > 0 {
      RoundReads(x, from);
      RoundsRead(Round(x), from, n - 1);
    }
  }

  /** When saves pause, as many rounds as there are outstanding events hand out every one of them, in log
      order behind what was in the channel, whatever the buffer size. */
  lemma DrainsTheLog(x: Feed, from: nat)
    requires Inv(x, from) && x.batch == []
    ensures var p := Position(x.log, x.cursor);
            var y := Rounds(x, |x.ch| + |x.log| - p);
            Events(y.received) == Events(x.received) + Events(x.ch) + x.log[p..] && Polled(y.received) == x.log[from..]
  {
    hide Polled, LogOk, Settled, Position;
    var p := Position(x.log, x.cursor);
    var n := |x.ch| + |x.log| - p;
    RoundsRead(x, from, n);
    var y := Rounds(x, n);
    assert Events(x.received + x.ch) == Events(x.received) + Events(x.ch);
    assert |Whole(y)| == |y.received|;
    assert y.received + y.ch == y.received;
    assert y.log[from..|y.log|] == y.log[from..];
  }

  /** After any run of a subscription with a stable last event ID, finishing the poll under way and then as many
      rounds of poll and read as events are outstanding hand out every event, and what came from the log is
      all of the log from the start position on, in order. */
  lemma SubscriptionDrains(log: seq<Event>, numbers: seq<nat>, counter: nat, reserved: set<nat>, capacity: nat, lastEventId: string,
                           steps: seq<Step>, x: Feed)
    requires LogOk(log, numbers, counter, reserved) && capacity >= 1 && Stable(log, counter, reserved, lastEventId)
    requires Run(Subscribed(log, numbers, counter, reserved, capacity, lastEventId), steps, x)
    ensures var p := Position(x.log, x.cursor);
            var y := Rounds(Finish(x), |x.ch| + |x.log| - p);
            && Events(y.received) == Events(x.received) + Events(x.ch) + x.log[p..]
            && Position(log, lastEventId) <= |x.log| && Polled(y.received) == x.log[Position(log, lastEventId)..]
  {
    hide Inv, Polled, LogOk, Position, Stable, Subscribed, Run, Finish, Rounds, Whole;
    var from := Position(log, lastEventId);
    SubscribedInv(log, numbers, counter, reserved, capacity, lastEventId);
    RunInv(Subscribed(log, numbers, counter, reserved, capacity, lastEventId), from, steps, x);
    FinishKeeps(x, from);
    DrainsTheLog(Finish(x), from);
    WholeParts(x);
    WholeParts(Finish(x));
  }

  lemma WholeParts(x: Feed)
    ensures Whole(x) == Events(x.received) + Events(x.ch) + x.log[Position(x.log, x.cursor)..]
    ensures |Whole(x)| == |x.received| + |x.ch| + |x.log| - Position(x.log, x.cursor)
  {
    hide Position;
    assert Events(x.received + x.ch) == Events(x.received) + Events(x.ch);
  }

  /** A round is a run of few steps. */
  lemma RoundIsRun(x: Feed) returns (steps: seq<Step>)
    requires x.batch == []
    ensures Run(x, steps, Round(x)) && |steps| <= POLL_LIMIT + 2
  {
    var x1 := Do(x, BeginPoll);
    var polls := FinishIsRun(x1);
    var y := Finish(x1);
    steps := [BeginPoll] + polls;
    assert steps[1..] == polls;
    if y.ch != [] {
      RunMore(x, steps, y, Read);
      steps := steps + [Read];
    }
  }

  lemma {:induction false} FinishIsRun(x: Feed) returns (steps: seq<Step>)
    ensures Run(x, steps, Finish(x)) && |steps| <= |x.batch|
    decreases |x.batch|
  {
    if x.batch == [] {
      steps := [];
    } else {
      var rest := FinishIsRun(Do(x, PollOne));
      steps := [PollOne] + rest;
      assert steps[1..] == rest;
    }
  }

  lemma {:induction false} RunMore(x: Feed, steps: seq<Step>, y: Feed, step: Step)
    requires Run(x, steps, y) && Enabled(y, step)
    ensures Run(x, steps + [step], Do(y, step))
    decreases |steps|
  {
    if steps == [] {
      assert [step][1..] == [];
      assert Run(Do(y, step), [], Do(y, step));
    } else {
      RunMore(Do(x, steps[0]), steps[1..], y, step);
      assert (steps + [step])[1..] == steps[1..] + [step];
    }
  }
}
