/**
Notification streams: the event log of a user (notify/memory/store.go), and a
subscription that is filled by backfill, polling and lossy live delivery
(notify/notifier.go, notify/stream.go).
*/
module Notify {
  import opened Messages
  import opened Decimals

  datatype Event = Event(id: string, payload: string, timestamp: Time)

  const POLL_LIMIT := 100

  // ---------------------------------------------------------------------
  // The log
  // ---------------------------------------------------------------------

  /** The position after the first event with this ID from i on, zero when there is none. */
  function After(log: seq<Event>, id: string, i: nat): (p: nat)
    requires i <= |log|
    ensures p <= |log|
    ensures p == 0 <==> forall j :: i <= j < |log| ==> log[j].id != id
    ensures p > 0 ==> i < p && log[p - 1].id == id && forall j :: i <= j < p - 1 ==> log[j].id != id
    decreases |log| - i
  {
    if i == |log| then 0 else if log[i].id == id then i + 1 else After(log, id, i + 1)
  }

  /** Where listing starts: at the front for the empty or an unknown ID. */
  function Position(log: seq<Event>, id: string): (p: nat)
    ensures p <= |log|
  {
    if id == "" then 0 else After(log, id, 0)
  }

  function Limit(limit: int): nat {
    if limit <= 0 then POLL_LIMIT else limit
  }

  function Slice(log: seq<Event>, from: nat, n: nat): seq<Event>
    requires from <= |log|
  {
    if from + n <= |log| then log[from..from + n] else log[from..]
  }

  function Listed(log: seq<Event>, id: string, limit: int): seq<Event> {
    Slice(log, Position(log, id), Limit(limit))
  }

  /** The listing starts at p: behind the first event with the ID, and at the front if there is none. */
  predicate StartsAt(log: seq<Event>, id: string, p: nat) {
    if id == "" || (forall j :: 0 <= j < |log| ==> log[j].id != id) then p == 0
    else 0 < p <= |log| && log[p - 1].id == id && forall j :: 0 <= j < p - 1 ==> log[j].id != id
  }

  function Kept(log: seq<Event>, olderThan: Time): seq<Event> {
    if log == [] then []
    else Kept(log[..|log| - 1], olderThan) + (if log[|log| - 1].timestamp >= olderThan then [log[|log| - 1]] else [])
  }

  /** The kept events are those of the log at the given places: in order, and exactly those not older. */
  ghost predicate PlacedAt(kept: seq<Event>, log: seq<Event>, at: seq<nat>, olderThan: Time) {
    && |at| == |kept|
    && (forall i :: 0 <= i < |at| ==> at[i] < |log| && kept[i] == log[at[i]])
    && (forall i, j :: 0 <= i < j < |at| ==> at[i] < at[j])
    && (forall k: nat :: k < |log| ==> (k in at <==> log[k].timestamp >= olderThan))
  }

  ghost predicate IsTrimmed(kept: seq<Event>, log: seq<Event>, olderThan: Time) {
    exists at: seq<nat> :: PlacedAt(kept, log, at, olderThan)
  }

  lemma PlacedMore(kept: seq<Event>, log: seq<Event>, at: seq<nat>, e: Event, olderThan: Time)
    requires PlacedAt(kept, log, at, olderThan)
    ensures if e.timestamp >= olderThan then PlacedAt(kept + [e], log + [e], at + [|log|], olderThan)
            else PlacedAt(kept, log + [e], at, olderThan)
  {
    forall k: nat | k < |log + [e]|
      ensures k in at + [|log|] <==> k in at || k == |log|
      ensures k < |log| ==> (log + [e])[k] == log[k]
      ensures |log| !in at
    {
    }
  }

  lemma KeptAfter(log: seq<Event>, e: Event, olderThan: Time)
    requires IsTrimmed(Kept(log, olderThan), log, olderThan)
    ensures IsTrimmed(Kept(log + [e], olderThan), log + [e], olderThan)
  {
    hide PlacedAt, Kept;
    var kept := Kept(log, olderThan);
    var at: seq<nat> :| PlacedAt(kept, log, at, olderThan);
    PlacedMore(kept, log, at, e, olderThan);
    var more := log + [e];
    KeptMore(more, |more|, olderThan);
    assert more[..|log|] == log && more[..|more|] == more;
    var at' := if e.timestamp >= olderThan then at + [|log|] else at;
    assert Kept(more, olderThan) == if e.timestamp >= olderThan then kept + [e] else kept;
    assert PlacedAt(Kept(more, olderThan), more, at', olderThan);
  }

  lemma {:induction false} KeptIs(log: seq<Event>, olderThan: Time)
    ensures IsTrimmed(Kept(log, olderThan), log, olderThan)
  {
    if log == [] {
      assert PlacedAt(Kept(log, olderThan), log, [], olderThan);
    } else {
      var n := |log| - 1;
      KeptIs(log[..n], olderThan);
      KeptAfter(log[..n], log[n], olderThan);
      assert log == log[..n] + [log[n]];
    }
  }

  lemma KeptMore(log: seq<Event>, i: nat, olderThan: Time)
    requires i <= |log|
    ensures Kept(log[..i], olderThan) ==
            if i == 0 then [] else Kept(log[..i - 1], olderThan) + (if log[i - 1].timestamp >= olderThan then [log[i - 1]] else [])
  {
    if i > 0 {
      assert log[..i][..i - 1] == log[..i - 1];
    }
  }

  class EventStore {
    var events: map<string, seq<Event>>
    var counter: nat

    function Log(userId: string): seq<Event>
      reads this
    {
      if userId in events then events[userId] else []
    }

    constructor ()
      ensures events == map[] && counter == 0
    {
      events, counter := map[], 0;
    }

    /** The event gets the next number as its ID. */
    method Save(userId: string, evt: Event) returns (saved: Event)
      modifies this
      ensures counter == old(counter) + 1 && saved == evt.(id := Digits(counter))
      ensures Log(userId) == old(Log(userId)) + [saved]
      ensures forall u :: u != userId ==> Log(u) == old(Log(u))
    {
      counter := counter + 1;
      saved := evt.(id := Digits(counter));
      events := events[userId := Log(userId) + [saved]];
    }

    method List(userId: string, afterId: string, limit: int) returns (result: seq<Event>)
      ensures result == Listed(Log(userId), afterId, limit)
      ensures var log, n := Log(userId), if limit <= 0 then 100 else limit;
              exists p :: 0 <= p <= |log| && StartsAt(log, afterId, p) && result == log[p..if p + n <= |log| then p + n else |log|]
    {
      assert StartsAt(Log(userId), afterId, Position(Log(userId), afterId));
      var n := if limit <= 0 then POLL_LIMIT else limit;
      var log := Log(userId);
      if |log| == 0 {
        return [];
      }
      var start := 0;
      if afterId != "" {
        var i := 0;
        while i < |log|
          invariant i <= |log| && start == 0
          invariant After(log, afterId, 0) == After(log, afterId, i)
        {
          if log[i].id == afterId {
            start := i + 1;
            break;
          }
          i := i + 1;
        }
      }
      if start >= |log| {
        return [];
      }
      var end := start + n;
      if end > |log| {
        end := |log|;
      }
      return log[start..end];
    }

    method Cleanup(olderThan: Time)
      modifies this`events
      ensures forall u :: Log(u) == Kept(old(Log(u)), olderThan)
      ensures forall u :: IsTrimmed(Log(u), old(Log(u)), olderThan)
    {
      hide Kept, IsTrimmed;
      var todo := events.Keys;
      ghost var before := events;
      KeptMore([], 0, olderThan);
      while todo != {}
        invariant todo <= before.Keys && events.Keys <= before.Keys
        invariant forall u :: u in todo ==> u in events && events[u] == before[u]
        invariant forall u :: u in before && u !in todo ==> Log(u) == Kept(before[u], olderThan)
      {
        var userId :| userId in todo;
        var log, kept := events[userId], [];
        ghost var listed := events;
        KeptMore(log, 0, olderThan);
        for i := 0 to |log|
          invariant kept == Kept(log[..i], olderThan) && events == listed
        {
          KeptMore(log, i + 1, olderThan);
          if log[i].timestamp >= olderThan {
            kept := kept + [log[i]];
          }
        }
        assert log[..|log|] == log;
        if kept == [] {
          events := events - {userId};
        } else {
          events := events[userId := kept];
        }
        todo := todo - {userId};
      }
      forall u ensures IsTrimmed(Log(u), old(Log(u)), olderThan) {
        KeptIs(old(Log(u)), olderThan);
      }
    }
  }

  // ---------------------------------------------------------------------
  // A stream
  // ---------------------------------------------------------------------

  /** How many of n events fit into the channel. */
  function Fit(n: nat, used: nat, capacity: nat): nat {
    if used >= capacity then 0 else if n <= capacity - used then n else capacity - used
  }

  class Stream {
    const capacity: nat
    var ch: seq<Event>
    var lastId: string
    var pollCursor: string
    var dropped: nat

    ghost predicate Valid()
      reads this
    {
      capacity >= 1 && |ch| <= capacity
    }

    /** Subscribing: events after the given ID are backfilled as long as the channel has room. */
    constructor (bufferSize: nat, store: EventStore, userId: string, lastEventId: string)
      requires bufferSize >= 1
      ensures Valid() && capacity == bufferSize && dropped == 0
      ensures ch == if lastEventId == "" then [] else
                      var listed := Listed(store.Log(userId), lastEventId, 0);
                      listed[..Fit(|listed|, 0, bufferSize)]
      ensures |ch| <= bufferSize && (lastEventId != "" ==> |ch| == bufferSize || |ch| == |Listed(store.Log(userId), lastEventId, 0)|)
      ensures pollCursor == if ch == [] then lastEventId else ch[|ch| - 1].id
    {
      hide Listed;
      capacity := bufferSize;
      ch, lastId, pollCursor, dropped := [], lastEventId, lastEventId, 0;
      new;
      if lastEventId != "" {
        var listed := store.List(userId, lastEventId, 0);
        for i := 0 to |listed|
          invariant |ch| == Fit(i, 0, capacity) <= i && ch == listed[..|ch|]
          invariant pollCursor == if ch == [] then lastEventId else ch[|ch| - 1].id
          invariant store.Log(userId) == old(store.Log(userId)) && dropped == 0
        {
          if |ch| < capacity {
            ch := ch + [listed[i]];
            lastId := listed[i].id;
            pollCursor := listed[i].id;
          }
        }
      }
    }

    /** Reads the oldest event in the channel, if there is one. */
    method Next() returns (r: Option<Event>)
      requires Valid()
      modifies this`ch, this`lastId
      ensures Valid()
      ensures old(ch) == [] ==> r.None? && ch == [] && lastId == old(lastId)
      ensures old(ch) != [] ==> r == Some(old(ch)[0]) && ch == old(ch)[1..] && lastId == r.value.id
    {
      if ch == [] {
        return None;
      }
      r := Some(ch[0]);
      ch := ch[1..];
      lastId := r.value.id;
    }

    /** Live delivery never waits and never moves the poll cursor. */
    method DeliverLocal(evt: Event) returns (delivered: bool)
      requires Valid()
      modifies this`ch, this`dropped
      ensures Valid() && delivered == (|old(ch)| < capacity)
      ensures ch == if delivered then old(ch) + [evt] else old(ch)
      ensures dropped == if delivered then old(dropped) else old(dropped) + 1
    {
      if |ch| < capacity {
        ch := ch + [evt];
        return true;
      }
      dropped := dropped + 1;
      return false;
    }

    /** Events after the poll cursor go into the channel in order until it is full. */
    method PollStore(store: EventStore, userId: string)
      requires Valid()
      modifies this`ch, this`lastId, this`pollCursor
      ensures Valid()
      ensures var listed := Listed(store.Log(userId), old(pollCursor), POLL_LIMIT);
              var n := Fit(|listed|, |old(ch)|, capacity);
              && ch == old(ch) + listed[..n] && (n == |listed| || |ch| == capacity)
              && pollCursor == (if n == 0 then old(pollCursor) else listed[n - 1].id)
              && lastId == (if n == 0 then old(lastId) else listed[n - 1].id)
    {
      hide Listed;
      var listed := store.List(userId, pollCursor, POLL_LIMIT);
      var i := 0;
      while i < |listed|
        invariant i <= Fit(|listed|, |old(ch)|, capacity)
        invariant ch == old(ch) + listed[..i] && |ch| <= capacity
        invariant pollCursor == (if i == 0 then old(pollCursor) else listed[i - 1].id)
        invariant lastId == (if i == 0 then old(lastId) else listed[i - 1].id)
      {
        if |ch| >= capacity {
          return;
        }
        ch := ch + [listed[i]];
        pollCursor := listed[i].id;
        lastId := listed[i].id;
        i := i + 1;
      }
    }
  }
}
