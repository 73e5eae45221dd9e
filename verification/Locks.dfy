/**
Mutations of messages under per-message locks (store/memory/write.go): lock,
load, copy and store, unlock, as separate steps of any number of callers.
*/
module Locks {
  import opened Messages

  // ---------------------------------------------------------------------
  // The mutations
  // ---------------------------------------------------------------------

  datatype Op =
    | MarkRead(read: bool, now: Time)
    | MoveToFolder(folderId: string, from: string, now: Time)   // from: the folder claimed, or ""
    | AddTag(tagId: string, now: Time)
    | RemoveTag(tagId: string, now: Time)
    | Delete(now: Time)
    | HardDelete
    | Restore(now: Time)
    | Bulk(ownerId: string, selects: Message -> bool, change: Message -> Message, now: Time)   // one message of a bulk update

  datatype Result = Done | NotFound | FolderMismatch | InvalidFolder | Skipped

  type Cell = Option<Message>

  datatype Outcome = Outcome(cell: Cell, result: Result)

  /** What a mutation makes of a message. */
  function Apply(op: Op, c: Cell): Outcome {
    if op.MoveToFolder? && op.from != "" && !IsValidFolderId(op.from) then Outcome(c, InvalidFolder)
    else if c.None? || c.value.isDraft then Outcome(c, NotFound)
    else
      var m := c.value;
      match op
      case MarkRead(read, now) => Outcome(Some(m.(isRead := read, readAt := if read then Some(now) else None, updatedAt := now)), Done)
      case MoveToFolder(folderId, from, now) =>
        if from != "" && m.folderId != from then Outcome(c, FolderMismatch)
        else Outcome(Some(m.(folderId := folderId, updatedAt := now)), Done)
      case AddTag(tagId, now) =>
        if tagId in m.tags then Outcome(c, Done) else Outcome(Some(m.(tags := m.tags + [tagId], updatedAt := now)), Done)
      case RemoveTag(tagId, now) =>
        if tagId !in m.tags then Outcome(c, Done) else Outcome(Some(m.(tags := WithoutFirst(m.tags, tagId), updatedAt := now)), Done)
      case Delete(now) => Outcome(Some(m.(folderId := FOLDER_TRASH, updatedAt := now)), Done)
      case HardDelete => Outcome(None, Done)
      case Restore(now) =>
        if m.folderId != FOLDER_TRASH then Outcome(c, NotFound)
        else Outcome(Some(m.(folderId := DefaultFolder(m), updatedAt := now)), Done)
      case Bulk(ownerId, selects, change, now) =>
        if m.ownerId != ownerId || !selects(m) then Outcome(c, Skipped)
        else Outcome(Some(change(m).(updatedAt := now)), Done)
  }

  /** The step of MarkAllRead on one message. */
  function MarkOneOfAll(ownerId: string, folderId: string, now: Time): Op {
    Bulk(ownerId, (m: Message) => m.folderId == folderId && !m.isRead, (m: Message) => m.(isRead := true, readAt := Some(now)), now)
  }

  /** Adding a new tag and removing it again gives back the tags. */
  lemma TagRoundTrip(c: Cell, tagId: string, now: Time, later: Time)
    requires c.Some? && !c.value.isDraft && tagId !in c.value.tags
    ensures var added := Apply(AddTag(tagId, now), c);
            && added.result.Done? && tagId in added.cell.value.tags
            && Apply(RemoveTag(tagId, later), added.cell) == Outcome(Some(c.value.(updatedAt := later)), Done)
  {
    var tags := c.value.tags + [tagId];
    assert tags[..|c.value.tags|] == c.value.tags;
    WithoutFirstIs(tags, tagId, |c.value.tags|);
    assert WithoutFirst(tags, tagId) == c.value.tags;
  }

  function CellOf(ms: map<Id, Message>, id: Id): Cell {
    if id in ms then Some(ms[id]) else None
  }

  function Put(ms: map<Id, Message>, id: Id, c: Cell): map<Id, Message> {
    if c.Some? then ms[id := c.value] else ms - {id}
  }

  function ApplyTo(ms: map<Id, Message>, id: Id, op: Op): map<Id, Message> {
    Put(ms, id, Apply(op, CellOf(ms, id)).cell)
  }

  /** The methods of the store, each run while its lock is held. */
  class MemoryStore {
    var messages: map<Id, Message>

    constructor (ms: map<Id, Message>)
      ensures messages == ms
    {
      messages := ms;
    }

    /** The effect and the result of a mutation. */
    ghost predicate Did(ms: map<Id, Message>, id: Id, op: Op, result: Result)
      reads this
    {
      messages == ApplyTo(ms, id, op) && result == Apply(op, CellOf(ms, id)).result
    }

    method MarkMessage(id: Id, read: bool, now: Time) returns (result: Result)
      modifies this
      ensures Did(old(messages), id, MarkRead(read, now), result)
      ensures if id !in old(messages) || old(messages)[id].isDraft then result == NotFound && messages == old(messages)
              else
                var m := old(messages)[id];
                result == Done && messages == old(messages)[id := m.(isRead := read, readAt := if read then Some(now) else None, updatedAt := now)]
    {
      if id !in messages || messages[id].isDraft {
        return NotFound;
      }
      var m := messages[id].(isRead := read, updatedAt := now);
      if read {
        m := m.(readAt := Some(now));
      } else {
        m := m.(readAt := None);
      }
      messages := messages[id := m];
      return Done;
    }

    method Move(id: Id, folderId: string, from: string, now: Time) returns (result: Result)
      modifies this
      ensures Did(old(messages), id, MoveToFolder(folderId, from, now), result)
      ensures if from != "" && !IsValidFolderId(from) then result == InvalidFolder && messages == old(messages)
              else if id !in old(messages) || old(messages)[id].isDraft then result == NotFound && messages == old(messages)
              else
                var m := old(messages)[id];
                if from != "" && m.folderId != from then result == FolderMismatch && messages == old(messages)
                else result == Done && messages == old(messages)[id := m.(folderId := folderId, updatedAt := now)]
    {
      if from != "" && !IsValidFolderId(from) {
        return InvalidFolder;
      }
      if id !in messages || messages[id].isDraft {
        return NotFound;
      }
      if from != "" && messages[id].folderId != from {
        return FolderMismatch;
      }
      messages := messages[id := messages[id].(folderId := folderId, updatedAt := now)];
      return Done;
    }

    method Tag(id: Id, tagId: string, now: Time) returns (result: Result)
      modifies this
      ensures Did(old(messages), id, AddTag(tagId, now), result)
      ensures if id !in old(messages) || old(messages)[id].isDraft then result == NotFound && messages == old(messages)
              else
                var m := old(messages)[id];
                result == Done && messages == if tagId in m.tags then old(messages) else old(messages)[id := m.(tags := m.tags + [tagId], updatedAt := now)]
    {
      if id !in messages || messages[id].isDraft {
        return NotFound;
      }
      var m := messages[id];
      for i := 0 to |m.tags|
        invariant tagId !in m.tags[..i] && messages == old(messages)
      {
        if m.tags[i] == tagId {
          return Done;
        }
      }
      assert m.tags[..|m.tags|] == m.tags;
      messages := messages[id := m.(tags := m.tags + [tagId], updatedAt := now)];
      return Done;
    }

    method Untag(id: Id, tagId: string, now: Time) returns (result: Result)
      modifies this
      ensures Did(old(messages), id, RemoveTag(tagId, now), result)
      ensures if id !in old(messages) || old(messages)[id].isDraft then result == NotFound && messages == old(messages)
              else
                var m := old(messages)[id];
                && result == Done
                && if tagId !in m.tags then messages == old(messages)
                   else exists i :: 0 <= i < |m.tags| && m.tags[i] == tagId && tagId !in m.tags[..i] &&
                          messages == old(messages)[id := m.(tags := m.tags[..i] + m.tags[i + 1..], updatedAt := now)]
    {
      if id !in messages || messages[id].isDraft {
        return NotFound;
      }
      var m := messages[id];
      var i := 0;
      while i < |m.tags| && m.tags[i] != tagId
        invariant i <= |m.tags| && tagId !in m.tags[..i]
      {
        i := i + 1;
      }
      if i == |m.tags| {
        assert m.tags[..i] == m.tags;
        return Done;
      }
      WithoutFirstIs(m.tags, tagId, i);
      messages := messages[id := m.(tags := m.tags[..i] + m.tags[i + 1..], updatedAt := now)];
      return Done;
    }

    method SoftDelete(id: Id, now: Time) returns (result: Result)
      modifies this
      ensures Did(old(messages), id, Delete(now), result)
      ensures if id !in old(messages) || old(messages)[id].isDraft then result == NotFound && messages == old(messages)
              else result == Done && messages == old(messages)[id := old(messages)[id].(folderId := FOLDER_TRASH, updatedAt := now)]
    {
      if id !in messages || messages[id].isDraft {
        return NotFound;
      }
      messages := messages[id := messages[id].(folderId := FOLDER_TRASH, updatedAt := now)];
      return Done;
    }

    method Remove(id: Id) returns (result: Result)
      modifies this
      ensures Did(old(messages), id, HardDelete, result)
      ensures if id !in old(messages) || old(messages)[id].isDraft then result == NotFound && messages == old(messages)
              else result == Done && messages == old(messages) - {id}
    {
      if id !in messages || messages[id].isDraft {
        return NotFound;
      }
      messages := messages - {id};
      return Done;
    }

    method Undelete(id: Id, now: Time) returns (result: Result)
      modifies this
      ensures Did(old(messages), id, Restore(now), result)
      ensures if id !in old(messages) || old(messages)[id].isDraft || old(messages)[id].folderId != FOLDER_TRASH then
                result == NotFound && messages == old(messages)
              else
                var m := old(messages)[id];
                result == Done && messages == old(messages)[id := m.(folderId := if m.ownerId == m.senderId then FOLDER_SENT else FOLDER_INBOX, updatedAt := now)]
    {
      if id !in messages || messages[id].isDraft || messages[id].folderId != FOLDER_TRASH {
        return NotFound;
      }
      var m := messages[id];
      if IsSentByOwner(m) {
        m := m.(folderId := FOLDER_SENT);
      } else {
        m := m.(folderId := FOLDER_INBOX);
      }
      messages := messages[id := m.(updatedAt := now)];
      return Done;
    }

    /** One message of a filtered bulk update: what was seen before the lock is checked again under it. */
    method UpdateOne(id: Id, ownerId: string, selects: Message -> bool, change: Message -> Message, now: Time) returns (result: Result)
      modifies this
      ensures Did(old(messages), id, Bulk(ownerId, selects, change, now), result)
      ensures if id !in old(messages) || old(messages)[id].isDraft then result == NotFound && messages == old(messages)
              else
                var m := old(messages)[id];
                if m.ownerId != ownerId || !selects(m) then result == Skipped && messages == old(messages)
                else result == Done && messages == old(messages)[id := change(m).(updatedAt := now)]
    {
      if id !in messages || messages[id].isDraft {
        return NotFound;
      }
      var m := messages[id];
      if m.ownerId != ownerId || !selects(m) {
        return Skipped;
      }
      messages := messages[id := change(m).(updatedAt := now)];
      return Done;
    }

    /** One message of MarkAllRead. */
    method MarkOne(id: Id, ownerId: string, folderId: string, now: Time) returns (result: Result)
      modifies this
      ensures Did(old(messages), id, MarkOneOfAll(ownerId, folderId, now), result)
      ensures if id !in old(messages) || old(messages)[id].isDraft then result == NotFound && messages == old(messages)
              else
                var m := old(messages)[id];
                if m.isRead || m.ownerId != ownerId || m.folderId != folderId then result == Skipped && messages == old(messages)
                else result == Done && messages == old(messages)[id := m.(isRead := true, readAt := Some(now), updatedAt := now)]
    {
      if id !in messages || messages[id].isDraft {
        return NotFound;
      }
      var m := messages[id];
      if m.isRead || m.ownerId != ownerId || m.folderId != folderId {
        return Skipped;
      }
      messages := messages[id := m.(isRead := true, readAt := Some(now), updatedAt := now)];
      return Done;
    }
  }

  lemma {:induction false} WithoutFirstIs(tags: seq<string>, tagId: string, i: nat)
    requires i < |tags| && tags[i] == tagId && tagId !in tags[..i]
    ensures WithoutFirst(tags, tagId) == tags[..i] + tags[i + 1..]
  {
    if i > 0 {
      assert tags[0] in tags[..i];
      assert tags[..i] == [tags[0]] + tags[1..][..i - 1];
      WithoutFirstIs(tags[1..], tagId, i - 1);
    }
  }

  // ---------------------------------------------------------------------
  // Callers
  // ---------------------------------------------------------------------

  datatype Phase =
    | Waiting
    | Locked
    | Loaded(cell: Cell)
    | Stored(result: Result)
    | Finished(result: Result)

  datatype Call = Call(id: Id, op: Op)

  /** A caller's progress, and its turn among all acquisitions once it has the lock. */
  datatype Caller = Caller(phase: Phase, turn: nat)

  datatype System = System(
    ms: map<Id, Message>,
    locks: map<Id, nat>,          // the caller holding the lock of a message
    calls: seq<Call>,             // what each caller asks for
    callers: seq<Caller>,
    order: seq<nat>)              // callers in the order they acquired their locks

  datatype Step = Acquire(t: nat) | Load(t: nat) | Store(t: nat) | Release(t: nat)

  predicate Enabled(x: System, step: Step) {
    step.t < |x.callers| == |x.calls| &&
    match step
    case Acquire(t) => x.callers[t].phase.Waiting? && x.calls[t].id !in x.locks
    case Load(t) => x.callers[t].phase.Locked?
    case Store(t) => x.callers[t].phase.Loaded?
    case Release(t) => x.callers[t].phase.Stored?
  }

  /** A message that does not change is not stored again. */
  function Do(x: System, step: Step): System
    requires Enabled(x, step)
  {
    var t := step.t;
    var c, call := x.callers[t], x.calls[t];
    match step
    case Acquire(_) =>
      x.(locks := x.locks[call.id := t], callers := x.callers[t := Caller(Locked, |x.order|)], order := x.order + [t])
    case Load(_) => x.(callers := x.callers[t := c.(phase := Loaded(CellOf(x.ms, call.id)))])
    case Store(_) =>
      var out := Apply(call.op, c.phase.cell);
      x.(ms := if out.cell == c.phase.cell then x.ms else Put(x.ms, call.id, out.cell),
         callers := x.callers[t := c.(phase := Stored(out.result))])
    case Release(_) => x.(locks := x.locks - {call.id}, callers := x.callers[t := c.(phase := Finished(c.phase.result))])
  }

  ghost predicate Run(x: System, steps: seq<Step>, x': System)
    decreases |steps|
  {
    if steps == [] then x' == x else Enabled(x, steps[0]) && Run(Do(x, steps[0]), steps[1..], x')
  }

  // ---------------------------------------------------------------------
  // One at a time
  // ---------------------------------------------------------------------

  predicate InRange(order: seq<nat>, n: nat) {
    forall i :: 0 <= i < |order| ==> order[i] < n
  }

  /** The store after running the calls one after the other. */
  function Serial(ms: map<Id, Message>, calls: seq<Call>, order: seq<nat>): map<Id, Message>
    requires InRange(order, |calls|)
  {
    if order == [] then ms
    else
      var call := calls[order[|order| - 1]];
      ApplyTo(Serial(ms, calls, order[..|order| - 1]), call.id, call.op)
  }

  /** A message just before the k-th turn. */
  function CellAt(ms: map<Id, Message>, calls: seq<Call>, order: seq<nat>, k: nat, id: Id): Cell
    requires InRange(order, |calls|) && k <= |order|
  {
    CellOf(Serial(ms, calls, order[..k]), id)
  }

  /** The result of the call that has the k-th turn. */
  function SerialResult(ms: map<Id, Message>, calls: seq<Call>, order: seq<nat>, k: nat): Result
    requires InRange(order, |calls|) && k < |order|
  {
    Apply(calls[order[k]].op, CellAt(ms, calls, order, k, calls[order[k]].id)).result
  }

  lemma CellNext(ms: map<Id, Message>, calls: seq<Call>, order: seq<nat>, k: nat, id: Id)
    requires InRange(order, |calls|) && k < |order|
    ensures CellAt(ms, calls, order, k + 1, id) ==
            if calls[order[k]].id == id then Apply(calls[order[k]].op, CellAt(ms, calls, order, k, id)).cell
            else CellAt(ms, calls, order, k, id)
  {
    hide Apply;
    assert order[..k + 1][..k] == order[..k];
  }

  /** Turns that belong to other messages leave a message alone. */
  lemma {:induction false} CellSkips(ms: map<Id, Message>, calls: seq<Call>, order: seq<nat>, k: nat, k': nat, id: Id)
    requires InRange(order, |calls|) && k <= k' <= |order|
    requires forall j :: k <= j < k' ==> calls[order[j]].id != id
    ensures CellAt(ms, calls, order, k', id) == CellAt(ms, calls, order, k, id)
    decreases k'
  {
    hide Apply, CellAt;
    if k < k' {
      CellSkips(ms, calls, order, k, k' - 1, id);
      CellNext(ms, calls, order, k' - 1, id);
    }
  }

  /** Earlier turns do not see later ones. */
  lemma CellEarlier(ms: map<Id, Message>, calls: seq<Call>, order: seq<nat>, t: nat, k: nat, id: Id)
    requires InRange(order, |calls|) && t < |calls| && k <= |order|
    ensures InRange(order + [t], |calls|)
    ensures CellAt(ms, calls, order + [t], k, id) == CellAt(ms, calls, order, k, id)
  {
    assert (order + [t])[..k] == order[..k];
  }

  // ---------------------------------------------------------------------
  // Every interleaving is a serial run in lock order
  // ---------------------------------------------------------------------

  predicate Busy(p: Phase) {
    p.Locked? || p.Loaded? || p.Stored?
  }

  predicate Fresh(p: Phase) {
    p.Locked? || p.Loaded?
  }

  /** Every caller that has had the lock has its own turn. */
  ghost predicate Turns(order: seq<nat>, callers: seq<Caller>) {
    && InRange(order, |callers|)
    && (forall t :: 0 <= t < |callers| && !callers[t].phase.Waiting? ==> callers[t].turn < |order| && order[callers[t].turn] == t)
    && (forall k :: 0 <= k < |order| ==> !callers[order[k]].phase.Waiting? && callers[order[k]].turn == k)
  }

  /** The locked messages are those of the busy callers. */
  ghost predicate Held(locks: map<Id, nat>, calls: seq<Call>, callers: seq<Caller>) {
    && |callers| == |calls|
    && (forall t :: 0 <= t < |callers| && Busy(callers[t].phase) ==> calls[t].id in locks && locks[calls[t].id] == t)
    && (forall id :: id in locks ==> locks[id] < |callers| && calls[locks[id]].id == id && Busy(callers[locks[id]].phase))
  }

  /** While a caller holds the lock no later turn belongs to its message. */
  ghost predicate HoldersLast(order: seq<nat>, calls: seq<Call>, callers: seq<Caller>)
    requires InRange(order, |calls|) && |callers| == |calls|
  {
    forall t, k :: 0 <= t < |callers| && Busy(callers[t].phase) && callers[t].turn < k < |order| ==> calls[order[k]].id != calls[t].id
  }

  /** The turn up to which the store has followed the serial run, for one message. */
  ghost function Followed(id: Id, locks: map<Id, nat>, callers: seq<Caller>, order: seq<nat>): (k: nat)
    ensures k <= |order|
  {
    if id in locks && locks[id] < |callers| && Fresh(callers[locks[id]].phase) && callers[locks[id]].turn <= |order|
    then callers[locks[id]].turn
    else |order|
  }

  ghost predicate Follows(x: System, ms: map<Id, Message>)
    requires InRange(x.order, |x.calls|)
  {
    forall id :: CellOf(x.ms, id) == CellAt(ms, x.calls, x.order, Followed(id, x.locks, x.callers, x.order), id)
  }

  ghost predicate Loads(ms: map<Id, Message>, calls: seq<Call>, callers: seq<Caller>)
    requires |callers| == |calls|
  {
    forall t :: 0 <= t < |callers| && callers[t].phase.Loaded? ==> callers[t].phase.cell == CellOf(ms, calls[t].id)
  }

  ghost predicate Results(ms: map<Id, Message>, calls: seq<Call>, callers: seq<Caller>, order: seq<nat>)
    requires InRange(order, |calls|)
  {
    forall t :: 0 <= t < |callers| && (callers[t].phase.Stored? || callers[t].phase.Finished?) ==>
      callers[t].turn < |order| && callers[t].phase.result == SerialResult(ms, calls, order, callers[t].turn)
  }

  ghost predicate Inv(x: System, ms: map<Id, Message>) {
    && InRange(x.order, |x.calls|) && |x.callers| == |x.calls|
    && Turns(x.order, x.callers) && Held(x.locks, x.calls, x.callers) && HoldersLast(x.order, x.calls, x.callers)
    && Follows(x, ms) && Loads(x.ms, x.calls, x.callers) && Results(ms, x.calls, x.callers, x.order)
  }

  /** A later phase of the same turn. */
  lemma SameTurns(order: seq<nat>, callers: seq<Caller>, t: nat, p: Phase)
    requires Turns(order, callers) && t < |callers| && !callers[t].phase.Waiting? && !p.Waiting?
    ensures Turns(order, callers[t := callers[t].(phase := p)])
  {
  }

  lemma MoreTurns(order: seq<nat>, callers: seq<Caller>, t: nat)
    requires Turns(order, callers) && t < |callers| && callers[t].phase.Waiting?
    ensures Turns(order + [t], callers[t := Caller(Locked, |order|)])
  {
    var order', callers' := order + [t], callers[t := Caller(Locked, |order|)];
    forall k | 0 <= k < |order'| ensures !callers'[order'[k]].phase.Waiting? && callers'[order'[k]].turn == k {
      if k < |order| {
        assert order[k] != t;
      }
    }
  }

  lemma SameHolders(x: System, t: nat, p: Phase)
    requires Held(x.locks, x.calls, x.callers) && t < |x.callers| && Busy(x.callers[t].phase) && Busy(p)
    requires InRange(x.order, |x.calls|) && HoldersLast(x.order, x.calls, x.callers)
    ensures var callers' := x.callers[t := x.callers[t].(phase := p)];
            Held(x.locks, x.calls, callers') && HoldersLast(x.order, x.calls, callers')
  {
  }

  lemma AcquireInv(x: System, ms: map<Id, Message>, t: nat)
    requires Inv(x, ms) && Enabled(x, Acquire(t))
    ensures Inv(Do(x, Acquire(t)), ms)
  {
    hide Apply, Turns, CellAt, Held, HoldersLast;
    var x' := Do(x, Acquire(t));
    AcquireHolders(x, t);
    MoreTurns(x.order, x.callers, t);
    AcquireFollows(x, ms, t);
    assert Results(ms, x'.calls, x'.callers, x'.order) by {
      AcquireResults(x, ms, t);
    }
    assert Loads(x'.ms, x'.calls, x'.callers);
  }

  lemma AcquireHolders(x: System, t: nat)
    requires Turns(x.order, x.callers) && Held(x.locks, x.calls, x.callers) && HoldersLast(x.order, x.calls, x.callers) && Enabled(x, Acquire(t))
    ensures var x' := Do(x, Acquire(t));
            InRange(x'.order, |x'.calls|) && Held(x'.locks, x'.calls, x'.callers) && HoldersLast(x'.order, x'.calls, x'.callers)
    ensures forall id :: id in x.locks ==> x.locks[id] != t
  {
    var x' := Do(x, Acquire(t));
    forall s, k | 0 <= s < |x'.callers| && Busy(x'.callers[s].phase) && x'.callers[s].turn < k < |x'.order|
      ensures x'.calls[x'.order[k]].id != x'.calls[s].id
    {
      assert s != t;
      assert x.calls[s].id in x.locks;
    }
  }

  lemma AcquireFollows(x: System, ms: map<Id, Message>, t: nat)
    requires InRange(x.order, |x.calls|) && Follows(x, ms) && Enabled(x, Acquire(t))
    requires forall id :: id in x.locks ==> x.locks[id] != t
    ensures InRange(Do(x, Acquire(t)).order, |x.calls|) && Follows(Do(x, Acquire(t)), ms)
  {
    hide Apply, CellAt;
    var x' := Do(x, Acquire(t));
    forall id ensures CellOf(x'.ms, id) == CellAt(ms, x'.calls, x'.order, Followed(id, x'.locks, x'.callers, x'.order), id) {
      var k := Followed(id, x.locks, x.callers, x.order);
      CellEarlier(ms, x.calls, x.order, t, k, id);
      if id != x.calls[t].id && k == |x.order| {
        CellSkips(ms, x.calls, x'.order, |x.order|, |x'.order|, id);
      }
    }
  }

  lemma AcquireResults(x: System, ms: map<Id, Message>, t: nat)
    requires InRange(x.order, |x.calls|) && Results(ms, x.calls, x.callers, x.order) && Enabled(x, Acquire(t))
    ensures InRange(Do(x, Acquire(t)).order, |x.calls|)
    ensures Results(ms, x.calls, Do(x, Acquire(t)).callers, Do(x, Acquire(t)).order)
  {
    hide Apply, CellAt;
    forall s | 0 <= s < |x.callers| && (x.callers[s].phase.Stored? || x.callers[s].phase.Finished?)
      ensures SerialResult(ms, x.calls, x.order + [t], x.callers[s].turn) == SerialResult(ms, x.calls, x.order, x.callers[s].turn)
    {
      var k := x.callers[s].turn;
      CellEarlier(ms, x.calls, x.order, t, k, x.calls[x.order[k]].id);
    }
  }

  lemma LoadInv(x: System, ms: map<Id, Message>, t: nat)
    requires Inv(x, ms) && Enabled(x, Load(t))
    ensures Inv(Do(x, Load(t)), ms)
  {
    hide Turns, HoldersLast, CellAt, SerialResult;
    var x' := Do(x, Load(t));
    SameTurns(x.order, x.callers, t, x'.callers[t].phase);
    SameHolders(x, t, x'.callers[t].phase);
    forall id ensures Followed(id, x'.locks, x'.callers, x'.order) == Followed(id, x.locks, x.callers, x.order) {
    }
  }

  /** Storing brings the message to the state after the caller's own turn. */
  lemma StoreFollows(x: System, ms: map<Id, Message>, t: nat)
    requires Inv(x, ms) && Enabled(x, Store(t))
    ensures Follows(Do(x, Store(t)), ms)
    ensures Do(x, Store(t)).callers[t].phase.result == SerialResult(ms, x.calls, x.order, x.callers[t].turn)
  {
    hide Apply, CellAt, Results;
    var x' := Do(x, Store(t));
    var call, k := x.calls[t], x.callers[t].turn;
    assert Followed(call.id, x.locks, x.callers, x.order) == k && x.order[k] == t;
    assert CellAt(ms, x.calls, x.order, k, call.id) == x.callers[t].phase.cell;
    CellNext(ms, x.calls, x.order, k, call.id);
    CellSkips(ms, x.calls, x.order, k + 1, |x.order|, call.id);
    hide Turns, HoldersLast, SerialResult;
    assert CellOf(x'.ms, call.id) == Apply(call.op, CellOf(x.ms, call.id)).cell;
    forall id ensures CellOf(x'.ms, id) == CellAt(ms, x'.calls, x'.order, Followed(id, x'.locks, x'.callers, x'.order), id) {
      if id != call.id {
        assert Followed(id, x'.locks, x'.callers, x'.order) == Followed(id, x.locks, x.callers, x.order);
        assert CellOf(x'.ms, id) == CellOf(x.ms, id);
      }
    }
  }

  lemma OthersKept(ms: map<Id, Message>, id: Id, c: Cell)
    ensures forall id' :: id' != id ==> CellOf(Put(ms, id, c), id') == CellOf(ms, id')
  {
  }

  /** No other caller has the stored message loaded. */
  lemma StoreLoads(x: System, t: nat)
    requires Held(x.locks, x.calls, x.callers) && Loads(x.ms, x.calls, x.callers) && Enabled(x, Store(t))
    ensures Loads(Do(x, Store(t)).ms, x.calls, Do(x, Store(t)).callers)
  {
    hide Apply, CellOf, Put;
    var x' := Do(x, Store(t));
    OthersKept(x.ms, x.calls[t].id, Apply(x.calls[t].op, x.callers[t].phase.cell).cell);
    forall s | 0 <= s < |x'.callers| && x'.callers[s].phase.Loaded? ensures x'.callers[s].phase.cell == CellOf(x'.ms, x'.calls[s].id) {
      assert x.locks[x.calls[s].id] == s && x.locks[x.calls[t].id] == t;
    }
  }

  lemma StoreInv(x: System, ms: map<Id, Message>, t: nat)
    requires Inv(x, ms) && Enabled(x, Store(t))
    ensures Inv(Do(x, Store(t)), ms)
  {
    hide Follows, SerialResult, Apply, HoldersLast, Turns, Held, Loads;
    var x' := Do(x, Store(t));
    assert Turns(x.order, x.callers);
    StoreFollows(x, ms, t);
    StoreLoads(x, t);
    SameTurns(x.order, x.callers, t, x'.callers[t].phase);
    SameHolders(x, t, x'.callers[t].phase);
    TurnOf(x.order, x.callers, t);
  }

  lemma TurnOf(order: seq<nat>, callers: seq<Caller>, t: nat)
    requires Turns(order, callers) && t < |callers| && !callers[t].phase.Waiting?
    ensures callers[t].turn < |order|
  {
  }

  lemma ReleaseHolders(x: System, t: nat, p: Phase)
    requires Held(x.locks, x.calls, x.callers) && t < |x.callers| && Busy(x.callers[t].phase) && !Busy(p)
    requires InRange(x.order, |x.calls|) && HoldersLast(x.order, x.calls, x.callers)
    ensures var callers' := x.callers[t := x.callers[t].(phase := p)];
            Held(x.locks - {x.calls[t].id}, x.calls, callers') && HoldersLast(x.order, x.calls, callers')
  {
  }

  lemma ReleaseFollows(x: System, ms: map<Id, Message>, t: nat)
    requires InRange(x.order, |x.calls|) && Held(x.locks, x.calls, x.callers) && Follows(x, ms) && Enabled(x, Release(t))
    ensures Follows(Do(x, Release(t)), ms)
  {
    hide CellAt;
    var x' := Do(x, Release(t));
    forall id ensures Followed(id, x'.locks, x'.callers, x'.order) == Followed(id, x.locks, x.callers, x.order) {
    }
  }

  lemma ReleaseInv(x: System, ms: map<Id, Message>, t: nat)
    requires Inv(x, ms) && Enabled(x, Release(t))
    ensures Inv(Do(x, Release(t)), ms)
  {
    hide Turns, CellAt, SerialResult, Held, HoldersLast, Follows;
    var x' := Do(x, Release(t));
    SameTurns(x.order, x.callers, t, x'.callers[t].phase);
    ReleaseHolders(x, t, x'.callers[t].phase);
    ReleaseFollows(x, ms, t);
  }

  lemma {:induction false} RunInv(x: System, ms: map<Id, Message>, steps: seq<Step>, x': System)
    requires Inv(x, ms) && Run(x, steps, x')
    ensures Inv(x', ms) && x'.calls == x.calls
    decreases |steps|
  {
    if steps != [] {
      hide Inv;
      match steps[0] {
        case Acquire(t) => AcquireInv(x, ms, t);
        case Load(t) => LoadInv(x, ms, t);
        case Store(t) => StoreInv(x, ms, t);
        case Release(t) => ReleaseInv(x, ms, t);
      }
      RunInv(Do(x, steps[0]), ms, steps[1..], x');
    }
  }

  function Start(ms: map<Id, Message>, calls: seq<Call>): System {
    System(ms, map[], calls, seq(|calls|, i => Caller(Waiting, 0)), [])
  }

  lemma StartInv(ms: map<Id, Message>, calls: seq<Call>)
    ensures Inv(Start(ms, calls), ms)
  {
  }

  /** In every interleaving each caller gets its lock at most once; each finished caller got the result of
      its turn in the serial run in lock order; and when no lock is held the store is that of the serial run. */
  lemma Linearizable(ms: map<Id, Message>, calls: seq<Call>, steps: seq<Step>, x: System)
    requires Run(Start(ms, calls), steps, x)
    ensures x.calls == calls && |x.callers| == |calls| && InRange(x.order, |calls|)
    ensures forall i, j :: 0 <= i < j < |x.order| ==> x.order[i] != x.order[j]
    ensures forall t :: 0 <= t < |calls| && x.callers[t].phase.Finished? ==>
              var k := x.callers[t].turn;
              k < |x.order| && x.order[k] == t && x.callers[t].phase.result == SerialResult(ms, calls, x.order, k)
    ensures x.locks == map[] ==> x.ms == Serial(ms, calls, x.order)
  {
    hide SerialResult, Apply, Serial;
    StartInv(ms, calls);
    RunInv(Start(ms, calls), ms, steps, x);
    if x.locks == map[] {
      assert x.order[..|x.order|] == x.order;
      forall id ensures CellOf(x.ms, id) == CellOf(Serial(ms, calls, x.order), id) {
        assert Followed(id, x.locks, x.callers, x.order) == |x.order|;
      }
      SameCells(x.ms, Serial(ms, calls, x.order));
    }
  }

  lemma SameCells(ms: map<Id, Message>, ms': map<Id, Message>)
    requires forall id :: CellOf(ms, id) == CellOf(ms', id)
    ensures ms == ms'
  {
    forall id ensures id in ms <==> id in ms' {
      assert CellOf(ms, id) == CellOf(ms', id);
    }
    forall id | id in ms ensures ms[id] == ms'[id] {
      assert CellOf(ms, id) == CellOf(ms', id);
    }
  }

  // ---------------------------------------------------------------------
  // Claims
  // ---------------------------------------------------------------------

  predicate InFolder(c: Cell, f: string) {
    c.Some? && c.value.folderId == f
  }

  /** A conditional move of a message out of folder f. */
  predicate Claims(call: Call, id: Id, f: string) {
    call.id == id && call.op.MoveToFolder? && call.op.from == f && f != "" && call.op.folderId != f
  }

  /** The turn of a call that brought the message into folder f. */
  predicate BroughtBack(ms: map<Id, Message>, calls: seq<Call>, order: seq<nat>, k: nat, id: Id, f: string)
    requires InRange(order, |calls|) && k < |order|
  {
    && calls[order[k]].id == id
    && !InFolder(CellAt(ms, calls, order, k, id), f)
    && InFolder(CellAt(ms, calls, order, k + 1, id), f)
  }

  lemma {:induction false} SomeoneMovedIt(ms: map<Id, Message>, calls: seq<Call>, order: seq<nat>, a: nat, b: nat, id: Id, f: string) returns (k: nat)
    requires InRange(order, |calls|) && a <= b <= |order|
    requires !InFolder(CellAt(ms, calls, order, a, id), f) && InFolder(CellAt(ms, calls, order, b, id), f)
    ensures a <= k < b && BroughtBack(ms, calls, order, k, id, f)
    decreases b
  {
    hide CellAt, Apply;
    CellNext(ms, calls, order, b - 1, id);
    if InFolder(CellAt(ms, calls, order, b - 1, id), f) {
      k := SomeoneMovedIt(ms, calls, order, a, b - 1, id, f);
    } else {
      k := b - 1;
    }
  }

  /** A claim that succeeds finds the message in the folder and takes it out. */
  lemma ClaimWon(ms: map<Id, Message>, calls: seq<Call>, order: seq<nat>, k: nat, id: Id, f: string)
    requires InRange(order, |calls|) && k < |order| && Claims(calls[order[k]], id, f) && SerialResult(ms, calls, order, k).Done?
    ensures InFolder(CellAt(ms, calls, order, k, id), f) && !InFolder(CellAt(ms, calls, order, k + 1, id), f)
  {
    hide CellAt;
    CellNext(ms, calls, order, k, id);
  }

  /** Two callers whose claims on the same folder of a message both succeed, in any interleaving: between
      their turns some other caller moved the message back. */
  lemma ClaimsAlternate(ms: map<Id, Message>, calls: seq<Call>, steps: seq<Step>, x: System, s: nat, t: nat, id: Id, f: string)
    requires Run(Start(ms, calls), steps, x) && s < |calls| && t < |calls| && |x.callers| == |calls|
    requires Claims(calls[s], id, f) && Claims(calls[t], id, f)
    requires x.callers[s].phase == Finished(Done) && x.callers[t].phase == Finished(Done) && x.callers[s].turn < x.callers[t].turn
    ensures InRange(x.order, |calls|) && x.callers[t].turn < |x.order|
    ensures exists k :: x.callers[s].turn < k < x.callers[t].turn && BroughtBack(ms, calls, x.order, k, id, f)
  {
    hide CellAt, SerialResult, Serial, Apply, Claims, BroughtBack, Run;
    Linearizable(ms, calls, steps, x);
    var i, j := x.callers[s].turn, x.callers[t].turn;
    ClaimWon(ms, calls, x.order, i, id, f);
    ClaimWon(ms, calls, x.order, j, id, f);
    var k := SomeoneMovedIt(ms, calls, x.order, i + 1, j, id, f);
  }
}
