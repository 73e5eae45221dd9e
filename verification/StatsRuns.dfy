/**
Runs of the stats cache. Mutations change the store and emit events; events
reach the cache in operation order but after any delay.
*/
module StatsRuns {
  import opened Messages
  import opened Tally
  import opened Stats

  // ---------------------------------------------------------------------
  // The mutations and the events they emit
  // ---------------------------------------------------------------------

  datatype Op =
    | Send(copy: Message, copies: seq<Message>)    // the sender's copy and the newly delivered ones
    | MoveToFolder(userId: string, id: Id, folderId: string, claim: string)   // claim: the folder it must be in, or ""
    | Delete(userId: string, id: Id)
    | Restore(userId: string, id: Id)
    | PermanentlyDelete(userId: string, id: Id)
    | SetRead(userId: string, id: Id, read: bool)

  datatype Outcome = Outcome(ms: map<Id, Message>, event: Option<Event>)

  predicate Owns(ms: map<Id, Message>, userId: string, id: Id) {
    id in ms && !ms[id].isDraft && ms[id].ownerId == userId
  }

  /** Moves a message and emits the event; a move to where it already is does neither. */
  function MoveAndPublish(ms: map<Id, Message>, userId: string, id: Id, to: string, stamp: Time): Outcome
    requires id in ms
  {
    var m := ms[id];
    if m.folderId == to then Outcome(ms, None)
    else Outcome(ms[id := m.(folderId := to, updatedAt := stamp)], Some(MessageMoved(userId, m.folderId, to, !m.isRead)))
  }

  function StoreAll(ms: map<Id, Message>, list: seq<Message>): map<Id, Message> {
    if list == [] then ms
    else StoreAll(ms, list[..|list| - 1])[list[|list| - 1].id := list[|list| - 1]]
  }

  function Owners(list: seq<Message>): (owners: seq<string>)
    ensures |owners| == |list|
  {
    if list == [] then [] else Owners(list[..|list| - 1]) + [list[|list| - 1].ownerId]
  }

  /** A refused call leaves the store alone and emits nothing. */
  function Perform(ms: map<Id, Message>, op: Op, stamp: Time): Outcome {
    match op
    case Send(copy, copies) =>
      Outcome(StoreAll(ms[copy.id := copy], copies), Some(MessageSent(copy.ownerId, Owners(copies))))
    case MoveToFolder(userId, id, folderId, claim) =>
      if !IsValidFolderId(folderId) || (claim != "" && !IsValidFolderId(claim)) || !Owns(ms, userId, id) then Outcome(ms, None)
      else if claim != "" && claim != ms[id].folderId then Outcome(ms, None)
      else MoveAndPublish(ms, userId, id, folderId, stamp)
    case Delete(userId, id) =>
      if !Owns(ms, userId, id) || ms[id].folderId == FOLDER_TRASH then Outcome(ms, None)
      else MoveAndPublish(ms, userId, id, FOLDER_TRASH, stamp)
    case Restore(userId, id) =>
      if !Owns(ms, userId, id) || ms[id].folderId != FOLDER_TRASH then Outcome(ms, None)
      else MoveAndPublish(ms, userId, id, DefaultFolder(ms[id]), stamp)
    case PermanentlyDelete(userId, id) =>
      if !Owns(ms, userId, id) || ms[id].folderId != FOLDER_TRASH then Outcome(ms, None)
      else Outcome(ms - {id}, Some(MessageDeleted(userId, ms[id].folderId, !ms[id].isRead)))
    case SetRead(userId, id, read) =>
      if !Owns(ms, userId, id) then Outcome(ms, None)
      else
        Outcome(ms[id := ms[id].(isRead := read, readAt := if read then Some(stamp) else None, updatedAt := stamp)],
                if read then Some(MessageRead(userId, ms[id].folderId)) else None)
  }

  datatype Failure = NoFailure | InvalidFolder | NotFound | Unauthorized | AlreadyInTrash | NotInTrash | FolderMismatch

  class MailboxService {
    var messages: map<Id, Message>
    var published: seq<Event>

    constructor (ms: map<Id, Message>)
      ensures messages == ms && published == []
    {
      messages, published := ms, [];
    }

    /** The state after a mutation: its store, and its event if it emits one. */
    ghost predicate After(ms: map<Id, Message>, events: seq<Event>, op: Op, stamp: Time)
      reads this
    {
      var out := Perform(ms, op, stamp);
      messages == out.ms && published == if out.event.Some? then events + [out.event.value] else events
    }

    method GetAndVerify(userId: string, id: Id) returns (failure: Failure)
      ensures failure.NoFailure? <==> Owns(messages, userId, id)
      ensures failure == (if id !in messages || messages[id].isDraft then NotFound
                          else if messages[id].ownerId != userId then Unauthorized
                          else NoFailure)
    {
      if id !in messages || messages[id].isDraft {
        return NotFound;
      }
      if messages[id].ownerId != userId {
        return Unauthorized;
      }
      return NoFailure;
    }

    /** The store's conditional move is made only when the folder changes. */
    method MoveAndPublishEvent(userId: string, id: Id, to: string, claim: string, stamp: Time) returns (failure: Failure)
      requires id in messages
      modifies this
      ensures failure == if old(messages)[id].folderId != to && claim != "" && claim != old(messages)[id].folderId then FolderMismatch else NoFailure
      ensures var m := old(messages)[id];
              if m.folderId != to && claim != "" && claim != m.folderId then messages == old(messages) && published == old(published)
              else
                var out := MoveAndPublish(old(messages), userId, id, to, stamp);
                messages == out.ms && published == if out.event.Some? then old(published) + [out.event.value] else old(published)
    {
      var m := messages[id];
      if m.folderId == to {
        return NoFailure;
      }
      if claim != "" && m.folderId != claim {
        return FolderMismatch;
      }
      messages := messages[id := m.(folderId := to, updatedAt := stamp)];
      published := published + [MessageMoved(userId, m.folderId, to, !m.isRead)];
      return NoFailure;
    }

    method MoveToFolder(userId: string, id: Id, folderId: string, claim: string, stamp: Time) returns (failure: Failure)
      modifies this
      ensures After(old(messages), old(published), Op.MoveToFolder(userId, id, folderId, claim), stamp)
      ensures failure == (if !IsValidFolderId(folderId) || (claim != "" && !IsValidFolderId(claim)) then InvalidFolder
                          else if id !in old(messages) || old(messages)[id].isDraft then NotFound
                          else if old(messages)[id].ownerId != userId then Unauthorized
                          else if claim != "" && old(messages)[id].folderId !in {claim, folderId} then FolderMismatch
                          else NoFailure)
      ensures if failure == NoFailure && old(messages)[id].folderId != folderId then
                var m := old(messages)[id];
                && messages == old(messages)[id := m.(folderId := folderId, updatedAt := stamp)]
                && published == old(published) + [MessageMoved(userId, m.folderId, folderId, !m.isRead)]
              else messages == old(messages) && published == old(published)
    {
      if !IsValidFolderId(folderId) || (claim != "" && !IsValidFolderId(claim)) {
        return InvalidFolder;
      }
      failure := GetAndVerify(userId, id);
      if failure.NoFailure? {
        failure := MoveAndPublishEvent(userId, id, folderId, claim, stamp);
      }
    }

    method Delete(userId: string, id: Id, stamp: Time) returns (failure: Failure)
      modifies this
      ensures After(old(messages), old(published), Op.Delete(userId, id), stamp)
      ensures failure == (if id !in old(messages) || old(messages)[id].isDraft then NotFound
                          else if old(messages)[id].ownerId != userId then Unauthorized
                          else if old(messages)[id].folderId == FOLDER_TRASH then AlreadyInTrash
                          else NoFailure)
      ensures if failure == NoFailure then
                var m := old(messages)[id];
                && messages == old(messages)[id := m.(folderId := FOLDER_TRASH, updatedAt := stamp)]
                && published == old(published) + [MessageMoved(userId, m.folderId, FOLDER_TRASH, !m.isRead)]
              else messages == old(messages) && published == old(published)
    {
      failure := GetAndVerify(userId, id);
      if failure.NoFailure? {
        if messages[id].folderId == FOLDER_TRASH {
          return AlreadyInTrash;
        }
        failure := MoveAndPublishEvent(userId, id, FOLDER_TRASH, "", stamp);
      }
    }

    method Restore(userId: string, id: Id, stamp: Time) returns (failure: Failure)
      modifies this
      ensures After(old(messages), old(published), Op.Restore(userId, id), stamp)
      ensures failure == (if id !in old(messages) || old(messages)[id].isDraft then NotFound
                          else if old(messages)[id].ownerId != userId then Unauthorized
                          else if old(messages)[id].folderId != FOLDER_TRASH then NotInTrash
                          else NoFailure)
      ensures if failure == NoFailure then
                var m := old(messages)[id];
                var to := if m.ownerId == m.senderId then FOLDER_SENT else FOLDER_INBOX;
                && messages == old(messages)[id := m.(folderId := to, updatedAt := stamp)]
                && published == old(published) + [MessageMoved(userId, FOLDER_TRASH, to, !m.isRead)]
              else messages == old(messages) && published == old(published)
    {
      failure := GetAndVerify(userId, id);
      if failure.NoFailure? {
        if messages[id].folderId != FOLDER_TRASH {
          return NotInTrash;
        }
        failure := MoveAndPublishEvent(userId, id, DefaultFolder(messages[id]), "", stamp);
      }
    }

    method PermanentlyDelete(userId: string, id: Id, stamp: Time) returns (failure: Failure)
      modifies this
      ensures After(old(messages), old(published), Op.PermanentlyDelete(userId, id), stamp)
      ensures failure == (if id !in old(messages) || old(messages)[id].isDraft then NotFound
                          else if old(messages)[id].ownerId != userId then Unauthorized
                          else if old(messages)[id].folderId != FOLDER_TRASH then NotInTrash
                          else NoFailure)
      ensures if failure == NoFailure then
                && messages == old(messages) - {id}
                && published == old(published) + [MessageDeleted(userId, FOLDER_TRASH, !old(messages)[id].isRead)]
              else messages == old(messages) && published == old(published)
    {
      failure := GetAndVerify(userId, id);
      if failure.NoFailure? {
        var m := messages[id];
        if m.folderId != FOLDER_TRASH {
          return NotInTrash;
        }
        messages := messages - {id};
        published := published + [MessageDeleted(userId, m.folderId, !m.isRead)];
      }
    }

    /** Only marking read emits an event. */
    method SetRead(userId: string, id: Id, read: bool, stamp: Time) returns (failure: Failure)
      modifies this
      ensures After(old(messages), old(published), Op.SetRead(userId, id, read), stamp)
      ensures failure == (if id !in old(messages) || old(messages)[id].isDraft then NotFound
                          else if old(messages)[id].ownerId != userId then Unauthorized
                          else NoFailure)
      ensures if failure == NoFailure then
                var m := old(messages)[id];
                && messages == old(messages)[id := m.(isRead := read, readAt := if read then Some(stamp) else None, updatedAt := stamp)]
                && published == old(published) + if read then [MessageRead(userId, m.folderId)] else []
              else messages == old(messages) && published == old(published)
    {
      failure := GetAndVerify(userId, id);
      if failure.NoFailure? {
        var m := messages[id];
        messages := messages[id := m.(isRead := read, readAt := if read then Some(stamp) else None, updatedAt := stamp)];
        if read {
          published := published + [MessageRead(userId, m.folderId)];
        }
      }
    }
  }

  /** Stored messages have a folder, and none is scheduled for later. */
  predicate Tidy(ms: map<Id, Message>, now: Time) {
    WellKeyed(ms) && forall id :: id in ms ==> ms[id].folderId != "" && IsAvailable(ms[id], now)
  }

  predicate NewIn(m: Message, folderId: string, ms: map<Id, Message>, now: Time) {
    m.id !in ms && !m.isDraft && !m.isRead && m.folderId == folderId && IsAvailable(m, now)
  }

  /** What a send stores: fresh unread copies, the sender's in Sent and the others in inboxes. */
  predicate Proper(op: Op, ms: map<Id, Message>, now: Time) {
    op.Send? ==>
      && NewIn(op.copy, FOLDER_SENT, ms, now)
      && (forall i :: 0 <= i < |op.copies| ==> NewIn(op.copies[i], FOLDER_INBOX, ms, now) && op.copies[i].id != op.copy.id)
      && (forall i, j :: 0 <= i < j < |op.copies| ==> op.copies[i].id != op.copies[j].id)
  }

  // ---------------------------------------------------------------------
  // One mutation: the event keeps the totals right
  // ---------------------------------------------------------------------

  /** A new message changes the totals of its owner, in its folder, and no others. */
  lemma InsertTotals(s: MailboxStats, s': MailboxStats, ms: map<Id, Message>, m: Message, owner: string, now: Time)
    requires TotalsAgree(s, ms, owner, now) && m.id !in ms && !m.isDraft && IsAvailable(m, now)
    requires s'.total == s.total + One(m.ownerId == owner)
    requires forall f :: s'.Folder(f).total == s.Folder(f).total + One(m.ownerId == owner && f == m.folderId)
    ensures TotalsAgree(s', ms[m.id := m], owner, now)
  {
    TotalInsert(ms, Any(owner, now), m.id, m);
    forall f ensures s'.Folder(f).total == Total(ms[m.id := m], In(owner, f, now)) {
      TotalInsert(ms, In(owner, f, now), m.id, m);
      assert s.Folder(f).total == Total(ms, In(owner, f, now));
    }
  }

  lemma {:induction false} CopiesTotals(s: MailboxStats, ms: map<Id, Message>, copies: seq<Message>, owner: string, now: Time)
    requires TotalsAgree(s, ms, owner, now)
    requires forall i :: 0 <= i < |copies| ==> NewIn(copies[i], FOLDER_INBOX, ms, now)
    requires forall i, j :: 0 <= i < j < |copies| ==> copies[i].id != copies[j].id
    ensures TotalsAgree(RecipientUpdates(s, owner, Owners(copies)), StoreAll(ms, copies), owner, now)
  {
    hide Total, TotalsAgree;
    if copies != [] {
      var n := |copies| - 1;
      CopiesTotals(s, ms, copies[..n], owner, now);
      StoreAllKeys(ms, copies[..n]);
      assert Owners(copies)[..n] == Owners(copies[..n]);
      var s1 := RecipientUpdates(s, owner, Owners(copies[..n]));
      var s2 := RecipientUpdates(s, owner, Owners(copies));
      assert s2 == if copies[n].ownerId == owner then RecipientUpdate(s1) else s1;
      InsertTotals(s1, s2, StoreAll(ms, copies[..n]), copies[n], owner, now);
    }
  }

  lemma {:induction false} StoreAllKeys(ms: map<Id, Message>, list: seq<Message>)
    ensures forall id :: id in StoreAll(ms, list) <==> id in ms || exists i :: 0 <= i < |list| && list[i].id == id
    ensures forall id :: id in StoreAll(ms, list) ==>
              (id in ms && StoreAll(ms, list)[id] == ms[id]) || exists i :: 0 <= i < |list| && list[i] == StoreAll(ms, list)[id]
  {
    if list != [] {
      var n := |list| - 1;
      StoreAllKeys(ms, list[..n]);
      assert list == list[..n] + [list[n]];
    }
  }

  lemma SendTotals(s: MailboxStats, ms: map<Id, Message>, op: Op, owner: string, now: Time, stamp: Time)
    requires op.Send? && Proper(op, ms, now) && TotalsAgree(s, ms, owner, now)
    ensures TotalsAgree(Apply(Perform(ms, op, stamp).event.value, owner, s), Perform(ms, op, stamp).ms, owner, now)
  {
    var s1 := if op.copy.ownerId == owner then SenderUpdate(s) else s;
    InsertTotals(s, s1, ms, op.copy, owner, now);
    CopiesTotals(s1, ms[op.copy.id := op.copy], op.copies, owner, now);
  }

  /** A counted message makes the totals it belongs to positive. */
  lemma TotalsPositive(s: MailboxStats, ms: map<Id, Message>, id: Id, owner: string, now: Time)
    requires TotalsAgree(s, ms, owner, now) && id in ms && IsCounted(ms[id], owner, now)
    ensures s.total > 0 && s.Folder(ms[id].folderId).total > 0
  {
    TotalRemove(ms, Any(owner, now), id);
    TotalRemove(ms, In(owner, ms[id].folderId, now), id);
    assert s.Folder(ms[id].folderId).total == Total(ms, In(owner, ms[id].folderId, now));
  }

  lemma ReplaceTotals(s: MailboxStats, s': MailboxStats, ms: map<Id, Message>, id: Id, m': Message, owner: string, now: Time)
    requires TotalsAgree(s, ms, owner, now) && id in ms
    requires s'.total + Any(owner, now)(ms[id]) == s.total + Any(owner, now)(m')
    requires forall f :: s'.Folder(f).total + In(owner, f, now)(ms[id]) == s.Folder(f).total + In(owner, f, now)(m')
    ensures TotalsAgree(s', ms[id := m'], owner, now)
  {
    hide Any, In, Total;
    TotalUpdate(ms, Any(owner, now), id, m');
    forall f ensures s'.Folder(f).total == Total(ms[id := m'], In(owner, f, now)) {
      TotalUpdate(ms, In(owner, f, now), id, m');
      assert s.Folder(f).total == Total(ms, In(owner, f, now));
    }
  }

  lemma MoveTotals(s: MailboxStats, ms: map<Id, Message>, id: Id, to: string, owner: string, now: Time, stamp: Time)
    requires TotalsAgree(s, ms, owner, now) && Tidy(ms, now) && id in ms && !ms[id].isDraft && to != "" && ms[id].folderId != to
    ensures var out := MoveAndPublish(ms, ms[id].ownerId, id, to, stamp);
            && !Clamps(out.event.value, owner, s)
            && TotalsAgree(Apply(out.event.value, owner, s), out.ms, owner, now)
  {
    hide Total, TotalsAgree;
    var out := MoveAndPublish(ms, ms[id].ownerId, id, to, stamp);
    if ms[id].ownerId == owner {
      TotalsPositive(s, ms, id, owner, now);
    }
    ReplaceTotals(s, Apply(out.event.value, owner, s), ms, id, out.ms[id], owner, now);
  }

  lemma PurgeTotals(s: MailboxStats, ms: map<Id, Message>, id: Id, owner: string, now: Time)
    requires TotalsAgree(s, ms, owner, now) && Tidy(ms, now) && id in ms && !ms[id].isDraft
    ensures var e := MessageDeleted(ms[id].ownerId, ms[id].folderId, !ms[id].isRead);
            && !Clamps(e, owner, s)
            && TotalsAgree(Apply(e, owner, s), ms - {id}, owner, now)
  {
    var m := ms[id];
    var s' := Apply(MessageDeleted(m.ownerId, m.folderId, !m.isRead), owner, s);
    TotalRemove(ms, Any(owner, now), id);
    TotalRemove(ms, In(owner, m.folderId, now), id);
    assert s.Folder(m.folderId).total == Total(ms, In(owner, m.folderId, now));
    forall f ensures s'.Folder(f).total == Total(ms - {id}, In(owner, f, now)) {
      TotalRemove(ms, In(owner, f, now), id);
      assert s.Folder(f).total == Total(ms, In(owner, f, now));
    }
  }

  lemma SetReadTotals(s: MailboxStats, ms: map<Id, Message>, id: Id, m': Message, owner: string, now: Time)
    requires TotalsAgree(s, ms, owner, now) && id in ms
    requires IsCounted(m', owner, now) == IsCounted(ms[id], owner, now) && m'.folderId == ms[id].folderId
    ensures TotalsAgree(s, ms[id := m'], owner, now)
    ensures forall f :: TotalsAgree(ReadUpdate(s, f), ms[id := m'], owner, now)
  {
    hide Total;
    ReplaceTotals(s, s, ms, id, m', owner, now);
  }

  /** After any mutation the entry with the emitted event applied has the totals of the new store, and
      no total was held at zero. */
  lemma PerformTotals(s: MailboxStats, ms: map<Id, Message>, op: Op, owner: string, now: Time, stamp: Time)
    requires TotalsAgree(s, ms, owner, now) && Tidy(ms, now) && Proper(op, ms, now)
    ensures var out := Perform(ms, op, stamp);
            && TotalsAgree(if out.event.Some? then Apply(out.event.value, owner, s) else s, out.ms, owner, now)
            && (out.event.Some? ==> !Clamps(out.event.value, owner, s))
  {
    match op
    case Send(_, _) => SendTotals(s, ms, op, owner, now, stamp);
    case MoveToFolder(userId, id, folderId, claim) =>
      if IsValidFolderId(folderId) && Owns(ms, userId, id) && ms[id].folderId != folderId {
        MoveTotals(s, ms, id, folderId, owner, now, stamp);
      }
    case Delete(userId, id) =>
      if Owns(ms, userId, id) && ms[id].folderId != FOLDER_TRASH {
        MoveTotals(s, ms, id, FOLDER_TRASH, owner, now, stamp);
      }
    case Restore(userId, id) =>
      if Owns(ms, userId, id) && ms[id].folderId == FOLDER_TRASH {
        MoveTotals(s, ms, id, DefaultFolder(ms[id]), owner, now, stamp);
      }
    case PermanentlyDelete(userId, id) =>
      if Owns(ms, userId, id) && ms[id].folderId == FOLDER_TRASH {
        PurgeTotals(s, ms, id, owner, now);
      }
    case SetRead(userId, id, read) =>
      if Owns(ms, userId, id) {
        SetReadTotals(s, ms, id, Perform(ms, op, stamp).ms[id], owner, now);
      }
  }

  lemma PerformTidy(ms: map<Id, Message>, op: Op, now: Time, stamp: Time)
    requires Tidy(ms, now) && Proper(op, ms, now)
    ensures Tidy(Perform(ms, op, stamp).ms, now)
  {
    if op.Send? {
      StoreAllKeys(ms[op.copy.id := op.copy], op.copies);
      StoreAllWellKeyed(ms[op.copy.id := op.copy], op.copies);
    }
  }

  lemma {:induction false} StoreAllWellKeyed(ms: map<Id, Message>, list: seq<Message>)
    requires WellKeyed(ms)
    ensures WellKeyed(StoreAll(ms, list))
  {
    if list != [] {
      StoreAllWellKeyed(ms, list[..|list| - 1]);
    }
  }

  // ---------------------------------------------------------------------
  // Runs with delayed events
  // ---------------------------------------------------------------------

  datatype System = System(ms: map<Id, Message>, cache: Cache, pending: seq<Event>)

  datatype Step =
    | Mutate(op: Op, stamp: Time)
    | Deliver                                   // the oldest pending event reaches the cache
    | Refresh(owner: string, s: MailboxStats)   // the entry is replaced by a recount

  ghost predicate Enabled(x: System, step: Step, now: Time) {
    match step
    case Mutate(op, _) => Proper(op, x.ms, now)
    case Deliver => x.pending != []
    case Refresh(owner, s) => x.pending == [] && IsRecount(s, x.ms, owner, now)
  }

  function Do(x: System, step: Step): System
    requires step.Deliver? ==> x.pending != []
  {
    match step
    case Mutate(op, stamp) =>
      var out := Perform(x.ms, op, stamp);
      x.(ms := out.ms, pending := if out.event.Some? then x.pending + [out.event.value] else x.pending)
    case Deliver => x.(cache := ApplyAll(x.pending[0], x.cache), pending := x.pending[1..])
    case Refresh(owner, s) => x.(cache := x.cache[owner := s])
  }

  ghost predicate Run(x: System, steps: seq<Step>, x': System, now: Time)
    decreases |steps|
  {
    if steps == [] then x' == x
    else Enabled(x, steps[0], now) && Run(Do(x, steps[0]), steps[1..], x', now)
  }

  /** An entry with all pending events applied, oldest first. */
  function CaughtUp(pending: seq<Event>, owner: string, s: MailboxStats): MailboxStats
    decreases |pending|
  {
    if pending == [] then s else CaughtUp(pending[1..], owner, Apply(pending[0], owner, s))
  }

  /** No pending event will find a total at zero that it wants to decrement. */
  predicate NeverClamps(pending: seq<Event>, owner: string, s: MailboxStats)
    decreases |pending|
  {
    pending == [] || (!Clamps(pending[0], owner, s) && NeverClamps(pending[1..], owner, Apply(pending[0], owner, s)))
  }

  lemma {:induction false} OneMorePending(pending: seq<Event>, e: Event, owner: string, s: MailboxStats)
    ensures CaughtUp(pending + [e], owner, s) == Apply(e, owner, CaughtUp(pending, owner, s))
    ensures NeverClamps(pending + [e], owner, s) <==> NeverClamps(pending, owner, s) && !Clamps(e, owner, CaughtUp(pending, owner, s))
    decreases |pending|
  {
    if pending == [] {
      assert [e][1..] == [];
    } else {
      assert (pending + [e])[1..] == pending[1..] + [e];
      OneMorePending(pending[1..], e, owner, Apply(pending[0], owner, s));
    }
  }

  ghost predicate Inv(x: System, now: Time) {
    && Tidy(x.ms, now)
    && forall o :: o in x.cache ==>
         && TotalsAgree(CaughtUp(x.pending, o, x.cache[o]), x.ms, o, now)
         && NeverClamps(x.pending, o, x.cache[o])
  }

  lemma StepInv(x: System, step: Step, now: Time)
    requires Inv(x, now) && Enabled(x, step, now)
    ensures Inv(Do(x, step), now)
  {
    match step
    case Mutate(op, stamp) =>
      var out := Perform(x.ms, op, stamp);
      PerformTidy(x.ms, op, now, stamp);
      forall o | o in x.cache
        ensures TotalsAgree(CaughtUp(Do(x, step).pending, o, x.cache[o]), out.ms, o, now)
        ensures NeverClamps(Do(x, step).pending, o, x.cache[o])
      {
        PerformTotals(CaughtUp(x.pending, o, x.cache[o]), x.ms, op, o, now, stamp);
        if out.event.Some? {
          OneMorePending(x.pending, out.event.value, o, x.cache[o]);
        }
      }
    case Deliver =>
    case Refresh(owner, s) =>
  }

  lemma {:induction false} RunInv(x: System, steps: seq<Step>, x': System, now: Time)
    requires Inv(x, now) && Run(x, steps, x', now)
    ensures Inv(x', now)
    decreases |steps|
  {
    if steps != [] {
      StepInv(x, steps[0], now);
      RunInv(Do(x, steps[0]), steps[1..], x', now);
    }
  }

  /** In every run, from any tidy store and an empty cache, every cached entry with its pending events
      applied has exactly the totals of a recount, globally and in every folder, and none of these
      events is held back by the clamp at zero. Once nothing is pending the cache itself is right. */
  lemma CachedTotalsAreRecounts(ms: map<Id, Message>, steps: seq<Step>, x: System, now: Time)
    requires Tidy(ms, now) && Run(System(ms, map[], []), steps, x, now)
    ensures forall o :: o in x.cache ==>
              && TotalsAgree(CaughtUp(x.pending, o, x.cache[o]), x.ms, o, now)
              && NeverClamps(x.pending, o, x.cache[o])
              && (x.pending == [] ==> TotalsAgree(x.cache[o], x.ms, o, now))
  {
    RunInv(System(ms, map[], []), steps, x, now);
  }
}
