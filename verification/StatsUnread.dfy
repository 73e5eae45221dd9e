/**
The cached unread counts. The cache does not count the sender's own copies as
unread although the store keeps them unread, marking unread emits no event and
marking a read message again emits another one; these runs stay clear of both.
*/
module StatsUnread {
  import opened Messages
  import opened Tally
  import opened Stats
  import opened StatsRuns

  // ---------------------------------------------------------------------
  // Marking a whole folder read
  // ---------------------------------------------------------------------

  predicate IsUnreadIn(m: Message, userId: string, folderId: string) {
    !m.isDraft && m.ownerId == userId && m.folderId == folderId && !m.isRead
  }

  function ReadNow(m: Message, stamp: Time): Message {
    m.(isRead := true, readAt := Some(stamp), updatedAt := stamp)
  }

  function Marked(m: Message, userId: string, folderId: string, stamp: Time): Message {
    if IsUnreadIn(m, userId, folderId) then ReadNow(m, stamp) else m
  }

  function MarkedAll(ms: map<Id, Message>, userId: string, folderId: string, stamp: Time): map<Id, Message> {
    map id | id in ms :: Marked(ms[id], userId, folderId, stamp)
  }

  function Unmarked(userId: string, folderId: string): Message -> nat {
    (m: Message) => One(IsUnreadIn(m, userId, folderId))
  }

  /** The direct subtraction from a cached entry. */
  function ReadAllUpdate(s: MailboxStats, folderId: string, count: nat): MailboxStats {
    var c := s.Folder(folderId);
    s.(unread := if s.unread >= count then s.unread - count else 0)
     .SetFolder(folderId, c.(unread := if c.unread >= count then c.unread - count else 0))
  }

  function ReadAllCached(cache: Cache, userId: string, folderId: string, count: nat): Cache {
    if count > 0 && userId in cache then cache[userId := ReadAllUpdate(cache[userId], folderId, count)] else cache
  }

  lemma CountOne(ms: map<Id, Message>, todo: set<Id>, id: Id, w: Message -> nat)
    requires id in todo && todo <= ms.Keys
    ensures Total(ms - (todo - {id}), w) == Total(ms - todo, w) + w(ms[id])
  {
    TotalRemove(ms - (todo - {id}), w, id);
    assert ms - (todo - {id}) - {id} == ms - todo;
  }

  class ReadService {
    var messages: map<Id, Message>
    var entries: Cache

    constructor (ms: map<Id, Message>, cache: Cache)
      ensures messages == ms && entries == cache
    {
      messages, entries := ms, cache;
    }

    /** The store's bulk update: every unread message of the folder, counted. */
    method StoreMarkAllRead(userId: string, folderId: string, stamp: Time) returns (count: nat)
      modifies this`messages
      ensures messages == MarkedAll(old(messages), userId, folderId, stamp)
      ensures messages == map id | id in old(messages) ::
                var m := old(messages)[id];
                if !m.isDraft && m.ownerId == userId && m.folderId == folderId && !m.isRead
                then m.(isRead := true, readAt := Some(stamp), updatedAt := stamp) else m
      ensures count == Total(old(messages), Unmarked(userId, folderId))
    {
      hide Total;
      count := 0;
      var todo := messages.Keys;
      ghost var ms, w := messages, Unmarked(userId, folderId);
      assert Total(ms - todo, w) == 0 by {
        TotalZero(ms - todo, w);
      }
      while todo != {}
        invariant todo <= messages.Keys == ms.Keys
        invariant forall id :: id in ms ==>
                    messages[id] == if id in todo then ms[id] else Marked(ms[id], userId, folderId, stamp)
        invariant count == Total(ms - todo, w)
      {
        var id :| id in todo;
        CountOne(ms, todo, id, w);
        if IsUnreadIn(messages[id], userId, folderId) {
          messages := messages[id := ReadNow(messages[id], stamp)];
          count := count + 1;
        }
        todo := todo - {id};
      }
      assert ms - todo == ms;
    }

    /** The service call: the store first, then the cached entry of the user. */
    method MarkAllRead(userId: string, folderId: string, stamp: Time) returns (count: nat)
      modifies this
      ensures messages == MarkedAll(old(messages), userId, folderId, stamp)
      ensures count == Total(old(messages), Unmarked(userId, folderId))
      ensures entries == ReadAllCached(old(entries), userId, folderId, count)
    {
      hide Total, MarkedAll;
      count := StoreMarkAllRead(userId, folderId, stamp);
      if count > 0 && userId in entries {
        var s := entries[userId];
        if s.unread >= count {
          s := s.(unread := s.unread - count);
        } else {
          s := s.(unread := 0);
        }
        var c := s.Folder(folderId);
        if c.unread >= count {
          c := c.(unread := c.unread - count);
        } else {
          c := c.(unread := 0);
        }
        entries := entries[userId := s.SetFolder(folderId, c)];
      }
    }
  }

  // ---------------------------------------------------------------------
  // One change of one message
  // ---------------------------------------------------------------------

  /** An unread message makes the counts it belongs to positive. */
  lemma UnreadPositive(s: MailboxStats, ms: map<Id, Message>, id: Id, owner: string, now: Time)
    requires UnreadAgrees(s, ms, owner, now) && id in ms && IsCounted(ms[id], owner, now) && !ms[id].isRead
    ensures s.unread > 0 && s.Folder(ms[id].folderId).unread > 0
  {
    TotalRemove(ms, Unread(owner, now), id);
    TotalRemove(ms, UnreadIn(owner, ms[id].folderId, now), id);
    assert s.Folder(ms[id].folderId).unread == Total(ms, UnreadIn(owner, ms[id].folderId, now));
  }

  lemma InsertUnread(s: MailboxStats, s': MailboxStats, ms: map<Id, Message>, m: Message, owner: string, now: Time)
    requires UnreadAgrees(s, ms, owner, now) && m.id !in ms
    requires s'.unread == s.unread + Unread(owner, now)(m)
    requires forall f :: s'.Folder(f).unread == s.Folder(f).unread + UnreadIn(owner, f, now)(m)
    ensures UnreadAgrees(s', ms[m.id := m], owner, now)
  {
    TotalInsert(ms, Unread(owner, now), m.id, m);
    forall f ensures s'.Folder(f).unread == Total(ms[m.id := m], UnreadIn(owner, f, now)) {
      TotalInsert(ms, UnreadIn(owner, f, now), m.id, m);
      assert s.Folder(f).unread == Total(ms, UnreadIn(owner, f, now));
    }
  }

  lemma ReplaceUnread(s: MailboxStats, s': MailboxStats, ms: map<Id, Message>, id: Id, m': Message, owner: string, now: Time)
    requires UnreadAgrees(s, ms, owner, now) && id in ms
    requires s'.unread + Unread(owner, now)(ms[id]) == s.unread + Unread(owner, now)(m')
    requires forall f :: s'.Folder(f).unread + UnreadIn(owner, f, now)(ms[id]) == s.Folder(f).unread + UnreadIn(owner, f, now)(m')
    ensures UnreadAgrees(s', ms[id := m'], owner, now)
  {
    TotalUpdate(ms, Unread(owner, now), id, m');
    forall f ensures s'.Folder(f).unread == Total(ms[id := m'], UnreadIn(owner, f, now)) {
      TotalUpdate(ms, UnreadIn(owner, f, now), id, m');
      assert s.Folder(f).unread == Total(ms, UnreadIn(owner, f, now));
    }
  }

  lemma DeleteUnread(s: MailboxStats, ms: map<Id, Message>, id: Id, owner: string, now: Time)
    requires UnreadAgrees(s, ms, owner, now) && id in ms && !ms[id].isDraft && IsAvailable(ms[id], now) && ms[id].folderId != ""
    ensures UnreadAgrees(Apply(MessageDeleted(ms[id].ownerId, ms[id].folderId, !ms[id].isRead), owner, s), ms - {id}, owner, now)
  {
    var m := ms[id];
    var s' := Apply(MessageDeleted(m.ownerId, m.folderId, !m.isRead), owner, s);
    if m.ownerId == owner && !m.isRead {
      UnreadPositive(s, ms, id, owner, now);
    }
    TotalRemove(ms, Unread(owner, now), id);
    forall f ensures s'.Folder(f).unread == Total(ms - {id}, UnreadIn(owner, f, now)) {
      TotalRemove(ms, UnreadIn(owner, f, now), id);
      assert s.Folder(f).unread == Total(ms, UnreadIn(owner, f, now));
    }
  }

  lemma MoveUnread(s: MailboxStats, ms: map<Id, Message>, id: Id, to: string, owner: string, now: Time, stamp: Time)
    requires UnreadAgrees(s, ms, owner, now) && id in ms && !ms[id].isDraft && IsAvailable(ms[id], now)
    requires ms[id].folderId != "" && to != "" && ms[id].folderId != to
    ensures var out := MoveAndPublish(ms, ms[id].ownerId, id, to, stamp);
            UnreadAgrees(Apply(out.event.value, owner, s), out.ms, owner, now)
  {
    var out := MoveAndPublish(ms, ms[id].ownerId, id, to, stamp);
    if ms[id].ownerId == owner && !ms[id].isRead {
      UnreadPositive(s, ms, id, owner, now);
    }
    ReplaceUnread(s, Apply(out.event.value, owner, s), ms, id, out.ms[id], owner, now);
  }

  /** From agreeing counts, setting the read flag and applying the event it emits keeps them agreeing
      exactly when the message was unread, or is marked read again while nothing at all is unread. */
  lemma SetReadAgreesIff(s: MailboxStats, ms: map<Id, Message>, id: Id, read: bool, now: Time, stamp: Time)
    requires id in ms && UnreadAgrees(s, ms, ms[id].ownerId, now)
    requires !ms[id].isDraft && IsAvailable(ms[id], now) && ms[id].folderId != ""
    ensures var owner := ms[id].ownerId;
            var out := Perform(ms, SetRead(owner, id, read), stamp);
            var s' := if out.event.Some? then Apply(out.event.value, owner, s) else s;
            UnreadAgrees(s', out.ms, owner, now) <==> !ms[id].isRead || (read && s.unread == 0)
  {
    var m := ms[id];
    var owner := m.ownerId;
    var out := Perform(ms, SetRead(owner, id, read), stamp);
    var s' := if out.event.Some? then Apply(out.event.value, owner, s) else s;
    var m' := out.ms[id];
    TotalUpdate(ms, Unread(owner, now), id, m');
    if !m.isRead {
      UnreadPositive(s, ms, id, owner, now);
      ReplaceUnread(s, s', ms, id, m', owner, now);
    } else if read && s.unread == 0 {
      NoneUnread(s, ms, owner, now);
      assert s.Folder(m.folderId).unread == 0;
      ReplaceUnread(s, s', ms, id, m', owner, now);
    }
  }

  lemma NoneUnread(s: MailboxStats, ms: map<Id, Message>, owner: string, now: Time)
    requires UnreadAgrees(s, ms, owner, now) && s.unread == 0
    ensures forall f :: s.Folder(f).unread == 0
  {
    TotalZero(ms, Unread(owner, now));
    forall f ensures s.Folder(f).unread == 0 {
      forall id | id in ms ensures UnreadIn(owner, f, now)(ms[id]) == 0 {
        assert Unread(owner, now)(ms[id]) == 0;
      }
      TotalZero(ms, UnreadIn(owner, f, now));
      assert s.Folder(f).unread == Total(ms, UnreadIn(owner, f, now));
    }
  }

  // ---------------------------------------------------------------------
  // Sends and bulk reads
  // ---------------------------------------------------------------------

  lemma {:induction false} CopiesUnread(s: MailboxStats, ms: map<Id, Message>, copies: seq<Message>, owner: string, now: Time)
    requires UnreadAgrees(s, ms, owner, now)
    requires forall i :: 0 <= i < |copies| ==> NewIn(copies[i], FOLDER_INBOX, ms, now)
    requires forall i, j :: 0 <= i < j < |copies| ==> copies[i].id != copies[j].id
    ensures UnreadAgrees(RecipientUpdates(s, owner, Owners(copies)), StoreAll(ms, copies), owner, now)
  {
    hide Total, UnreadAgrees;
    if copies != [] {
      var n := |copies| - 1;
      CopiesUnread(s, ms, copies[..n], owner, now);
      StoreAllKeys(ms, copies[..n]);
      assert Owners(copies)[..n] == Owners(copies[..n]);
      var s1 := RecipientUpdates(s, owner, Owners(copies[..n]));
      var s2 := RecipientUpdates(s, owner, Owners(copies));
      assert s2 == if copies[n].ownerId == owner then RecipientUpdate(s1) else s1;
      InsertUnread(s1, s2, StoreAll(ms, copies[..n]), copies[n], owner, now);
    }
  }

  /** Storing messages and leaving some others out can be done in either order. */
  lemma {:induction false} StoreAllWithout(ms: map<Id, Message>, list: seq<Message>, out: set<Id>)
    requires forall i :: 0 <= i < |list| ==> list[i].id !in out
    ensures StoreAll(ms, list) - out == StoreAll(ms - out, list)
  {
    if list != [] {
      StoreAllWithout(ms, list[..|list| - 1], out);
    }
  }

  lemma SendUnread(s: MailboxStats, ms: map<Id, Message>, outgoing: set<Id>, op: Op, owner: string, now: Time, stamp: Time)
    requires op.Send? && Proper(op, ms, now) && outgoing <= ms.Keys && UnreadAgrees(s, ms - outgoing, owner, now)
    ensures Perform(ms, op, stamp).event.Some?
    ensures UnreadAgrees(Apply(Perform(ms, op, stamp).event.value, owner, s),
                         Perform(ms, op, stamp).ms - (outgoing + {op.copy.id}), owner, now)
  {
    var s1 := if op.copy.ownerId == owner then SenderUpdate(s) else s;
    var out := outgoing + {op.copy.id};
    assert forall f :: s1.Folder(f).unread == s.Folder(f).unread;
    assert ms[op.copy.id := op.copy] - out == ms - outgoing;
    StoreAllWithout(ms[op.copy.id := op.copy], op.copies, out);
    CopiesUnread(s1, ms - outgoing, op.copies, owner, now);
  }

  /** What marking a folder read takes off the number of unread messages. */
  lemma MarkedTotal(ms: map<Id, Message>, userId: string, folderId: string, owner: string, now: Time, stamp: Time)
    requires Tidy(ms, now)
    ensures Total(ms, Unread(owner, now)) == Total(MarkedAll(ms, userId, folderId, stamp), Unread(owner, now)) +
                                             (if userId == owner then Total(ms, Unmarked(userId, folderId)) else 0)
  {
    hide Total;
    var ms' := MarkedAll(ms, userId, folderId, stamp);
    if userId == owner {
      TotalAdds(ms, Unread(owner, now), ms', Unread(owner, now), ms, Unmarked(userId, folderId));
    } else {
      TotalSame(ms, Unread(owner, now), ms', Unread(owner, now));
    }
  }

  lemma MarkedTotalIn(ms: map<Id, Message>, userId: string, folderId: string, owner: string, f: string, now: Time, stamp: Time)
    requires Tidy(ms, now)
    ensures Total(ms, UnreadIn(owner, f, now)) == Total(MarkedAll(ms, userId, folderId, stamp), UnreadIn(owner, f, now)) +
                                                  (if userId == owner && f == folderId then Total(ms, Unmarked(userId, folderId)) else 0)
  {
    hide Total;
    var ms' := MarkedAll(ms, userId, folderId, stamp);
    if userId == owner && f == folderId {
      TotalAdds(ms, UnreadIn(owner, f, now), ms', UnreadIn(owner, f, now), ms, Unmarked(userId, folderId));
    } else {
      TotalSame(ms, UnreadIn(owner, f, now), ms', UnreadIn(owner, f, now));
    }
  }

  /** Marking a folder read takes exactly its unread messages off the counts of its owner. */
  lemma ReadAllUnread(s: MailboxStats, ms: map<Id, Message>, userId: string, folderId: string, owner: string, now: Time, stamp: Time)
    requires Tidy(ms, now) && UnreadAgrees(s, ms, owner, now)
    ensures var count := Total(ms, Unmarked(userId, folderId));
            var s' := if count > 0 && userId == owner then ReadAllUpdate(s, folderId, count) else s;
            UnreadAgrees(s', MarkedAll(ms, userId, folderId, stamp), owner, now)
  {
    hide MarkedAll, Unmarked, Tidy, Total, Unread, UnreadIn;
    var ms' := MarkedAll(ms, userId, folderId, stamp);
    var count := Total(ms, Unmarked(userId, folderId));
    var s' := if count > 0 && userId == owner then ReadAllUpdate(s, folderId, count) else s;
    MarkedTotal(ms, userId, folderId, owner, now, stamp);
    MarkedTotalIn(ms, userId, folderId, owner, folderId, now, stamp);
    assert s.Folder(folderId).unread == Total(ms, UnreadIn(owner, folderId, now));
    forall f ensures s'.Folder(f).unread == Total(ms', UnreadIn(owner, f, now)) {
      MarkedTotalIn(ms, userId, folderId, owner, f, now, stamp);
      assert s.Folder(f).unread == Total(ms, UnreadIn(owner, f, now));
    }
  }

  /** Subtracting more than the messages marked stays right exactly when no unread message is left at all: the
      counts are then held at zero. */
  lemma ReadAllExtra(s: MailboxStats, ms: map<Id, Message>, folderId: string, extra: nat, owner: string, now: Time, stamp: Time)
    requires Tidy(ms, now) && UnreadAgrees(s, ms, owner, now)
    ensures var count := Total(ms, Unmarked(owner, folderId)) + extra;
            var ms' := MarkedAll(ms, owner, folderId, stamp);
            var s' := if count > 0 then ReadAllUpdate(s, folderId, count) else s;
            UnreadAgrees(s', ms', owner, now) <==> extra == 0 || Total(ms', Unread(owner, now)) == 0
  {
    hide MarkedAll, Unmarked, Tidy, Total, Unread, UnreadIn;
    var ms' := MarkedAll(ms, owner, folderId, stamp);
    var count := Total(ms, Unmarked(owner, folderId)) + extra;
    var s' := if count > 0 then ReadAllUpdate(s, folderId, count) else s;
    MarkedTotal(ms, owner, folderId, owner, now, stamp);
    MarkedTotalIn(ms, owner, folderId, owner, folderId, now, stamp);
    FolderCleared(ms, owner, folderId, now, stamp);
    assert s.Folder(folderId).unread == Total(ms, UnreadIn(owner, folderId, now));
    if extra == 0 || Total(ms', Unread(owner, now)) == 0 {
      forall f ensures s'.Folder(f).unread == Total(ms', UnreadIn(owner, f, now)) {
        MarkedTotalIn(ms, owner, folderId, owner, f, now, stamp);
        assert s.Folder(f).unread == Total(ms, UnreadIn(owner, f, now));
      }
    }
  }

  /** Nothing in the folder is left unread. */
  lemma FolderCleared(ms: map<Id, Message>, owner: string, folderId: string, now: Time, stamp: Time)
    ensures Total(MarkedAll(ms, owner, folderId, stamp), UnreadIn(owner, folderId, now)) == 0
  {
    hide Total;
    TotalZero(MarkedAll(ms, owner, folderId, stamp), UnreadIn(owner, folderId, now));
  }

  predicate NoOutgoingUnreadIn(ms: map<Id, Message>, outgoing: set<Id>, userId: string, folderId: string) {
    forall id :: id in ms && id in outgoing ==> !IsUnreadIn(ms[id], userId, folderId)
  }

  /** All unread received messages of the user are in this folder. */
  predicate AllUnreadIn(ms: map<Id, Message>, outgoing: set<Id>, userId: string, folderId: string) {
    forall id :: id in ms && id !in outgoing && !ms[id].isDraft && ms[id].ownerId == userId && !ms[id].isRead ==> ms[id].folderId == folderId
  }

  /** From agreeing counts, marking a folder read keeps them agreeing exactly when no sent copy in the folder is
      unread, or the folder holds all the user's unread messages. */
  lemma ReadAllAgreesIff(s: MailboxStats, ms: map<Id, Message>, outgoing: set<Id>, userId: string, folderId: string, now: Time, stamp: Time)
    requires Tidy(ms, now) && UnreadAgrees(s, ms - outgoing, userId, now)
    ensures var count := Total(ms, Unmarked(userId, folderId));
            var s' := if count > 0 then ReadAllUpdate(s, folderId, count) else s;
            UnreadAgrees(s', MarkedAll(ms, userId, folderId, stamp) - outgoing, userId, now)
            <==> NoOutgoingUnreadIn(ms, outgoing, userId, folderId) || AllUnreadIn(ms, outgoing, userId, folderId)
  {
    var received, sent := ms - outgoing, ms - (ms.Keys - outgoing);
    MarkedAllWithout(ms, outgoing, userId, folderId, stamp);
    SentUnmarked(ms, outgoing, userId, folderId);
    LeftUnread(ms, outgoing, userId, folderId, now, stamp);
    assert Tidy(received, now);
    hide UnreadAgrees, ReadAllUpdate, Tidy, MarkedAll, Unmarked, NoOutgoingUnreadIn, AllUnreadIn, Unread, Total;
    ReadAllExtra(s, received, folderId, Total(sent, Unmarked(userId, folderId)), userId, now, stamp);
  }

  lemma SentUnmarked(ms: map<Id, Message>, outgoing: set<Id>, userId: string, folderId: string)
    ensures Total(ms - (ms.Keys - outgoing), Unmarked(userId, folderId)) == 0 <==> NoOutgoingUnreadIn(ms, outgoing, userId, folderId)
  {
    var sent := ms - (ms.Keys - outgoing);
    TotalZero(sent, Unmarked(userId, folderId));
    if Total(sent, Unmarked(userId, folderId)) == 0 {
      forall id | id in ms && id in outgoing ensures !IsUnreadIn(ms[id], userId, folderId) {
        assert id in sent && Unmarked(userId, folderId)(sent[id]) == 0;
      }
    }
  }

  lemma LeftUnread(ms: map<Id, Message>, outgoing: set<Id>, userId: string, folderId: string, now: Time, stamp: Time)
    requires Tidy(ms, now)
    ensures Total(MarkedAll(ms - outgoing, userId, folderId, stamp), Unread(userId, now)) == 0 <==> AllUnreadIn(ms, outgoing, userId, folderId)
  {
    hide Total;
    var left := MarkedAll(ms - outgoing, userId, folderId, stamp);
    TotalZero(left, Unread(userId, now));
    if forall k :: k in left ==> Unread(userId, now)(left[k]) == 0 {
      forall id | id in ms && id !in outgoing && !ms[id].isDraft && ms[id].ownerId == userId && !ms[id].isRead
        ensures ms[id].folderId == folderId
      {
        assert id in left && Unread(userId, now)(left[id]) == 0;
      }
    }
  }

  /** Marking a folder read, seen from the received messages. */
  lemma MarkedAllWithout(ms: map<Id, Message>, outgoing: set<Id>, userId: string, folderId: string, stamp: Time)
    ensures MarkedAll(ms, userId, folderId, stamp) - outgoing == MarkedAll(ms - outgoing, userId, folderId, stamp)
    ensures Total(ms, Unmarked(userId, folderId)) ==
            Total(ms - outgoing, Unmarked(userId, folderId)) + Total(ms - (ms.Keys - outgoing), Unmarked(userId, folderId))
  {
    TotalWithout(ms, Unmarked(userId, folderId), outgoing);
  }

  // ---------------------------------------------------------------------
  // Runs
  // ---------------------------------------------------------------------

  /** `outgoing` are the senders' own copies, the other messages were received. */
  datatype World = World(ms: map<Id, Message>, outgoing: set<Id>, cache: Cache)

  datatype Action =
    | Mutate(op: Op, stamp: Time)
    | MarkAllRead(userId: string, folderId: string, stamp: Time)
    | Refresh(owner: string, s: MailboxStats)

  predicate NoOutgoingUnread(ms: map<Id, Message>, outgoing: set<Id>, userId: string) {
    forall id :: id in ms && id in outgoing ==> !(ms[id].ownerId == userId && !ms[id].isDraft && !ms[id].isRead)
  }

  /** Only unread received messages are marked read, none is marked unread, sent copies stay in place,
      whole folders are marked read where the subtraction stays right (see `ReadAllAgreesIff`), and entries
      are recounted where no unread sent copy is counted (see `RecountAgreesIff`). */
  ghost predicate Allowed(w: World, a: Action, now: Time) {
    match a
    case Mutate(Send(_, _), _) => Proper(a.op, w.ms, now)
    case Mutate(SetRead(userId, id, read), _) =>
      Owns(w.ms, userId, id) ==> read && !w.ms[id].isRead && id !in w.outgoing
    case Mutate(op, _) => Owns(w.ms, op.userId, op.id) ==> op.id !in w.outgoing
    case MarkAllRead(userId, folderId, _) =>
      NoOutgoingUnreadIn(w.ms, w.outgoing, userId, folderId) || AllUnreadIn(w.ms, w.outgoing, userId, folderId)
    case Refresh(owner, s) => IsRecount(s, w.ms, owner, now) && NoOutgoingUnread(w.ms, w.outgoing, owner)
  }

  /** Every event reaches the cache before the next action. */
  ghost function Act(w: World, a: Action): World {
    match a
    case Mutate(op, stamp) =>
      var out := Perform(w.ms, op, stamp);
      World(out.ms,
            if op.Send? then w.outgoing + {op.copy.id} else w.outgoing,
            if out.event.Some? then ApplyAll(out.event.value, w.cache) else w.cache)
    case MarkAllRead(userId, folderId, stamp) =>
      w.(ms := MarkedAll(w.ms, userId, folderId, stamp),
         cache := ReadAllCached(w.cache, userId, folderId, Total(w.ms, Unmarked(userId, folderId))))
    case Refresh(owner, s) => w.(cache := w.cache[owner := s])
  }

  ghost predicate Reaches(w: World, actions: seq<Action>, w': World, now: Time)
    decreases |actions|
  {
    if actions == [] then w' == w
    else Allowed(w, actions[0], now) && Reaches(Act(w, actions[0]), actions[1..], w', now)
  }

  ghost predicate WorldInv(w: World, now: Time) {
    && Tidy(w.ms, now) && w.outgoing <= w.ms.Keys
    && forall o :: o in w.cache ==> UnreadAgrees(w.cache[o], w.ms - w.outgoing, o, now)
  }

  /** A recount agrees with the received messages exactly when no sent copy of the owner is unread. */
  lemma RecountAgreesIff(s: MailboxStats, ms: map<Id, Message>, outgoing: set<Id>, owner: string, now: Time)
    requires Tidy(ms, now) && IsRecount(s, ms, owner, now)
    ensures UnreadAgrees(s, ms - outgoing, owner, now) <==> NoOutgoingUnread(ms, outgoing, owner)
  {
    var sent := ms - (ms.Keys - outgoing);
    TotalWithout(ms, Unread(owner, now), outgoing);
    TotalZero(sent, Unread(owner, now));
    if UnreadAgrees(s, ms - outgoing, owner, now) {
      forall id | id in ms && id in outgoing ensures !(ms[id].ownerId == owner && !ms[id].isDraft && !ms[id].isRead) {
        assert id in sent && Unread(owner, now)(sent[id]) == 0;
      }
    }
    if NoOutgoingUnread(ms, outgoing, owner) {
      forall f ensures s.Folder(f).unread == Total(ms - outgoing, UnreadIn(owner, f, now)) {
        TotalWithout(ms, UnreadIn(owner, f, now), outgoing);
        TotalZero(sent, UnreadIn(owner, f, now));
        assert s.Folder(f).unread == Total(ms, UnreadIn(owner, f, now));
      }
    }
  }

  lemma SetReadUnread(s: MailboxStats, ms: map<Id, Message>, op: Op, owner: string, now: Time, stamp: Time)
    requires op.SetRead? && Owns(ms, op.userId, op.id) && !ms[op.id].isRead && Tidy(ms, now) && UnreadAgrees(s, ms, owner, now)
    ensures var out := Perform(ms, op, stamp);
            UnreadAgrees(if out.event.Some? then Apply(out.event.value, owner, s) else s, out.ms, owner, now)
  {
    if op.userId == owner {
      SetReadAgreesIff(s, ms, op.id, op.read, now, stamp);
    } else {
      ReplaceUnread(s, s, ms, op.id, Perform(ms, op, stamp).ms[op.id], owner, now);
    }
  }

  /** A mutation of a received message does not see the sent ones. */
  lemma PerformWithout(ms: map<Id, Message>, outgoing: set<Id>, op: Op, stamp: Time)
    requires !op.Send? && (Owns(ms, op.userId, op.id) ==> op.id !in outgoing)
    ensures Perform(ms, op, stamp).event == Perform(ms - outgoing, op, stamp).event
    ensures Perform(ms, op, stamp).ms - outgoing == Perform(ms - outgoing, op, stamp).ms
  {
  }

  lemma MutateReceived(s: MailboxStats, ms: map<Id, Message>, op: Op, owner: string, now: Time, stamp: Time)
    requires Tidy(ms, now) && UnreadAgrees(s, ms, owner, now)
    requires !op.Send? && (op.SetRead? && Owns(ms, op.userId, op.id) ==> !ms[op.id].isRead)
    ensures var out := Perform(ms, op, stamp);
            UnreadAgrees(if out.event.Some? then Apply(out.event.value, owner, s) else s, out.ms, owner, now)
  {
    hide UnreadAgrees, Apply;
    var out := Perform(ms, op, stamp);
    if op.SetRead? {
      if Owns(ms, op.userId, op.id) {
        SetReadUnread(s, ms, op, owner, now, stamp);
      }
    } else if out.event.Some? {
      if op.PermanentlyDelete? {
        DeleteUnread(s, ms, op.id, owner, now);
      } else {
        MoveUnread(s, ms, op.id, out.event.value.toFolderId, owner, now, stamp);
      }
    }
  }

  lemma MutateUnread(s: MailboxStats, w: World, op: Op, stamp: Time, owner: string, now: Time)
    requires Tidy(w.ms, now) && w.outgoing <= w.ms.Keys && UnreadAgrees(s, w.ms - w.outgoing, owner, now)
    requires Allowed(w, Action.Mutate(op, stamp), now)
    ensures var out := Perform(w.ms, op, stamp);
            UnreadAgrees(if out.event.Some? then Apply(out.event.value, owner, s) else s,
                         out.ms - Act(w, Action.Mutate(op, stamp)).outgoing, owner, now)
  {
    hide UnreadAgrees, Apply, Perform;
    if op.Send? {
      SendUnread(s, w.ms, w.outgoing, op, owner, now, stamp);
    } else {
      PerformWithout(w.ms, w.outgoing, op, stamp);
      MutateReceived(s, w.ms - w.outgoing, op, owner, now, stamp);
    }
  }

  lemma ReadAllInv(w: World, userId: string, folderId: string, stamp: Time, owner: string, now: Time)
    requires WorldInv(w, now) && owner in w.cache && Allowed(w, MarkAllRead(userId, folderId, stamp), now)
    ensures var w' := Act(w, MarkAllRead(userId, folderId, stamp));
            UnreadAgrees(w'.cache[owner], w'.ms - w'.outgoing, owner, now)
  {
    hide UnreadAgrees, MarkedAll, ReadAllUpdate, Unmarked, NoOutgoingUnreadIn, AllUnreadIn, Total;
    if owner == userId {
      ReadAllAgreesIff(w.cache[owner], w.ms, w.outgoing, userId, folderId, now, stamp);
    } else {
      var received := w.ms - w.outgoing;
      MarkedAllWithout(w.ms, w.outgoing, userId, folderId, stamp);
      ReadAllUnread(w.cache[owner], received, userId, folderId, owner, now, stamp);
    }
  }

  lemma ActInv(w: World, a: Action, now: Time)
    requires WorldInv(w, now) && Allowed(w, a, now)
    ensures WorldInv(Act(w, a), now)
  {
    var w' := Act(w, a);
    match a
    case Mutate(op, stamp) =>
      PerformTidy(w.ms, op, now, stamp);
      if op.Send? {
        StoreAllKeys(w.ms[op.copy.id := op.copy], op.copies);
      }
      forall o | o in w'.cache ensures UnreadAgrees(w'.cache[o], w'.ms - w'.outgoing, o, now) {
        MutateUnread(w.cache[o], w, op, stamp, o, now);
      }
    case MarkAllRead(userId, folderId, stamp) =>
      forall o | o in w'.cache ensures UnreadAgrees(w'.cache[o], w'.ms - w'.outgoing, o, now) {
        ReadAllInv(w, userId, folderId, stamp, o, now);
      }
    case Refresh(owner, s) => RecountAgreesIff(s, w.ms, w.outgoing, owner, now);
  }

  /** Of the bulk marks of a cached user exactly the allowed ones keep the counts right, and so of the recounts. */
  lemma AllowedIff(w: World, a: Action, now: Time)
    requires WorldInv(w, now)
    requires (a.MarkAllRead? && a.userId in w.cache) || (a.Refresh? && IsRecount(a.s, w.ms, a.owner, now))
    ensures Allowed(w, a, now) <==> WorldInv(Act(w, a), now)
  {
    hide UnreadAgrees, NoOutgoingUnreadIn, AllUnreadIn, NoOutgoingUnread, MarkedAll, ReadAllUpdate, IsRecount, Tidy;
    if Allowed(w, a, now) {
      ActInv(w, a, now);
    }
    if WorldInv(Act(w, a), now) {
      match a
      case MarkAllRead(userId, folderId, stamp) =>
        assert userId in Act(w, a).cache;
        ReadAllAgreesIff(w.cache[userId], w.ms, w.outgoing, userId, folderId, now, stamp);
      case Refresh(owner, s) =>
        assert owner in Act(w, a).cache;
        RecountAgreesIff(s, w.ms, w.outgoing, owner, now);
    }
  }

  lemma {:induction false} ReachesInv(w: World, actions: seq<Action>, w': World, now: Time)
    requires WorldInv(w, now) && Reaches(w, actions, w', now)
    ensures WorldInv(w', now)
    decreases |actions|
  {
    if actions != [] {
      ActInv(w, actions[0], now);
      ReachesInv(Act(w, actions[0]), actions[1..], w', now);
    }
  }

  /** In every run the cached unread counts, globally and in every folder, are the numbers of unread
      received messages of their owner. */
  lemma CachedUnreadIsReceivedUnread(w: World, actions: seq<Action>, w': World, now: Time)
    requires Tidy(w.ms, now) && w.outgoing <= w.ms.Keys && w.cache == map[] && Reaches(w, actions, w', now)
    ensures forall o :: o in w'.cache ==> UnreadAgrees(w'.cache[o], w'.ms - w'.outgoing, o, now)
  {
    ReachesInv(w, actions, w', now);
  }
}
