/**
Mailbox statistics: the recount of a store (store/memory/stats.go), the cached
counters kept by event handlers (stats.go), and the mutations that emit the
events (mutate.go, send.go).
*/
module Stats {
  import opened Messages
  import opened Tally

  datatype Counts = Counts(total: int, unread: int)

  datatype MailboxStats = MailboxStats(total: int, unread: int, drafts: int, folders: map<string, Counts>) {
    /** A folder without an entry counts as empty. */
    function Folder(f: string): Counts {
      if f in folders then folders[f] else Counts(0, 0)
    }

    function SetFolder(f: string, c: Counts): MailboxStats {
      this.(folders := folders[f := c])
    }
  }

  const NO_STATS := MailboxStats(0, 0, 0, map[])

  // ---------------------------------------------------------------------
  // What the counters mean
  // ---------------------------------------------------------------------

  /** The message counts for this owner: no draft, and not scheduled for later. */
  predicate IsCounted(m: Message, owner: string, now: Time) {
    m.ownerId == owner && !m.isDraft && IsAvailable(m, now)
  }

  function Any(owner: string, now: Time): Message -> nat {
    (m: Message) => One(IsCounted(m, owner, now))
  }

  function Unread(owner: string, now: Time): Message -> nat {
    (m: Message) => One(IsCounted(m, owner, now) && !m.isRead)
  }

  function In(owner: string, f: string, now: Time): Message -> nat {
    (m: Message) => One(IsCounted(m, owner, now) && m.folderId == f)
  }

  function UnreadIn(owner: string, f: string, now: Time): Message -> nat {
    (m: Message) => One(IsCounted(m, owner, now) && m.folderId == f && !m.isRead)
  }

  function Draft(owner: string): Message -> nat {
    (m: Message) => One(m.ownerId == owner && m.isDraft)
  }

  /** The totals are those of the store. */
  ghost predicate TotalsAgree(s: MailboxStats, ms: map<Id, Message>, owner: string, now: Time) {
    && s.total == Total(ms, Any(owner, now))
    && forall f :: s.Folder(f).total == Total(ms, In(owner, f, now))
  }

  /** The unread counts are those of the store. */
  ghost predicate UnreadAgrees(s: MailboxStats, ms: map<Id, Message>, owner: string, now: Time) {
    && s.unread == Total(ms, Unread(owner, now))
    && forall f :: s.Folder(f).unread == Total(ms, UnreadIn(owner, f, now))
  }

  ghost predicate IsRecount(s: MailboxStats, ms: map<Id, Message>, owner: string, now: Time) {
    && TotalsAgree(s, ms, owner, now)
    && UnreadAgrees(s, ms, owner, now)
    && s.drafts == Total(ms, Draft(owner))
  }

  /** One message added to the running counters. */
  function CountMessage(s: MailboxStats, m: Message, owner: string, now: Time): MailboxStats {
    if m.ownerId != owner then s
    else if m.isDraft then s.(drafts := s.drafts + 1)
    else if !IsAvailable(m, now) then s
    else
      var c := s.Folder(m.folderId);
      var u := One(!m.isRead);
      s.(total := s.total + 1, unread := s.unread + u, folders := s.folders[m.folderId := Counts(c.total + 1, c.unread + u)])
  }

  lemma NothingToCount(owner: string, now: Time)
    ensures IsRecount(NO_STATS, map[], owner, now)
  {
  }

  lemma CountMessageRecounts(s: MailboxStats, ms: map<Id, Message>, id: Id, m: Message, owner: string, now: Time)
    requires id !in ms && IsRecount(s, ms, owner, now)
    ensures IsRecount(CountMessage(s, m, owner, now), ms[id := m], owner, now)
  {
    var s' := CountMessage(s, m, owner, now);
    TotalInsert(ms, Any(owner, now), id, m);
    TotalInsert(ms, Unread(owner, now), id, m);
    TotalInsert(ms, Draft(owner), id, m);
    forall f
      ensures s'.Folder(f).total == Total(ms[id := m], In(owner, f, now))
      ensures s'.Folder(f).unread == Total(ms[id := m], UnreadIn(owner, f, now))
    {
      TotalInsert(ms, In(owner, f, now), id, m);
      TotalInsert(ms, UnreadIn(owner, f, now), id, m);
      assert s.Folder(f).total == Total(ms, In(owner, f, now));
      assert s.Folder(f).unread == Total(ms, UnreadIn(owner, f, now));
    }
  }

  /** The recount in a single pass over the messages, in any order. */
  method Recount(ms: map<Id, Message>, owner: string, now: Time) returns (s: MailboxStats)
    ensures IsRecount(s, ms, owner, now)
    ensures CountsFields(s, ms, owner, now)
  {
    hide IsRecount, CountsFields;
    s := NO_STATS;
    var todo := ms.Keys;
    ghost var done: map<Id, Message> := map[];
    NothingToCount(owner, now);
    while todo != {}
      invariant todo <= ms.Keys && done == ms - todo
      invariant IsRecount(s, done, owner, now)
    {
      var id :| id in todo;
      var m := ms[id];
      CountMessageRecounts(s, done, id, m, owner, now);
      todo := todo - {id};
      done := done[id := m];
      if m.ownerId != owner {
        continue;
      }
      if m.isDraft {
        s := s.(drafts := s.drafts + 1);
        continue;
      }
      if !IsAvailable(m, now) {
        continue;
      }
      s := s.(total := s.total + 1);
      if !m.isRead {
        s := s.(unread := s.unread + 1);
      }
      var c := s.Folder(m.folderId);
      c := c.(total := c.total + 1);
      if !m.isRead {
        c := c.(unread := c.unread + 1);
      }
      s := s.SetFolder(m.folderId, c);
    }
    assert done == ms;
    RecountCounts(s, ms, owner, now);
  }

  /** The owner's messages the store shows, by fields. */
  function CountedIds(ms: map<Id, Message>, owner: string, now: Time): (ids: set<Id>)
    ensures ids <= ms.Keys
  {
    set id | id in ms && ms[id].ownerId == owner && !ms[id].isDraft && (ms[id].availableAt.None? || ms[id].availableAt.value <= now)
  }

  /** The counters are numbers of stored messages. */
  ghost predicate CountsFields(s: MailboxStats, ms: map<Id, Message>, owner: string, now: Time) {
    var ids := CountedIds(ms, owner, now);
    && s.total == |ids|
    && s.unread == |set id | id in ids && !ms[id].isRead|
    && s.drafts == |set id | id in ms && ms[id].ownerId == owner && ms[id].isDraft|
    && (forall f :: s.Folder(f).total == |set id | id in ids && ms[id].folderId == f|)
    && (forall f :: s.Folder(f).unread == |set id | id in ids && ms[id].folderId == f && !ms[id].isRead|)
  }

  lemma CountedTotals(ms: map<Id, Message>, owner: string, now: Time)
    ensures Total(ms, Any(owner, now)) == |CountedIds(ms, owner, now)|
    ensures Total(ms, Unread(owner, now)) == |set id | id in CountedIds(ms, owner, now) && !ms[id].isRead|
    ensures Total(ms, Draft(owner)) == |set id | id in ms && ms[id].ownerId == owner && ms[id].isDraft|
  {
    hide Total;
    var ids := CountedIds(ms, owner, now);
    TotalIsSize(ms, Any(owner, now), ids);
    TotalIsSize(ms, Unread(owner, now), set id | id in ids && !ms[id].isRead);
    TotalIsSize(ms, Draft(owner), set id | id in ms && ms[id].ownerId == owner && ms[id].isDraft);
  }

  lemma FolderTotals(ms: map<Id, Message>, owner: string, f: string, now: Time)
    ensures Total(ms, In(owner, f, now)) == |set id | id in CountedIds(ms, owner, now) && ms[id].folderId == f|
    ensures Total(ms, UnreadIn(owner, f, now)) == |set id | id in CountedIds(ms, owner, now) && ms[id].folderId == f && !ms[id].isRead|
  {
    hide Total;
    var ids := CountedIds(ms, owner, now);
    TotalIsSize(ms, In(owner, f, now), set id | id in ids && ms[id].folderId == f);
    TotalIsSize(ms, UnreadIn(owner, f, now), set id | id in ids && ms[id].folderId == f && !ms[id].isRead);
  }

  lemma RecountCounts(s: MailboxStats, ms: map<Id, Message>, owner: string, now: Time)
    requires IsRecount(s, ms, owner, now)
    ensures CountsFields(s, ms, owner, now)
  {
    hide Total, CountedIds, Any, Unread, Draft, In, UnreadIn;
    CountedTotals(ms, owner, now);
    forall f
      ensures s.Folder(f).total == |set id | id in CountedIds(ms, owner, now) && ms[id].folderId == f|
      ensures s.Folder(f).unread == |set id | id in CountedIds(ms, owner, now) && ms[id].folderId == f && !ms[id].isRead|
    {
      FolderTotals(ms, owner, f, now);
      assert s.Folder(f).total == Total(ms, In(owner, f, now));
      assert s.Folder(f).unread == Total(ms, UnreadIn(owner, f, now));
    }
  }

  // ---------------------------------------------------------------------
  // The event handlers
  // ---------------------------------------------------------------------

  datatype Event =
    | MessageSent(senderId: string, recipientIds: seq<string>)
    | MessageRead(userId: string, folderId: string)
    | MessageDeleted(userId: string, folderId: string, wasUnread: bool)
    | MessageMoved(userId: string, fromFolderId: string, toFolderId: string, wasUnread: bool)

  /** Counters are decremented but never below zero. */
  function Dec(n: int): int {
    if n > 0 then n - 1 else n
  }

  function SenderUpdate(s: MailboxStats): MailboxStats {
    var c := s.Folder(FOLDER_SENT);
    s.(total := s.total + 1).SetFolder(FOLDER_SENT, Counts(c.total + 1, c.unread))
  }

  function RecipientUpdate(s: MailboxStats): MailboxStats {
    var c := s.Folder(FOLDER_INBOX);
    s.(total := s.total + 1, unread := s.unread + 1).SetFolder(FOLDER_INBOX, Counts(c.total + 1, c.unread + 1))
  }

  function ReadUpdate(s: MailboxStats, f: string): MailboxStats {
    var s1 := s.(unread := Dec(s.unread));
    if f != "" && s1.Folder(f).unread > 0
    then s1.SetFolder(f, s1.Folder(f).(unread := s1.Folder(f).unread - 1))
    else s1
  }

  function DeletedUpdate(s: MailboxStats, f: string, wasUnread: bool): MailboxStats {
    var s1 := s.(total := Dec(s.total), unread := if wasUnread then Dec(s.unread) else s.unread);
    if f == "" then s1
    else
      var c := s1.Folder(f);
      s1.SetFolder(f, Counts(Dec(c.total), if wasUnread then Dec(c.unread) else c.unread))
  }

  function MovedUpdate(s: MailboxStats, from: string, to: string, wasUnread: bool): MailboxStats {
    var s1 :=
      if from == "" then s
      else
        var c := s.Folder(from);
        s.SetFolder(from, Counts(Dec(c.total), if wasUnread then Dec(c.unread) else c.unread));
    if to == "" then s1
    else
      var c := s1.Folder(to);
      s1.SetFolder(to, Counts(c.total + 1, if wasUnread then c.unread + 1 else c.unread))
  }

  function RecipientUpdates(s: MailboxStats, owner: string, recipientIds: seq<string>): MailboxStats {
    if recipientIds == [] then s
    else
      var n := |recipientIds| - 1;
      var s1 := RecipientUpdates(s, owner, recipientIds[..n]);
      if recipientIds[n] == owner then RecipientUpdate(s1) else s1
  }

  /** What an event does to the cached entry of one owner. */
  function Apply(e: Event, owner: string, s: MailboxStats): MailboxStats {
    match e
    case MessageSent(senderId, recipientIds) =>
      RecipientUpdates(if senderId == owner then SenderUpdate(s) else s, owner, recipientIds)
    case MessageRead(userId, f) => if userId == owner then ReadUpdate(s, f) else s
    case MessageDeleted(userId, f, wasUnread) => if userId == owner then DeletedUpdate(s, f, wasUnread) else s
    case MessageMoved(userId, from, to, wasUnread) => if userId == owner then MovedUpdate(s, from, to, wasUnread) else s
  }

  /** A decrement of a total that is held at zero. */
  predicate Clamps(e: Event, owner: string, s: MailboxStats) {
    match e
    case MessageDeleted(userId, f, _) => userId == owner && (s.total <= 0 || (f != "" && s.Folder(f).total <= 0))
    case MessageMoved(userId, from, _, _) => userId == owner && from != "" && s.Folder(from).total <= 0
    case _ => false
  }

  type Cache = map<string, MailboxStats>

  function ApplyAll(e: Event, cache: Cache): Cache {
    map o | o in cache :: Apply(e, o, cache[o])
  }

  class StatsService {
    var entries: Cache

    constructor ()
      ensures entries == map[]
    {
      entries := map[];
    }

    /** New sent message for the sender, new unread inbox message for every recipient. */
    method OnMessageSent(senderId: string, recipientIds: seq<string>)
      modifies this
      ensures entries == ApplyAll(MessageSent(senderId, recipientIds), old(entries))
    {
      if senderId in entries {
        entries := entries[senderId := SenderUpdate(entries[senderId])];
      }
      for i := 0 to |recipientIds|
        invariant entries == ApplyAll(MessageSent(senderId, recipientIds[..i]), old(entries))
      {
        assert recipientIds[..i + 1][..i] == recipientIds[..i];
        if recipientIds[i] in entries {
          entries := entries[recipientIds[i] := RecipientUpdate(entries[recipientIds[i]])];
        }
      }
      assert recipientIds[..|recipientIds|] == recipientIds;
    }

    method OnMessageRead(userId: string, f: string)
      modifies this
      ensures entries == ApplyAll(MessageRead(userId, f), old(entries))
    {
      if userId in entries {
        var s := entries[userId];
        if s.unread > 0 {
          s := s.(unread := s.unread - 1);
        }
        if f != "" {
          var c := s.Folder(f);
          if c.unread > 0 {
            s := s.SetFolder(f, c.(unread := c.unread - 1));
          }
        }
        entries := entries[userId := s];
      }
    }

    method OnMessageDeleted(userId: string, f: string, wasUnread: bool)
      modifies this
      ensures entries == ApplyAll(MessageDeleted(userId, f, wasUnread), old(entries))
    {
      if userId in entries {
        var s := entries[userId];
        if s.total > 0 {
          s := s.(total := s.total - 1);
        }
        if wasUnread && s.unread > 0 {
          s := s.(unread := s.unread - 1);
        }
        if f != "" {
          var c := s.Folder(f);
          if c.total > 0 {
            c := c.(total := c.total - 1);
          }
          if wasUnread && c.unread > 0 {
            c := c.(unread := c.unread - 1);
          }
          s := s.SetFolder(f, c);
        }
        entries := entries[userId := s];
      }
    }

    method OnMessageMoved(userId: string, from: string, to: string, wasUnread: bool)
      modifies this
      ensures entries == ApplyAll(MessageMoved(userId, from, to, wasUnread), old(entries))
    {
      if userId in entries {
        var s := entries[userId];
        if from != "" {
          var c := s.Folder(from);
          if c.total > 0 {
            c := c.(total := c.total - 1);
          }
          if wasUnread && c.unread > 0 {
            c := c.(unread := c.unread - 1);
          }
          s := s.SetFolder(from, c);
        }
        if to != "" {
          var c := s.Folder(to);
          c := c.(total := c.total + 1);
          if wasUnread {
            c := c.(unread := c.unread + 1);
          }
          s := s.SetFolder(to, c);
        }
        entries := entries[userId := s];
      }
    }
  }
}
