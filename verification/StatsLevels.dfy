/**
The two cache levels side by side: the handlers update the in-process entry and
increment the fields of the distributed hash (stats.go, statscache/redis/cache.go).
*/
module StatsLevels {
  import opened Messages
  import opened Decimals
  import opened Stats
  import opened StatsHash

  // ---------------------------------------------------------------------
  // Counters
  // ---------------------------------------------------------------------

  datatype Counter = CTotal | CUnread | CDraft | CFolderTotal(f: string) | CFolderUnread(f: string)

  function Field(c: Counter): string {
    match c
    case CTotal => TOTAL
    case CUnread => UNREAD
    case CDraft => DRAFT
    case CFolderTotal(f) => FolderTotal(f)
    case CFolderUnread(f) => FolderUnread(f)
  }

  function Of(s: MailboxStats, c: Counter): int {
    match c
    case CTotal => s.total
    case CUnread => s.unread
    case CDraft => s.drafts
    case CFolderTotal(f) => s.Folder(f).total
    case CFolderUnread(f) => s.Folder(f).unread
  }

  /** The counters that decoding sees: their folder ID has no colon. */
  predicate Plain(c: Counter) {
    (c.CFolderTotal? || c.CFolderUnread?) ==> ':' !in c.f
  }

  lemma FieldInjective(c: Counter, c': Counter)
    requires Field(c) == Field(c')
    ensures c == c'
  {
    hide FolderTotal, FolderUnread;
    if c.CFolderTotal? || c.CFolderUnread? {
      FieldsDiffer(c.f, if c'.CFolderTotal? || c'.CFolderUnread? then c'.f else "");
    }
    if c'.CFolderTotal? || c'.CFolderUnread? {
      FieldsDiffer(c'.f, if c.CFolderTotal? || c.CFolderUnread? then c.f else "");
    }
  }

  lemma PlainParses(h: Hash, c: Counter)
    requires WellFormed(h) && Plain(c)
    ensures Parses(h, Field(c))
  {
    hide ParseInt;
    if c.CFolderTotal? {
      FieldParts(c.f, TOTAL);
    } else if c.CFolderUnread? {
      FieldParts(c.f, UNREAD);
    }
  }

  /** The hash holds the counters of the entry; missing fields and folders count as zero. */
  ghost predicate Shows(h: Hash, s: MailboxStats) {
    && WellFormed(h)
    && forall c :: Plain(c) ==> Parses(h, Field(c)) && Num(h, Field(c)) == Of(s, c)
  }

  /** Equal counters, zero entries ignored. */
  ghost predicate Same(s: MailboxStats, s': MailboxStats) {
    forall c :: Plain(c) ==> Of(s, c) == Of(s', c)
  }

  lemma ShowsSame(h: Hash, s: MailboxStats, s': MailboxStats)
    requires Shows(h, s)
    ensures Shows(h, s') <==> Same(s, s')
  {
    hide WellFormed, Field, Of, Num, Parses, Plain;
    if Shows(h, s') {
      forall c | Plain(c) ensures Of(s, c) == Of(s', c) {
        assert Num(h, Field(c)) == Of(s, c);
      }
    }
  }

  /** A decoded hash shows the value it decodes to. */
  lemma DecodedShows(h: Hash, s: MailboxStats)
    requires Decodes(h, s)
    ensures Shows(h, s)
  {
    hide ParseInt, Split, FolderField;
    forall c | Plain(c) ensures Parses(h, Field(c)) && Num(h, Field(c)) == Of(s, c) {
      PlainParses(h, c);
      if (c.CFolderTotal? || c.CFolderUnread?) && c.f !in s.folders {
        NotYet(h, c.f);
      }
    }
  }

  lemma EncodedShows(h: Hash, s: MailboxStats)
    requires Encodes(h, s) && Fits(s)
    ensures Shows(h, s)
  {
    hide ParseInt, Split, FolderField, Print;
    DecodeEncodeIff(h, s);
    ParsePrint(s.total);
    ParsePrint(s.unread);
    ParsePrint(s.drafts);
    forall c | Plain(c) ensures Parses(h, Field(c)) && Num(h, Field(c)) == Of(s, c) {
      PlainParses(h, c);
      assert Field(c) in h <==> IsCounterField(Field(c), s.folders.Keys);
      if c.CFolderTotal? || c.CFolderUnread? {
        EncodedCounter(h, s, c);
      }
    }
  }

  lemma EncodedCounter(h: Hash, s: MailboxStats, c: Counter)
    requires Encodes(h, s) && Fits(s) && (c.CFolderTotal? || c.CFolderUnread?) && Parses(h, Field(c))
    ensures Num(h, Field(c)) == Of(s, c)
  {
    hide ParseInt, FolderField, Print;
    if c.f in s.folders {
      ParsePrint(s.folders[c.f].total);
      ParsePrint(s.folders[c.f].unread);
      assert IsCounterField(Field(c), s.folders.Keys);
    } else {
      assert Field(c) in h <==> IsCounterField(Field(c), s.folders.Keys);
      if Field(c) in h {
        FieldsDiffer(c.f, "");
        var f :| f in s.folders && (Field(c) == FolderTotal(f) || Field(c) == FolderUnread(f));
        FieldsDiffer(c.f, f);
        FieldsDiffer(f, c.f);
        assert false;
      }
    }
  }

  // ---------------------------------------------------------------------
  // Increments
  // ---------------------------------------------------------------------

  /** A field that does not hold a number, or would leave the 64-bit range, is left alone. */
  function IncrBy(h: Hash, c: Counter, delta: int): Hash {
    var k := Field(c);
    if Parses(h, k) && IsInt64(Num(h, k) + delta) then h[k := Print(Num(h, k) + delta)] else h
  }

  /** The unclamped update of one counter. */
  function Add(s: MailboxStats, c: Counter, delta: int): MailboxStats {
    match c
    case CTotal => s.(total := s.total + delta)
    case CUnread => s.(unread := s.unread + delta)
    case CDraft => s.(drafts := s.drafts + delta)
    case CFolderTotal(f) => s.SetFolder(f, s.Folder(f).(total := s.Folder(f).total + delta))
    case CFolderUnread(f) => s.SetFolder(f, s.Folder(f).(unread := s.Folder(f).unread + delta))
  }

  lemma IncrByWellFormed(h: Hash, c: Counter, delta: int)
    requires WellFormed(h)
    ensures WellFormed(IncrBy(h, c, delta))
  {
    hide ParseInt, Split, Print, Field;
    if Parses(h, Field(c)) {
      ParsePrint(Num(h, Field(c)) + delta);
    }
  }

  lemma IncrByShows(h: Hash, s: MailboxStats, c: Counter, delta: int)
    requires Shows(h, s) && (Plain(c) ==> IsInt64(Of(s, c) + delta))
    ensures Shows(IncrBy(h, c, delta), Add(s, c, delta))
  {
    hide ParseInt, Split, Print, Field;
    var h', s' := IncrBy(h, c, delta), Add(s, c, delta);
    IncrByWellFormed(h, c, delta);
    forall c' | Plain(c') ensures Parses(h', Field(c')) && Num(h', Field(c')) == Of(s', c') {
      PlainParses(h', c');
      assert Num(h, Field(c')) == Of(s, c');
      if c' == c {
        ParsePrint(Of(s, c) + delta);
      } else if Field(c') == Field(c) {
        FieldInjective(c', c);
      }
    }
  }

  // ---------------------------------------------------------------------
  // The handlers' increments
  // ---------------------------------------------------------------------

  function SenderIncr(h: Hash): Hash {
    IncrBy(IncrBy(h, CTotal, 1), CFolderTotal(FOLDER_SENT), 1)
  }

  function RecipientIncr(h: Hash): Hash {
    IncrBy(IncrBy(IncrBy(IncrBy(h, CTotal, 1), CUnread, 1), CFolderTotal(FOLDER_INBOX), 1), CFolderUnread(FOLDER_INBOX), 1)
  }

  function ReadIncr(h: Hash, f: string): Hash {
    var h1 := IncrBy(h, CUnread, -1);
    if f != "" then IncrBy(h1, CFolderUnread(f), -1) else h1
  }

  /** Both counters of a folder, the unread one only for an unread message. */
  function FolderIncr(h: Hash, f: string, unread: bool, delta: int): Hash {
    if f == "" then h
    else
      var h1 := IncrBy(h, CFolderTotal(f), delta);
      if unread then IncrBy(h1, CFolderUnread(f), delta) else h1
  }

  function DeletedIncr(h: Hash, f: string, wasUnread: bool): Hash {
    var h1 := IncrBy(h, CTotal, -1);
    FolderIncr(if wasUnread then IncrBy(h1, CUnread, -1) else h1, f, wasUnread, -1)
  }

  function MovedIncr(h: Hash, from: string, to: string, wasUnread: bool): Hash {
    FolderIncr(FolderIncr(h, from, wasUnread, -1), to, wasUnread, 1)
  }

  function RecipientIncrs(h: Hash, owner: string, recipientIds: seq<string>): Hash {
    if recipientIds == [] then h
    else
      var n := |recipientIds| - 1;
      var h1 := RecipientIncrs(h, owner, recipientIds[..n]);
      if recipientIds[n] == owner then RecipientIncr(h1) else h1
  }

  /** What an event does to the hash of one owner. */
  function HashApply(e: Event, owner: string, h: Hash): Hash {
    match e
    case MessageSent(senderId, recipientIds) =>
      RecipientIncrs(if senderId == owner then SenderIncr(h) else h, owner, recipientIds)
    case MessageRead(userId, f) => if userId == owner then ReadIncr(h, f) else h
    case MessageDeleted(userId, f, wasUnread) => if userId == owner then DeletedIncr(h, f, wasUnread) else h
    case MessageMoved(userId, from, to, wasUnread) => if userId == owner then MovedIncr(h, from, to, wasUnread) else h
  }

  // ---------------------------------------------------------------------
  // One event on both levels
  // ---------------------------------------------------------------------

  /** Every counter can still be decremented, and be incremented n times. */
  ghost predicate Room(s: MailboxStats, n: nat) {
    forall c :: Plain(c) ==> MIN_INT64 < Of(s, c) <= MAX_INT64 - n
  }

  /** The folder counters that a removal decrements are positive. */
  predicate FolderHas(s: MailboxStats, f: string, unread: bool) {
    f != "" && ':' !in f ==> s.Folder(f).total > 0 && (unread ==> s.Folder(f).unread > 0)
  }

  /** No counter the event decrements is already zero. */
  predicate Enough(e: Event, owner: string, s: MailboxStats) {
    match e
    case MessageSent(_, _) => true
    case MessageRead(userId, f) =>
      userId == owner ==> s.unread > 0 && (f != "" && ':' !in f ==> s.Folder(f).unread > 0)
    case MessageDeleted(userId, f, wasUnread) =>
      userId == owner ==> s.total > 0 && (wasUnread ==> s.unread > 0) && FolderHas(s, f, wasUnread)
    case MessageMoved(userId, from, _, wasUnread) => userId == owner ==> FolderHas(s, from, wasUnread)
  }

  function Size(e: Event): nat {
    if e.MessageSent? then |e.recipientIds| + 1 else 1
  }

  lemma SenderLevels(h: Hash, s: MailboxStats)
    requires Shows(h, s) && Room(s, 1)
    ensures Shows(SenderIncr(h), SenderUpdate(s))
  {
    hide Shows, IncrBy;
    var c2 := CFolderTotal(FOLDER_SENT);
    var s1 := Add(s, CTotal, 1);
    assert Of(s, CTotal) <= MAX_INT64 - 1 && Of(s, c2) <= MAX_INT64 - 1;
    IncrByShows(h, s, CTotal, 1);
    IncrByShows(IncrBy(h, CTotal, 1), s1, c2, 1);
    ShowsSame(SenderIncr(h), Add(s1, c2, 1), SenderUpdate(s));
  }

  lemma RecipientLevels(h: Hash, s: MailboxStats)
    requires Shows(h, s) && Room(s, 1)
    ensures Shows(RecipientIncr(h), RecipientUpdate(s))
  {
    hide Shows, IncrBy;
    var c3, c4 := CFolderTotal(FOLDER_INBOX), CFolderUnread(FOLDER_INBOX);
    assert Of(s, CTotal) < MAX_INT64 && Of(s, CUnread) < MAX_INT64 && Of(s, c3) < MAX_INT64 && Of(s, c4) < MAX_INT64;
    var s1 := Add(s, CTotal, 1);
    var s2 := Add(s1, CUnread, 1);
    var s3 := Add(s2, c3, 1);
    var h1 := IncrBy(h, CTotal, 1);
    var h2 := IncrBy(h1, CUnread, 1);
    IncrByShows(h, s, CTotal, 1);
    IncrByShows(h1, s1, CUnread, 1);
    IncrByShows(h2, s2, c3, 1);
    IncrByShows(IncrBy(h2, c3, 1), s3, c4, 1);
    ShowsSame(RecipientIncr(h), Add(s3, c4, 1), RecipientUpdate(s));
  }

  function FolderAdd(s: MailboxStats, f: string, unread: bool, delta: int): MailboxStats {
    if f == "" then s
    else
      var s1 := Add(s, CFolderTotal(f), delta);
      if unread then Add(s1, CFolderUnread(f), delta) else s1
  }

  lemma FolderLevels(h: Hash, s: MailboxStats, f: string, unread: bool, delta: int)
    requires Shows(h, s)
    requires ':' !in f ==> IsInt64(s.Folder(f).total + delta) && IsInt64(s.Folder(f).unread + delta)
    ensures Shows(FolderIncr(h, f, unread, delta), FolderAdd(s, f, unread, delta))
  {
    hide Shows, IncrBy;
    if f != "" {
      IncrByShows(h, s, CFolderTotal(f), delta);
      if unread {
        IncrByShows(IncrBy(h, CFolderTotal(f), delta), Add(s, CFolderTotal(f), delta), CFolderUnread(f), delta);
      }
    }
  }

  lemma RoomAt(s: MailboxStats, n: nat, f: string)
    requires Room(s, n)
    ensures MIN_INT64 < s.total <= MAX_INT64 - n && MIN_INT64 < s.unread <= MAX_INT64 - n
    ensures ':' !in f ==> MIN_INT64 < s.Folder(f).total <= MAX_INT64 - n && MIN_INT64 < s.Folder(f).unread <= MAX_INT64 - n
  {
    assert Of(s, CTotal) <= MAX_INT64 - n && Of(s, CUnread) <= MAX_INT64 - n;
    assert Plain(CFolderTotal(f)) ==> Of(s, CFolderTotal(f)) <= MAX_INT64 - n;
    assert Plain(CFolderUnread(f)) ==> Of(s, CFolderUnread(f)) <= MAX_INT64 - n;
  }

  lemma ReadLevels(h: Hash, s: MailboxStats, owner: string, f: string)
    requires Shows(h, s) && Room(s, 1)
    ensures Shows(ReadIncr(h, f), ReadUpdate(s, f)) <==> Enough(MessageRead(owner, f), owner, s)
  {
    hide Shows, IncrBy, Room;
    RoomAt(s, 1, f);
    IncrByShows(h, s, CUnread, -1);
    var s1 := Add(s, CUnread, -1);
    var s2 := if f != "" then Add(s1, CFolderUnread(f), -1) else s1;
    if f != "" {
      IncrByShows(IncrBy(h, CUnread, -1), s1, CFolderUnread(f), -1);
    }
    var s' := ReadUpdate(s, f);
    ShowsSame(ReadIncr(h, f), s2, s');
    if Same(s2, s') {
      assert Of(s2, CUnread) == Of(s', CUnread);
      assert Plain(CFolderUnread(f)) ==> Of(s2, CFolderUnread(f)) == Of(s', CFolderUnread(f));
    }
  }

  lemma DeletedLevels(h: Hash, s: MailboxStats, owner: string, f: string, wasUnread: bool)
    requires Shows(h, s) && Room(s, 1)
    ensures Shows(DeletedIncr(h, f, wasUnread), DeletedUpdate(s, f, wasUnread)) <==>
            Enough(MessageDeleted(owner, f, wasUnread), owner, s)
  {
    hide Shows, IncrBy, Room;
    RoomAt(s, 1, f);
    var s1 := Add(s, CTotal, -1);
    var s2 := if wasUnread then Add(s1, CUnread, -1) else s1;
    var h1 := IncrBy(h, CTotal, -1);
    IncrByShows(h, s, CTotal, -1);
    if wasUnread {
      IncrByShows(h1, s1, CUnread, -1);
    }
    FolderLevels(if wasUnread then IncrBy(h1, CUnread, -1) else h1, s2, f, wasUnread, -1);
    var s3, s' := FolderAdd(s2, f, wasUnread, -1), DeletedUpdate(s, f, wasUnread);
    ShowsSame(DeletedIncr(h, f, wasUnread), s3, s');
    if Same(s3, s') {
      assert Of(s3, CTotal) == Of(s', CTotal) && Of(s3, CUnread) == Of(s', CUnread);
      assert Plain(CFolderTotal(f)) ==> Of(s3, CFolderTotal(f)) == Of(s', CFolderTotal(f));
      assert Plain(CFolderUnread(f)) ==> Of(s3, CFolderUnread(f)) == Of(s', CFolderUnread(f));
    }
  }

  /** Moving by two additions is the clamping move exactly when the folder left behind has enough. */
  lemma MovedSame(s: MailboxStats, from: string, to: string, wasUnread: bool)
    ensures Same(FolderAdd(FolderAdd(s, from, wasUnread, -1), to, wasUnread, 1), MovedUpdate(s, from, to, wasUnread)) <==>
            FolderHas(s, from, wasUnread)
  {
    var s', s2 := MovedUpdate(s, from, to, wasUnread), FolderAdd(FolderAdd(s, from, wasUnread, -1), to, wasUnread, 1);
    if Same(s2, s') {
      assert Plain(CFolderTotal(from)) ==> Of(s2, CFolderTotal(from)) == Of(s', CFolderTotal(from));
      assert Plain(CFolderUnread(from)) ==> Of(s2, CFolderUnread(from)) == Of(s', CFolderUnread(from));
    }
  }

  lemma MovedLevels(h: Hash, s: MailboxStats, owner: string, from: string, to: string, wasUnread: bool)
    requires Shows(h, s) && Room(s, 1)
    ensures Shows(MovedIncr(h, from, to, wasUnread), MovedUpdate(s, from, to, wasUnread)) <==>
            Enough(MessageMoved(owner, from, to, wasUnread), owner, s)
  {
    hide Shows, FolderIncr, Room, Same, MovedUpdate, FolderHas;
    RoomAt(s, 1, from);
    RoomAt(s, 1, to);
    FolderLevels(h, s, from, wasUnread, -1);
    var s1 := FolderAdd(s, from, wasUnread, -1);
    FolderLevels(FolderIncr(h, from, wasUnread, -1), s1, to, wasUnread, 1);
    ShowsSame(MovedIncr(h, from, to, wasUnread), FolderAdd(s1, to, wasUnread, 1), MovedUpdate(s, from, to, wasUnread));
    MovedSame(s, from, to, wasUnread);
  }

  lemma {:induction false} RecipientsLevels(h: Hash, s: MailboxStats, owner: string, recipientIds: seq<string>, spare: nat)
    requires Shows(h, s) && Room(s, |recipientIds| + spare)
    ensures Shows(RecipientIncrs(h, owner, recipientIds), RecipientUpdates(s, owner, recipientIds))
    ensures Room(RecipientUpdates(s, owner, recipientIds), spare)
  {
    if recipientIds != [] {
      var n := |recipientIds| - 1;
      RecipientsLevels(h, s, owner, recipientIds[..n], spare + 1);
      var s1 := RecipientUpdates(s, owner, recipientIds[..n]);
      RoomAfterOne(s1, spare);
      if recipientIds[n] == owner {
        RecipientLevels(RecipientIncrs(h, owner, recipientIds[..n]), s1);
      }
    }
  }

  lemma RoomAfterOne(s: MailboxStats, spare: nat)
    requires Room(s, spare + 1)
    ensures Room(s, spare) && Room(s, 1) && Room(SenderUpdate(s), spare) && Room(RecipientUpdate(s), spare)
  {
    forall c | Plain(c)
      ensures Of(SenderUpdate(s), c) <= Of(s, c) + 1 && Of(s, c) <= Of(SenderUpdate(s), c)
      ensures Of(RecipientUpdate(s), c) <= Of(s, c) + 1 && Of(s, c) <= Of(RecipientUpdate(s), c)
      ensures MIN_INT64 < Of(s, c) <= MAX_INT64 - spare - 1
    {
    }
  }

  /** After any event the hash still shows the entry, exactly when no counter it decrements was at zero. */
  lemma EventLevelsIff(e: Event, owner: string, h: Hash, s: MailboxStats)
    requires Shows(h, s) && Room(s, Size(e))
    ensures Shows(HashApply(e, owner, h), Apply(e, owner, s)) <==> Enough(e, owner, s)
  {
    hide Shows, Room;
    match e
    case MessageSent(senderId, recipientIds) =>
      RoomAfterOne(s, |recipientIds|);
      if senderId == owner {
        SenderLevels(h, s);
        RecipientsLevels(SenderIncr(h), SenderUpdate(s), owner, recipientIds, 0);
      } else {
        RecipientsLevels(h, s, owner, recipientIds, 0);
      }
    case MessageRead(_, f) => ReadLevels(h, s, owner, f);
    case MessageDeleted(_, f, wasUnread) => DeletedLevels(h, s, owner, f, wasUnread);
    case MessageMoved(_, from, to, wasUnread) => MovedLevels(h, s, owner, from, to, wasUnread);
  }

  // ---------------------------------------------------------------------
  // The distributed cache
  // ---------------------------------------------------------------------

  function HashApplyAll(e: Event, hashes: map<string, Hash>): map<string, Hash> {
    map o | o in hashes :: HashApply(e, o, hashes[o])
  }

  function Existing(hashes: map<string, Hash>, ownerId: string): Hash {
    if ownerId in hashes then hashes[ownerId] else map[]
  }

  function Put(hashes: map<string, Hash>, ownerId: string, h: Hash): map<string, Hash> {
    if ownerId in hashes then hashes[ownerId := h] else hashes
  }

  /** Setting overwrites fields but removes none, so the new value is read back exactly when the old
      hash named no folder the new value lacks. */
  lemma SetReadsBackIff(h0: Hash, h: Hash, s: MailboxStats)
    requires Encodes(h, s) && Fits(s) && WellFormed(h0) && forall f :: f in s.folders ==> ':' !in f
    ensures Decodes(h0 + h, s) <==> FolderIds(h0) <= s.folders.Keys
  {
    hide ParseInt, Split, Print, FolderField;
    DecodeEncodeIff(h, s);
    MergedFolders(h0, h, s);
    forall f | f in s.folders ensures FolderTotal(f) in h && FolderUnread(f) in h {
      assert IsCounterField(FolderTotal(f), s.folders.Keys) && IsCounterField(FolderUnread(f), s.folders.Keys);
    }
    MergedDecodes(h0, h, s);
  }

  lemma MergedDecodes(h0: Hash, h: Hash, s: MailboxStats)
    requires WellFormed(h0) && Decodes(h, s) && FolderIds(h0 + h) == FolderIds(h0) + s.folders.Keys
    requires {TOTAL, UNREAD, DRAFT} <= h.Keys && forall f :: f in s.folders ==> FolderTotal(f) in h && FolderUnread(f) in h
    ensures Decodes(h0 + h, s) <==> FolderIds(h0) <= s.folders.Keys
  {
    hide ParseInt, IsFolderField, FolderIds, FolderTotal, FolderUnread;
    var h' := h0 + h;
    assert TOTAL in h && UNREAD in h && DRAFT in h;
    assert WellFormed(h');
  }

  lemma MergedFolders(h0: Hash, h: Hash, s: MailboxStats)
    requires Encodes(h, s) && forall f :: f in s.folders ==> ':' !in f
    ensures FolderIds(h0 + h) == FolderIds(h0) + s.folders.Keys
  {
    EncodedFolders(h, s);
    hide Encodes, IsFolderField, FolderOf;
    forall f | f in FolderIds(h0) + FolderIds(h) ensures f in FolderIds(h0 + h) {
      var k :| (k in h0 || k in h) && IsFolderField(k) && FolderOf(k) == f;
      assert k in h0 + h;
    }
  }

  lemma SenderCounted(hashes: map<string, Hash>, senderId: string)
    ensures Put(hashes, senderId, SenderIncr(Existing(hashes, senderId))) == HashApplyAll(MessageSent(senderId, []), hashes)
  {
    hide SenderIncr;
  }

  lemma RecipientCounted(hashes: map<string, Hash>, senderId: string, recipientIds: seq<string>, i: nat)
    requires i < |recipientIds|
    ensures var h := HashApplyAll(MessageSent(senderId, recipientIds[..i]), hashes);
            Put(h, recipientIds[i], RecipientIncr(Existing(h, recipientIds[i]))) ==
            HashApplyAll(MessageSent(senderId, recipientIds[..i + 1]), hashes)
  {
    hide SenderIncr, RecipientIncr;
    assert recipientIds[..i + 1][..i] == recipientIds[..i];
  }

  class DistCache {
    var hashes: map<string, Hash>

    constructor ()
      ensures hashes == map[]
    {
      hashes := map[];
    }

    /** A hash that cannot be decoded is dropped. */
    method Get(ownerId: string) returns (r: Option<MailboxStats>)
      modifies this
      ensures r.Some? ==> ownerId in hashes && Decodes(hashes[ownerId], r.value)
      ensures r.Some? <==> Existing(old(hashes), ownerId) != map[] && WellFormed(old(hashes)[ownerId])
      ensures hashes == if ownerId in old(hashes) && !WellFormed(old(hashes)[ownerId]) then old(hashes) - {ownerId} else old(hashes)
    {
      if ownerId !in hashes || hashes[ownerId] == map[] {
        return None;
      }
      r := DecodeStats(hashes[ownerId]);
      if r.None? {
        hashes := hashes - {ownerId};
      }
    }

    method Set(ownerId: string, s: MailboxStats)
      modifies this
      ensures exists h :: Encodes(h, s) && hashes == old(hashes)[ownerId := Existing(old(hashes), ownerId) + h]
    {
      var h := EncodeStats(s);
      hashes := hashes[ownerId := Existing(hashes, ownerId) + h];
    }

    method Invalidate(ownerId: string)
      modifies this
      ensures hashes == old(hashes) - {ownerId}
    {
      hashes := hashes - {ownerId};
    }

    /** No entry is created for an owner without one. */
    method Incr(ownerId: string, c: Counter, delta: int)
      modifies this
      ensures hashes == Put(old(hashes), ownerId, IncrBy(Existing(old(hashes), ownerId), c, delta))
    {
      if ownerId in hashes {
        var h, k := hashes[ownerId], Field(c);
        if Parses(h, k) && IsInt64(Num(h, k) + delta) {
          hashes := hashes[ownerId := h[k := Print(Num(h, k) + delta)]];
        }
      }
    }

    method IncrFolder(ownerId: string, f: string, unread: bool, delta: int)
      modifies this
      ensures hashes == Put(old(hashes), ownerId, FolderIncr(Existing(old(hashes), ownerId), f, unread, delta))
    {
      hide IncrBy;
      if f != "" {
        Incr(ownerId, CFolderTotal(f), delta);
        if unread {
          Incr(ownerId, CFolderUnread(f), delta);
        }
      }
    }

    method IncrRecipient(recipientId: string)
      modifies this
      ensures hashes == Put(old(hashes), recipientId, RecipientIncr(Existing(old(hashes), recipientId)))
    {
      hide IncrBy;
      Incr(recipientId, CTotal, 1);
      Incr(recipientId, CUnread, 1);
      Incr(recipientId, CFolderTotal(FOLDER_INBOX), 1);
      Incr(recipientId, CFolderUnread(FOLDER_INBOX), 1);
    }

    method IncrSender(senderId: string)
      modifies this
      ensures hashes == Put(old(hashes), senderId, SenderIncr(Existing(old(hashes), senderId)))
    {
      hide IncrBy;
      Incr(senderId, CTotal, 1);
      Incr(senderId, CFolderTotal(FOLDER_SENT), 1);
    }

    method OnMessageSent(senderId: string, recipientIds: seq<string>)
      modifies this
      ensures hashes == HashApplyAll(MessageSent(senderId, recipientIds), old(hashes))
    {
      hide SenderIncr, RecipientIncr, HashApplyAll, Put, Existing;
      SenderCounted(hashes, senderId);
      IncrSender(senderId);
      for i := 0 to |recipientIds|
        invariant hashes == HashApplyAll(MessageSent(senderId, recipientIds[..i]), old(hashes))
      {
        RecipientCounted(old(hashes), senderId, recipientIds, i);
        IncrRecipient(recipientIds[i]);
      }
      assert recipientIds[..|recipientIds|] == recipientIds;
    }

    method OnMessageRead(userId: string, f: string)
      modifies this
      ensures hashes == HashApplyAll(MessageRead(userId, f), old(hashes))
    {
      hide IncrBy;
      Incr(userId, CUnread, -1);
      if f != "" {
        Incr(userId, CFolderUnread(f), -1);
      }
    }

    method OnMessageDeleted(userId: string, f: string, wasUnread: bool)
      modifies this
      ensures hashes == HashApplyAll(MessageDeleted(userId, f, wasUnread), old(hashes))
    {
      hide IncrBy, FolderIncr;
      Incr(userId, CTotal, -1);
      if wasUnread {
        Incr(userId, CUnread, -1);
      }
      IncrFolder(userId, f, wasUnread, -1);
    }

    method OnMessageMoved(userId: string, from: string, to: string, wasUnread: bool)
      modifies this
      ensures hashes == HashApplyAll(MessageMoved(userId, from, to, wasUnread), old(hashes))
    {
      hide IncrBy, FolderIncr;
      IncrFolder(userId, from, wasUnread, -1);
      IncrFolder(userId, to, wasUnread, 1);
    }
  }

  // ---------------------------------------------------------------------
  // Runs of both levels
  // ---------------------------------------------------------------------

  datatype Levels = Levels(entries: Cache, hashes: map<string, Hash>)

  datatype Step =
    | Deliver(e: Event)                                  // both levels handle the event
    | Miss(owner: string, s: MailboxStats, h: Hash)      // a recount fills both levels
    | Load(owner: string, s: MailboxStats)               // the entry is taken from the hash
    | Expire(owner: string)                              // the hash is dropped

  ghost predicate Enabled(x: Levels, step: Step) {
    match step
    case Deliver(e) => forall o :: o in x.entries && o in x.hashes ==> Room(x.entries[o], Size(e)) && Enough(e, o, x.entries[o])
    case Miss(owner, s, h) => owner !in x.hashes && Encodes(h, s) && Fits(s)
    case Load(owner, s) => owner in x.hashes && Decodes(x.hashes[owner], s)
    case Expire(_) => true
  }

  function Do(x: Levels, step: Step): Levels {
    match step
    case Deliver(e) => Levels(ApplyAll(e, x.entries), HashApplyAll(e, x.hashes))
    case Miss(owner, s, h) => Levels(x.entries[owner := s], x.hashes[owner := h])
    case Load(owner, s) => x.(entries := x.entries[owner := s])
    case Expire(owner) => x.(hashes := x.hashes - {owner})
  }

  ghost predicate Run(x: Levels, steps: seq<Step>, x': Levels)
    decreases |steps|
  {
    if steps == [] then x' == x else Enabled(x, steps[0]) && Run(Do(x, steps[0]), steps[1..], x')
  }

  /** An owner without a hash gets one by a miss, at any time; it can expire, and be filled again. */
  lemma Refills(x: Levels, owner: string, s: MailboxStats, h: Hash)
    requires owner !in x.hashes && Encodes(h, s) && Fits(s)
    ensures Run(x, [Miss(owner, s, h), Expire(owner), Miss(owner, s, h)], Levels(x.entries[owner := s], x.hashes[owner := h]))
  {
    hide Encodes, Fits;
    var fill, full := Miss(owner, s, h), Levels(x.entries[owner := s], x.hashes[owner := h]);
    var gone := Do(full, Expire(owner));
    assert gone == Levels(x.entries[owner := s], x.hashes) && Do(gone, fill) == full;
    assert [fill, Expire(owner), fill][1..] == [Expire(owner), fill] && [Expire(owner), fill][1..] == [fill] && [fill][1..] == [];
    assert Run(full, [], full) && Run(gone, [fill], full) && Run(full, [Expire(owner), fill], full);
  }

  ghost predicate Inv(x: Levels) {
    forall o :: o in x.entries && o in x.hashes ==> Shows(x.hashes[o], x.entries[o])
  }

  lemma StepInv(x: Levels, step: Step)
    requires Inv(x) && Enabled(x, step)
    ensures Inv(Do(x, step))
  {
    hide Shows, Apply, HashApply, Enough;
    match step
    case Deliver(e) =>
      forall o | o in x.entries && o in x.hashes ensures Shows(HashApply(e, o, x.hashes[o]), Apply(e, o, x.entries[o])) {
        EventLevelsIff(e, o, x.hashes[o], x.entries[o]);
      }
    case Miss(owner, s, h) => EncodedShows(h, s);
    case Load(owner, s) => DecodedShows(x.hashes[owner], s);
    case Expire(_) =>
  }

  lemma {:induction false} RunInv(x: Levels, steps: seq<Step>, x': Levels)
    requires Inv(x) && Run(x, steps, x')
    ensures Inv(x')
    decreases |steps|
  {
    if steps != [] {
      StepInv(x, steps[0]);
      RunInv(Do(x, steps[0]), steps[1..], x');
    }
  }

  /** In every run, an owner's hash can be decoded whenever the owner is on both levels, and it decodes
      to the counters of the in-process entry, folder by folder. */
  lemma LevelsAgree(steps: seq<Step>, x: Levels, owner: string, d: MailboxStats)
    requires Run(Levels(map[], map[]), steps, x) && owner in x.entries && owner in x.hashes
    ensures WellFormed(x.hashes[owner])
    ensures Decodes(x.hashes[owner], d) ==>
              && d.total == x.entries[owner].total && d.unread == x.entries[owner].unread && d.drafts == x.entries[owner].drafts
              && forall f :: ':' !in f ==> d.Folder(f) == x.entries[owner].Folder(f)
  {
    RunInv(Levels(map[], map[]), steps, x);
    var s := x.entries[owner];
    if Decodes(x.hashes[owner], d) {
      DecodedShows(x.hashes[owner], d);
      ShowsSame(x.hashes[owner], d, s);
      assert Of(d, CTotal) == Of(s, CTotal) && Of(d, CUnread) == Of(s, CUnread) && Of(d, CDraft) == Of(s, CDraft);
      forall f | ':' !in f ensures d.Folder(f) == s.Folder(f) {
        assert Of(d, CFolderTotal(f)) == Of(s, CFolderTotal(f)) && Of(d, CFolderUnread(f)) == Of(s, CFolderUnread(f));
      }
    }
  }
}
