/**
The totals of the distributed cache over whole runs of mutations: the hash is
incremented without a clamp, so its totals stay right because no mutation ever
decrements a total at zero, whatever becomes of the unread counters.
*/
module HashTotals {
  import opened Messages
  import opened Tally
  import opened Decimals
  import opened Stats
  import opened StatsHash
  import opened StatsLevels
  import R = StatsRuns

  predicate IsTotal(c: Counter) {
    (c.CTotal? || c.CFolderTotal?) && Plain(c)
  }

  /** The hash holds the totals of the entry, globally and per folder. */
  ghost predicate ShowsTotals(h: Hash, s: MailboxStats) {
    WellFormed(h) && forall c :: IsTotal(c) ==> Parses(h, Field(c)) && Num(h, Field(c)) == Of(s, c)
  }

  ghost predicate SameTotals(s: MailboxStats, s': MailboxStats) {
    forall c :: IsTotal(c) ==> Of(s, c) == Of(s', c)
  }

  lemma ShowsSameTotals(h: Hash, s: MailboxStats, s': MailboxStats)
    requires ShowsTotals(h, s) && SameTotals(s, s')
    ensures ShowsTotals(h, s')
  {
    hide WellFormed, Field, Of, Num, Parses, IsTotal;
  }

  lemma ShowsAreTotals(h: Hash, s: MailboxStats)
    requires Shows(h, s)
    ensures ShowsTotals(h, s)
  {
    hide WellFormed, Field, Of, Num, Parses;
  }

  // ---------------------------------------------------------------------
  // One event
  // ---------------------------------------------------------------------

  /** Every total can still be decremented, and be incremented n times. */
  ghost predicate TotalsRoom(s: MailboxStats, n: nat) {
    forall c :: IsTotal(c) ==> MIN_INT64 < Of(s, c) <= MAX_INT64 - n
  }

  lemma RoomFor(s: MailboxStats, n: nat, c: Counter)
    requires TotalsRoom(s, n) && IsTotal(c)
    ensures MIN_INT64 < Of(s, c) <= MAX_INT64 - n
  {
  }

  /** An increment of any counter; only a total has to stay in range. */
  lemma IncrByTotals(h: Hash, s: MailboxStats, c: Counter, delta: int)
    requires ShowsTotals(h, s) && (IsTotal(c) ==> IsInt64(Of(s, c) + delta))
    ensures ShowsTotals(IncrBy(h, c, delta), Add(s, c, delta))
  {
    hide ParseInt, Split, Print, Field, WellFormed;
    var h', s' := IncrBy(h, c, delta), Add(s, c, delta);
    IncrByWellFormed(h, c, delta);
    forall c' | IsTotal(c') ensures Parses(h', Field(c')) && Num(h', Field(c')) == Of(s', c') {
      PlainParses(h', c');
      assert Num(h, Field(c')) == Of(s, c');
      if c' == c {
        ParsePrint(Of(s, c) + delta);
      } else if Field(c') == Field(c) {
        FieldInjective(c', c);
      }
    }
  }

  lemma SenderTotals(h: Hash, s: MailboxStats)
    requires ShowsTotals(h, s) && TotalsRoom(s, 1)
    ensures ShowsTotals(SenderIncr(h), SenderUpdate(s))
  {
    hide ShowsTotals, IncrBy, TotalsRoom;
    var c := CFolderTotal(FOLDER_SENT);
    RoomFor(s, 1, CTotal);
    RoomFor(s, 1, c);
    var s1 := Add(s, CTotal, 1);
    IncrByTotals(h, s, CTotal, 1);
    IncrByTotals(IncrBy(h, CTotal, 1), s1, c, 1);
    ShowsSameTotals(SenderIncr(h), Add(s1, c, 1), SenderUpdate(s));
  }

  lemma RecipientTotals(h: Hash, s: MailboxStats)
    requires ShowsTotals(h, s) && TotalsRoom(s, 1)
    ensures ShowsTotals(RecipientIncr(h), RecipientUpdate(s))
  {
    hide ShowsTotals, IncrBy, TotalsRoom;
    var c3, c4 := CFolderTotal(FOLDER_INBOX), CFolderUnread(FOLDER_INBOX);
    RoomFor(s, 1, CTotal);
    RoomFor(s, 1, c3);
    var s1 := Add(s, CTotal, 1);
    var s2 := Add(s1, CUnread, 1);
    var s3 := Add(s2, c3, 1);
    var h1 := IncrBy(h, CTotal, 1);
    var h2 := IncrBy(h1, CUnread, 1);
    IncrByTotals(h, s, CTotal, 1);
    IncrByTotals(h1, s1, CUnread, 1);
    IncrByTotals(h2, s2, c3, 1);
    IncrByTotals(IncrBy(h2, c3, 1), s3, c4, 1);
    ShowsSameTotals(RecipientIncr(h), Add(s3, c4, 1), RecipientUpdate(s));
  }

  lemma RoomLess(s: MailboxStats, spare: nat)
    requires TotalsRoom(s, spare + 1)
    ensures TotalsRoom(s, spare) && TotalsRoom(s, 1) && TotalsRoom(SenderUpdate(s), spare) && TotalsRoom(RecipientUpdate(s), spare)
  {
    forall c | IsTotal(c)
      ensures Of(s, c) <= Of(SenderUpdate(s), c) <= Of(s, c) + 1 && Of(s, c) <= Of(RecipientUpdate(s), c) <= Of(s, c) + 1
      ensures MIN_INT64 < Of(s, c) <= MAX_INT64 - spare - 1
    {
    }
  }

  lemma {:induction false} RecipientsTotals(h: Hash, s: MailboxStats, owner: string, recipientIds: seq<string>, spare: nat)
    requires ShowsTotals(h, s) && TotalsRoom(s, |recipientIds| + spare)
    ensures ShowsTotals(RecipientIncrs(h, owner, recipientIds), RecipientUpdates(s, owner, recipientIds))
    ensures TotalsRoom(RecipientUpdates(s, owner, recipientIds), spare)
  {
    hide ShowsTotals, TotalsRoom, RecipientIncr, RecipientUpdate;
    if recipientIds != [] {
      var n := |recipientIds| - 1;
      RecipientsTotals(h, s, owner, recipientIds[..n], spare + 1);
      var s1 := RecipientUpdates(s, owner, recipientIds[..n]);
      RoomLess(s1, spare);
      if recipientIds[n] == owner {
        RecipientTotals(RecipientIncrs(h, owner, recipientIds[..n]), s1);
      }
    }
  }

  lemma FolderTotals(h: Hash, s: MailboxStats, f: string, unread: bool, delta: int)
    requires ShowsTotals(h, s) && (':' !in f ==> IsInt64(s.Folder(f).total + delta))
    ensures ShowsTotals(FolderIncr(h, f, unread, delta), FolderAdd(s, f, unread, delta))
  {
    hide ShowsTotals, IncrBy;
    if f != "" {
      IncrByTotals(h, s, CFolderTotal(f), delta);
      if unread {
        IncrByTotals(IncrBy(h, CFolderTotal(f), delta), Add(s, CFolderTotal(f), delta), CFolderUnread(f), delta);
      }
    }
  }

  lemma ReadTotals(h: Hash, s: MailboxStats, f: string)
    requires ShowsTotals(h, s)
    ensures ShowsTotals(ReadIncr(h, f), ReadUpdate(s, f))
  {
    hide ShowsTotals, IncrBy;
    IncrByTotals(h, s, CUnread, -1);
    var s1 := Add(s, CUnread, -1);
    if f != "" {
      IncrByTotals(IncrBy(h, CUnread, -1), s1, CFolderUnread(f), -1);
    }
    ShowsSameTotals(ReadIncr(h, f), if f != "" then Add(s1, CFolderUnread(f), -1) else s1, ReadUpdate(s, f));
  }

  lemma DeletedTotals(h: Hash, s: MailboxStats, f: string, wasUnread: bool)
    requires ShowsTotals(h, s) && TotalsRoom(s, 1) && s.total > 0 && (f != "" ==> s.Folder(f).total > 0)
    ensures ShowsTotals(DeletedIncr(h, f, wasUnread), DeletedUpdate(s, f, wasUnread))
  {
    hide ShowsTotals, IncrBy, TotalsRoom, FolderIncr;
    RoomFor(s, 1, CTotal);
    if ':' !in f {
      RoomFor(s, 1, CFolderTotal(f));
    }
    var s1 := Add(s, CTotal, -1);
    var s2 := if wasUnread then Add(s1, CUnread, -1) else s1;
    var h1 := IncrBy(h, CTotal, -1);
    IncrByTotals(h, s, CTotal, -1);
    if wasUnread {
      IncrByTotals(h1, s1, CUnread, -1);
    }
    FolderTotals(if wasUnread then IncrBy(h1, CUnread, -1) else h1, s2, f, wasUnread, -1);
    ShowsSameTotals(DeletedIncr(h, f, wasUnread), FolderAdd(s2, f, wasUnread, -1), DeletedUpdate(s, f, wasUnread));
  }

  lemma MovedTotals(h: Hash, s: MailboxStats, from: string, to: string, wasUnread: bool)
    requires ShowsTotals(h, s) && TotalsRoom(s, 1) && (from != "" ==> s.Folder(from).total > 0)
    ensures ShowsTotals(MovedIncr(h, from, to, wasUnread), MovedUpdate(s, from, to, wasUnread))
  {
    hide ShowsTotals, TotalsRoom, FolderIncr;
    if ':' !in from {
      RoomFor(s, 1, CFolderTotal(from));
    }
    if ':' !in to {
      RoomFor(s, 1, CFolderTotal(to));
    }
    FolderTotals(h, s, from, wasUnread, -1);
    var s1 := FolderAdd(s, from, wasUnread, -1);
    FolderTotals(FolderIncr(h, from, wasUnread, -1), s1, to, wasUnread, 1);
    ShowsSameTotals(MovedIncr(h, from, to, wasUnread), FolderAdd(s1, to, wasUnread, 1), MovedUpdate(s, from, to, wasUnread));
  }

  /** An event that finds no total at zero keeps the totals of hash and entry equal. */
  lemma EventTotals(e: Event, owner: string, h: Hash, s: MailboxStats)
    requires ShowsTotals(h, s) && TotalsRoom(s, Size(e)) && !Clamps(e, owner, s)
    ensures ShowsTotals(HashApply(e, owner, h), Apply(e, owner, s))
  {
    hide ShowsTotals, TotalsRoom, SenderIncr, SenderUpdate;
    match e
    case MessageSent(senderId, recipientIds) =>
      RoomLess(s, |recipientIds|);
      if senderId == owner {
        SenderTotals(h, s);
        RecipientsTotals(SenderIncr(h), SenderUpdate(s), owner, recipientIds, 0);
      } else {
        RecipientsTotals(h, s, owner, recipientIds, 0);
      }
    case MessageRead(userId, f) => ReadTotals(h, s, f);
    case MessageDeleted(userId, f, wasUnread) =>
      if userId == owner {
        DeletedTotals(h, s, f, wasUnread);
      }
    case MessageMoved(userId, from, to, wasUnread) =>
      if userId == owner {
        MovedTotals(h, s, from, to, wasUnread);
      }
  }

  // ---------------------------------------------------------------------
  // Runs of mutations
  // ---------------------------------------------------------------------

  /** The store, its pending events, and the hashes. The entries in `mail` are those the hashes stand for. */
  datatype System = System(mail: R.System, hashes: map<string, Hash>)

  datatype Step =
    | Mutate(op: R.Op, stamp: Time)
    | Deliver                                        // the oldest pending event reaches the hashes
    | Fill(owner: string, s: MailboxStats, h: Hash)  // a recount is written
    | Expire(owner: string)

  /** Hashes are filled while nothing is pending, and counters stay in the 64-bit range. */
  ghost predicate Enabled(x: System, step: Step, now: Time) {
    match step
    case Mutate(op, stamp) => R.Enabled(x.mail, R.Mutate(op, stamp), now)
    case Deliver =>
      x.mail.pending != [] &&
      forall o :: o in x.hashes && o in x.mail.cache ==> TotalsRoom(x.mail.cache[o], Size(x.mail.pending[0]))
    case Fill(owner, s, h) => R.Enabled(x.mail, R.Refresh(owner, s), now) && owner !in x.hashes && Encodes(h, s) && Fits(s)
    case Expire(_) => true
  }

  function Do(x: System, step: Step): System
    requires step.Deliver? ==> x.mail.pending != []
  {
    match step
    case Mutate(op, stamp) => x.(mail := R.Do(x.mail, R.Mutate(op, stamp)))
    case Deliver => System(R.Do(x.mail, R.Deliver), HashApplyAll(x.mail.pending[0], x.hashes))
    case Fill(owner, s, h) => System(R.Do(x.mail, R.Refresh(owner, s)), x.hashes[owner := h])
    case Expire(owner) => x.(hashes := x.hashes - {owner})
  }

  ghost predicate Run(x: System, steps: seq<Step>, x': System, now: Time)
    decreases |steps|
  {
    if steps == [] then x' == x
    else Enabled(x, steps[0], now) && Run(Do(x, steps[0]), steps[1..], x', now)
  }

  /** An owner without a hash gets one whenever nothing is pending; it can expire, and be filled again. */
  lemma Refills(x: System, owner: string, s: MailboxStats, h: Hash, now: Time)
    requires x.mail.pending == [] && owner !in x.hashes && IsRecount(s, x.mail.ms, owner, now) && Encodes(h, s) && Fits(s)
    ensures Run(x, [Fill(owner, s, h), Step.Expire(owner), Fill(owner, s, h)],
                System(x.mail.(cache := x.mail.cache[owner := s]), x.hashes[owner := h]), now)
  {
    hide Encodes, Fits, IsRecount;
    var fill, full := Fill(owner, s, h), System(x.mail.(cache := x.mail.cache[owner := s]), x.hashes[owner := h]);
    var expire := Step.Expire(owner);
    var gone := Do(full, expire);
    assert Do(x, fill) == full;
    assert gone.hashes == x.hashes && Do(gone, fill) == full;
    assert [fill, expire, fill][1..] == [expire, fill] && [expire, fill][1..] == [fill] && [fill][1..] == [];
    assert Run(full, [], full, now) && Run(gone, [fill], full, now) && Run(full, [expire, fill], full, now);
  }

  ghost predicate Inv(x: System, now: Time) {
    && R.Inv(x.mail, now)
    && forall o :: o in x.hashes ==> o in x.mail.cache && ShowsTotals(x.hashes[o], x.mail.cache[o])
  }

  lemma DeliverInv(x: System, now: Time)
    requires Inv(x, now) && Enabled(x, Step.Deliver, now)
    ensures Inv(Do(x, Step.Deliver), now)
  {
    hide ShowsTotals, TotalsRoom, HashApply, Apply;
    R.StepInv(x.mail, R.Deliver, now);
    forall o | o in x.hashes
      ensures ShowsTotals(HashApply(x.mail.pending[0], o, x.hashes[o]), Apply(x.mail.pending[0], o, x.mail.cache[o]))
    {
      assert R.NeverClamps(x.mail.pending, o, x.mail.cache[o]);
      EventTotals(x.mail.pending[0], o, x.hashes[o], x.mail.cache[o]);
    }
  }

  lemma StepInv(x: System, step: Step, now: Time)
    requires Inv(x, now) && Enabled(x, step, now)
    ensures Inv(Do(x, step), now)
  {
    hide ShowsTotals, R.Inv;
    match step
    case Mutate(op, stamp) => R.StepInv(x.mail, R.Mutate(op, stamp), now);
    case Deliver => DeliverInv(x, now);
    case Fill(owner, s, h) =>
      R.StepInv(x.mail, R.Refresh(owner, s), now);
      EncodedShows(h, s);
      ShowsAreTotals(h, s);
    case Expire(_) =>
  }

  lemma {:induction false} RunInv(x: System, steps: seq<Step>, x': System, now: Time)
    requires Inv(x, now) && Run(x, steps, x', now)
    ensures Inv(x', now)
    decreases |steps|
  {
    hide Inv, Do;
    if steps != [] {
      StepInv(x, steps[0], now);
      RunInv(Do(x, steps[0]), steps[1..], x', now);
    }
  }

  /** In every run of mutations with delayed events, from any tidy store and no hashes, every hash can be decoded,
      and once nothing is pending it decodes to the totals of a recount, globally and in every folder whose
      ID has no colon. */
  lemma HashTotalsAreRecounts(ms: map<Id, Message>, steps: seq<Step>, x: System, now: Time, owner: string, d: MailboxStats)
    requires R.Tidy(ms, now) && Run(System(R.System(ms, map[], []), map[]), steps, x, now) && owner in x.hashes
    ensures WellFormed(x.hashes[owner])
    ensures Decodes(x.hashes[owner], d) && x.mail.pending == [] ==>
              && d.total == Total(x.mail.ms, Any(owner, now))
              && forall f :: ':' !in f ==> d.Folder(f).total == Total(x.mail.ms, In(owner, f, now))
  {
    hide Decodes, Total;
    RunInv(System(R.System(ms, map[], []), map[]), steps, x, now);
    var h, s := x.hashes[owner], x.mail.cache[owner];
    if Decodes(h, d) && x.mail.pending == [] {
      DecodedShows(h, d);
      assert R.CaughtUp(x.mail.pending, owner, s) == s;
      TotalsRead(h, d, s);
    }
  }

  lemma TotalsRead(h: Hash, d: MailboxStats, s: MailboxStats)
    requires Shows(h, d) && ShowsTotals(h, s)
    ensures d.total == s.total && forall f :: ':' !in f ==> d.Folder(f).total == s.Folder(f).total
  {
    hide WellFormed, Field, Num, Parses;
    assert IsTotal(CTotal) && Of(d, CTotal) == Of(s, CTotal);
    forall f | ':' !in f ensures d.Folder(f).total == s.Folder(f).total {
      assert IsTotal(CFolderTotal(f)) && Of(d, CFolderTotal(f)) == Of(s, CFolderTotal(f));
    }
  }
}
