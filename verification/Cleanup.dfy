/**
One cleanup instance on its own (cleanup.go): scan the expired messages page by
page, delete them by ID, and release the references of those it deleted.
*/
module Cleanup {
  import opened Messages
  import opened Paging
  import opened Tally
  import opened Attachments
  import Races = CleanupRaces
  import BulkMove

  const SCAN_BATCH_SIZE := 100

  // ---------------------------------------------------------------------
  // What is expired
  // ---------------------------------------------------------------------

  function ExpiredTrash(cutoff: Time): Message -> bool {
    (m: Message) => m.folderId == FOLDER_TRASH && m.updatedAt < cutoff
  }

  function PastRetention(cutoff: Time): Message -> bool {
    (m: Message) => !m.isDraft && m.createdAt < cutoff
  }

  function PastTtl(now: Time): Message -> bool {
    (m: Message) => m.expiresAt.Some? && m.expiresAt.value < now
  }

  /** What the two cleanups take: visible messages in trash untouched since the cutoff; visible messages older than
      the retention time or past their own expiry. */
  predicate IsOldTrash(m: Message, cutoff: Time, now: Time) {
    !m.isDraft && IsAvailable(m, now) && m.folderId == FOLDER_TRASH && m.updatedAt < cutoff
  }

  predicate IsExpired(m: Message, retention: Option<Time>, now: Time) {
    && !m.isDraft && IsAvailable(m, now)
    && ((retention.Some? && m.createdAt < retention.value) || (m.expiresAt.Some? && m.expiresAt.value < now))
  }

  // ---------------------------------------------------------------------
  // Specifications
  // ---------------------------------------------------------------------

  function IdList(list: seq<Message>): seq<Id> {
    seq(|list|, i requires 0 <= i < |list| => list[i].id)
  }

  function IdSet(ids: seq<Id>): set<Id> {
    set id | id in ids
  }

  /** The attachment lists a scan records: only messages that have attachments. */
  function Recorded(list: seq<Message>): map<Id, seq<AttachmentId>> {
    if list == [] then map[]
    else
      var m := list[|list| - 1];
      var before := Recorded(list[..|list| - 1]);
      if m.attachments == [] then before else before[m.id := m.attachments]
  }

  /** The IDs a delete-by-ID call reports: those still stored, each when first met. */
  function Winners(stored: set<Id>, ids: seq<Id>): seq<Id> {
    if ids == [] then []
    else
      var n := |ids| - 1;
      Winners(stored, ids[..n]) + (if ids[n] in stored && ids[n] !in ids[..n] then [ids[n]] else [])
  }

  lemma {:induction false} RecordedAt(list: seq<Message>, i: nat)
    requires i < |list| && forall j, k :: 0 <= j < k < |list| ==> list[j].id != list[k].id
    ensures Races.AttachmentsOf(Recorded(list), list[i].id) == list[i].attachments
    ensures forall id :: id in Recorded(list) ==> id in Ids(list)
  {
    var n := |list| - 1;
    if n > 0 {
      RecordedAt(list[..n], if i < n then i else 0);
      assert forall id :: id in Ids(list[..n]) ==> id in Ids(list);
      assert list[n].id !in Ids(list[..n]);
    }
    assert list[n] in list;
  }

  /** Distinct stored IDs are all won, in order. */
  lemma {:induction false} AllWon(stored: set<Id>, ids: seq<Id>)
    requires (forall i :: 0 <= i < |ids| ==> ids[i] in stored) && forall i, j :: 0 <= i < j < |ids| ==> ids[i] != ids[j]
    ensures Winners(stored, ids) == ids
  {
    if ids != [] {
      var n := |ids| - 1;
      AllWon(stored, ids[..n]);
      assert ids == ids[..n] + [ids[n]];
    }
  }

  /** The references due for a list of deleted messages are those the messages held. */
  lemma {:induction false} DueIsHeld(ms: map<Id, Message>, won: seq<Id>, atts: map<Id, seq<AttachmentId>>, a: AttachmentId)
    requires forall i :: 0 <= i < |won| ==> won[i] in ms && Races.AttachmentsOf(atts, won[i]) == ms[won[i]].attachments
    requires forall i, j :: 0 <= i < j < |won| ==> won[i] != won[j]
    ensures Total(ms, Uses(a)) == multiset(Races.Due(won, atts))[a] + Total(ms - IdSet(won), Uses(a))
  {
    if won == [] {
      assert ms - IdSet(won) == ms;
    } else {
      var n := |won| - 1;
      DueIsHeld(ms, won[..n], atts, a);
      WithoutLast(ms, won);
      TotalRemove(ms - IdSet(won[..n]), Uses(a), won[n]);
    }
  }

  lemma WithoutLast(ms: map<Id, Message>, won: seq<Id>)
    requires won != [] && won[|won| - 1] in ms && forall i, j :: 0 <= i < j < |won| ==> won[i] != won[j]
    ensures var n := |won| - 1;
            && won[n] in ms - IdSet(won[..n])
            && ms - IdSet(won[..n]) - {won[n]} == ms - IdSet(won)
  {
    var n := |won| - 1;
    assert won == won[..n] + [won[n]];
    assert IdSet(won) == IdSet(won[..n]) + {won[n]};
  }

  /** Releasing what the deleted messages held keeps every count right. */
  lemma ReleaseKeepsBalance(ms: map<Id, Message>, l: Ledger, won: seq<Id>, atts: map<Id, seq<AttachmentId>>)
    requires forall i :: 0 <= i < |won| ==> won[i] in ms && Races.AttachmentsOf(atts, won[i]) == ms[won[i]].attachments
    requires forall i, j :: 0 <= i < j < |won| ==> won[i] != won[j]
    requires Balanced(ms, l)
    ensures Balanced(ms - IdSet(won), Release(l, Races.Due(won, atts)))
  {
    var due := Races.Due(won, atts);
    forall a ensures Release(l, due).Count(a) == Total(ms - IdSet(won), Uses(a)) {
      DueIsHeld(ms, won, atts, a);
      ReleaseCount(l, due, NoFaults(|due|), a);
    }
  }

  lemma {:induction false} ReleaseConcat(l: Ledger, xs: seq<AttachmentId>, ys: seq<AttachmentId>, faults: seq<Fault>)
    requires |xs| + |ys| <= |faults|
    ensures ReleaseAll(l, xs + ys, faults) == ReleaseAll(ReleaseAll(l, xs, faults), ys, faults[|xs|..])
  {
    if ys == [] {
      assert xs + ys == xs;
    } else {
      var n := |ys| - 1;
      ReleaseConcat(l, xs, ys[..n], faults);
      assert (xs + ys)[..|xs| + n] == xs + ys[..n];
    }
  }

  lemma {:induction false} ReleasePrefix(l: Ledger, xs: seq<AttachmentId>, faults: seq<Fault>, n: nat)
    requires |xs| <= n <= |faults|
    ensures ReleaseAll(l, xs, faults[..n]) == ReleaseAll(l, xs, faults)
  {
    if xs != [] {
      ReleasePrefix(l, xs[..|xs| - 1], faults, n);
    }
  }

  lemma DueGrows(won: seq<Id>, i: nat, atts: map<Id, seq<AttachmentId>>)
    requires i < |won|
    ensures Races.Due(won[..i + 1], atts) == Races.Due(won[..i], atts) + Races.AttachmentsOf(atts, won[i])
  {
    assert won[..i + 1] == won[..i] + [won[i]];
    Races.DueAppend(won[..i], won[i], atts);
  }

  lemma {:induction false} DueBounded(won: seq<Id>, i: nat, atts: map<Id, seq<AttachmentId>>)
    requires i <= |won|
    ensures |Races.Due(won[..i], atts)| <= |Races.Due(won, atts)|
    decreases |won| - i
  {
    if i < |won| {
      DueGrows(won, i, atts);
      DueBounded(won, i + 1, atts);
    } else {
      assert won[..i] == won;
    }
  }

  lemma NothingDue(l: Ledger, atts: map<Id, seq<AttachmentId>>, faults: seq<Fault>)
    ensures Races.Due([], atts) == [] && ReleaseAll(l, [], faults) == l
  {
  }

  /** The releases of one more deleted message follow those of the earlier ones. */
  lemma ReleaseMore(l: Ledger, won: seq<Id>, i: nat, atts: map<Id, seq<AttachmentId>>, faults: seq<Fault>)
    requires i < |won| && |Races.Due(won, atts)| <= |faults|
    ensures var due, n := Races.Due(won[..i], atts), |Races.Due(won[..i], atts)|;
            var xs := Races.AttachmentsOf(atts, won[i]);
            && Races.Due(won[..i + 1], atts) == due + xs && n + |xs| <= |faults|
            && ReleaseAll(l, due + xs, faults) == ReleaseAll(ReleaseAll(l, due, faults), xs, faults[n..n + |xs|])
  {
    hide Races.Due, ReleaseAll;
    var due := Races.Due(won[..i], atts);
    var n, xs := |due|, Races.AttachmentsOf(atts, won[i]);
    DueGrows(won, i, atts);
    DueBounded(won, i + 1, atts);
    ReleaseConcat(l, due, xs, faults);
    ReleasePrefix(ReleaseAll(l, due, faults), xs, faults[n..], |xs|);
    assert faults[n..][..|xs|] == faults[n..n + |xs|];
  }

  lemma NothingScanned()
    ensures IdList([]) == [] && Recorded([]) == map[]
  {
  }

  lemma OneMoreScanned(list: seq<Message>, i: nat)
    requires i < |list|
    ensures IdList(list[..i + 1]) == IdList(list[..i]) + [list[i].id]
    ensures Recorded(list[..i + 1]) ==
            if |list[i].attachments| > 0 then Recorded(list[..i])[list[i].id := list[i].attachments] else Recorded(list[..i])
  {
    assert list[..i + 1] == list[..i] + [list[i]];
    assert list[..i + 1][..i] == list[..i];
  }

  lemma {:induction false} WinsOnce(stored: set<Id>, ids: seq<Id>, id: Id)
    ensures multiset(Winners(stored, ids))[id] == if id in stored && id in ids then 1 else 0
  {
    if ids != [] {
      var n := |ids| - 1;
      WinsOnce(stored, ids[..n], id);
      assert ids == ids[..n] + [ids[n]];
    }
  }

  lemma AllFaultless(fault: nat -> Fault, faults: seq<Fault>)
    requires forall k :: fault(k) == NoFault
    requires forall i :: 0 <= i < |faults| ==> faults[i] == fault(i)
    ensures faults == NoFaults(|faults|)
  {
    assert forall i :: 0 <= i < |faults| ==> faults[i] == NoFaults(|faults|)[i];
  }

  // ---------------------------------------------------------------------
  // The operations
  // ---------------------------------------------------------------------

  class CleanupService {
    var ms: map<Id, Message>
    var attachments: AttachmentManager

    constructor (ms: map<Id, Message>, attachments: AttachmentManager)
      ensures this.ms == ms && this.attachments == attachments
    {
      this.ms, this.attachments := ms, attachments;
    }

    /** Pages through everything the query selects and records the attachments. */
    method ScanExpiredMessages(filter: Message -> bool, now: Time)
      returns (atts: map<Id, seq<AttachmentId>>, ids: seq<Id>)
      requires WellKeyed(ms) && "" !in ms
      ensures ids == IdList(BulkMove.Start(ms, filter, now))
      ensures atts == Recorded(BulkMove.Start(ms, filter, now))
    {
      hide BulkMove.Start, KeysetFind, IdList, Recorded;
      ghost var list := BulkMove.Start(ms, filter, now);
      ghost var k := 0;
      atts, ids := map[], [];
      var cursor: Id := "";
      NothingScanned();
      while true
        invariant k <= |list|
        invariant cursor == if k == 0 then "" else list[k - 1].id
        invariant ids == IdList(list[..k]) && atts == Recorded(list[..k])
        decreases |list| - k
      {
        BulkMove.NextPage(ms, filter, now, k, {}, "", 0, SCAN_BATCH_SIZE);
        BulkMove.MovesNothing(ms, "", 0);
        var found := KeysetFind(ms, filter, cursor, SCAN_BATCH_SIZE, false, now);
        var page := found.page.messages;
        for i := 0 to |page|
          invariant ids == IdList(list[..k + i]) && atts == Recorded(list[..k + i])
        {
          assert page[i] == list[k..][i] == list[k + i];
          OneMoreScanned(list, k + i);
          ids := ids + [page[i].id];
          if |page[i].attachments| > 0 {
            atts := atts[page[i].id := page[i].attachments];
          }
        }
        k := k + |page|;
        if !found.page.hasMore || |page| == 0 {
          break;
        }
        cursor := page[|page| - 1].id;
      }
      assert list[..|list|] == list;
    }

    /** Deletes the given messages and returns the IDs this call removed. */
    method DeleteMessagesByIDs(ids: seq<Id>) returns (deleted: seq<Id>)
      modifies this`ms
      ensures ms == old(ms) - IdSet(ids)
      ensures deleted == Winners(old(ms).Keys, ids)
      ensures forall id :: id in ms <==> id in old(ms) && id !in ids
      ensures forall id :: multiset(deleted)[id] == if id in old(ms) && id in ids then 1 else 0
    {
      deleted := [];
      assert ms - IdSet(ids[..0]) == ms;
      for i := 0 to |ids|
        invariant ms == old(ms) - IdSet(ids[..i])
        invariant deleted == Winners(old(ms).Keys, ids[..i])
      {
        assert ids[..i + 1] == ids[..i] + [ids[i]];
        assert ids[..i + 1][..i] == ids[..i];
        if ids[i] in ms {
          ms := ms - {ids[i]};
          deleted := deleted + [ids[i]];
        }
      }
      assert ids[..|ids|] == ids;
      forall id ensures multiset(deleted)[id] == if id in old(ms) && id in ids then 1 else 0 {
        WinsOnce(old(ms).Keys, ids, id);
      }
    }

    /** Releases the references of the deleted messages, carrying on after a failure. */
    method ReleaseAttachmentRefs(deleted: seq<Id>, atts: map<Id, seq<AttachmentId>>, faults: seq<Fault>)
      requires |Races.Due(deleted, atts)| <= |faults|
      modifies attachments
      ensures attachments.Books() == ReleaseAll(old(attachments.Books()), Races.Due(deleted, atts), faults)
    {
      hide Races.Due, ReleaseAll;
      ghost var l := attachments.Books();
      var n := 0;
      NothingDue(l, atts, faults);
      for i := 0 to |deleted|
        invariant n == |Races.Due(deleted[..i], atts)| <= |faults|
        invariant attachments.Books() == ReleaseAll(l, Races.Due(deleted[..i], atts), faults)
      {
        ReleaseMore(l, deleted, i, atts, faults);
        if deleted[i] !in atts {
          NothingDue(attachments.Books(), atts, faults[n..n]);
          continue;
        }
        var xs := atts[deleted[i]];
        var _ := attachments.ReleaseAttachmentRefs(xs, faults[n..n + |xs|]);
        n := n + |xs|;
      }
      assert deleted[..|deleted|] == deleted;
    }

    /** A whole cleanup: exactly the expired messages go, their number is reported, and when no release
        fails every reference count still equals the references in stored messages. The `k`-th release
        meets `fault(k)`. */
    method CleanupWithAttachments(filter: Message -> bool, now: Time, fault: nat -> Fault) returns (deletedCount: nat)
      requires WellKeyed(ms) && "" !in ms
      modifies this`ms, attachments
      ensures ms == map id | id in old(ms) && !Selects(old(ms)[id], filter, now) :: old(ms)[id]
      ensures deletedCount == |Rows(old(ms), filter, now)| && |ms| + deletedCount == |old(ms)|
      ensures (forall k :: fault(k) == NoFault) && Balanced(old(ms), old(attachments.Books())) ==>
                Balanced(ms, attachments.Books())
    {
      hide BulkMove.Start, Balanced, Races.Due, Recorded, IdSet, Rows, Winners;
      var atts, ids := ScanExpiredMessages(filter, now);
      ScanFacts(ms, filter, now);
      WithoutSelected(ms, ids, filter, now);
      var deleted := DeleteMessagesByIDs(ids);
      AllWon(old(ms).Keys, ids);
      deletedCount := |deleted|;
      GoneCount(old(ms), ids);
      var due := Races.Due(deleted, atts);
      var faults := seq(|due|, i requires 0 <= i < |due| => fault(i));
      ReleaseAttachmentRefs(deleted, atts, faults);
      if (forall k :: fault(k) == NoFault) && Balanced(old(ms), old(attachments.Books())) {
        AllFaultless(fault, faults);
        ReleaseKeepsBalance(old(ms), old(attachments.Books()), ids, atts);
      }
    }

    /** Trash that was last touched before the cutoff. */
    method CleanupTrash(cutoff: Time, now: Time, fault: nat -> Fault) returns (deletedCount: nat)
      requires WellKeyed(ms) && "" !in ms
      modifies this`ms, attachments
      ensures ms == map id | id in old(ms) && !IsOldTrash(old(ms)[id], cutoff, now) :: old(ms)[id]
      ensures forall id :: id in old(ms) ==>
                var m := old(ms)[id];
                (id !in ms <==> !m.isDraft && (m.availableAt.None? || m.availableAt.value <= now) && m.folderId == "__trash" && m.updatedAt < cutoff)
      ensures |ms| + deletedCount == |old(ms)|
      ensures (forall k :: fault(k) == NoFault) && Balanced(old(ms), old(attachments.Books())) ==> Balanced(ms, attachments.Books())
    {
      hide Balanced;
      deletedCount := CleanupWithAttachments(ExpiredTrash(cutoff), now, fault);
      SameKept(old(ms), ms, ExpiredTrash(cutoff), now, (m: Message) => IsOldTrash(m, cutoff, now));
    }

    /** Messages past the retention time, if one is set, and then messages past their own expiry. */
    method CleanupExpiredMessages(retention: Option<Time>, now: Time, fault: nat -> Fault, fault': nat -> Fault) returns (deletedCount: nat)
      requires WellKeyed(ms) && "" !in ms
      modifies this`ms, attachments
      ensures ms == map id | id in old(ms) && !IsExpired(old(ms)[id], retention, now) :: old(ms)[id]
      ensures forall id :: id in old(ms) ==>
                var m := old(ms)[id];
                (id !in ms <==>
                   && !m.isDraft && (m.availableAt.None? || m.availableAt.value <= now)
                   && ((retention.Some? && m.createdAt < retention.value) || (m.expiresAt.Some? && m.expiresAt.value < now)))
      ensures |ms| + deletedCount == |old(ms)|
      ensures (forall k :: fault(k) == NoFault && fault'(k) == NoFault) && Balanced(old(ms), old(attachments.Books())) ==>
                Balanced(ms, attachments.Books())
    {
      hide Balanced;
      deletedCount := 0;
      if retention.Some? {
        deletedCount := CleanupWithAttachments(PastRetention(retention.value), now, fault);
      }
      ghost var mid := ms;
      var more := CleanupWithAttachments(PastTtl(now), now, fault');
      deletedCount := deletedCount + more;
      TwoCleanups(old(ms), mid, ms, retention, now);
    }
  }

  lemma GoneCount(ms: map<Id, Message>, ids: seq<Id>)
    requires forall i :: 0 <= i < |ids| ==> ids[i] in ms
    requires forall i, j :: 0 <= i < j < |ids| ==> ids[i] != ids[j]
    ensures |ms - IdSet(ids)| + |ids| == |ms|
  {
    DistinctCount(ids);
    var gone := IdSet(ids);
    assert gone <= ms.Keys;
    assert (ms - gone).Keys == ms.Keys - gone;
    assert ms.Keys == (ms.Keys - gone) + gone;
  }

  lemma {:induction false} DistinctCount(ids: seq<Id>)
    requires forall i, j :: 0 <= i < j < |ids| ==> ids[i] != ids[j]
    ensures |IdSet(ids)| == |ids|
  {
    if ids != [] {
      var n := |ids| - 1;
      DistinctCount(ids[..n]);
      assert ids == ids[..n] + [ids[n]];
      assert IdSet(ids) == IdSet(ids[..n]) + {ids[n]};
    }
  }

  lemma SameKept(ms: map<Id, Message>, ms': map<Id, Message>, filter: Message -> bool, now: Time, gone: Message -> bool)
    requires ms' == map id | id in ms && !Selects(ms[id], filter, now) :: ms[id]
    requires forall id :: id in ms ==> (Selects(ms[id], filter, now) <==> gone(ms[id]))
    ensures ms' == map id | id in ms && !gone(ms[id]) :: ms[id]
  {
  }

  lemma TwoCleanups(ms: map<Id, Message>, mid: map<Id, Message>, ms': map<Id, Message>, retention: Option<Time>, now: Time)
    requires mid == if retention.Some? then map id | id in ms && !Selects(ms[id], PastRetention(retention.value), now) :: ms[id] else ms
    requires ms' == map id | id in mid && !Selects(mid[id], PastTtl(now), now) :: mid[id]
    ensures ms' == map id | id in ms && !IsExpired(ms[id], retention, now) :: ms[id]
  {
  }

  lemma WithoutSelected(ms: map<Id, Message>, ids: seq<Id>, filter: Message -> bool, now: Time)
    requires forall id :: id in ms ==> (id in ids <==> Selects(ms[id], filter, now))
    ensures ms - IdSet(ids) == map id | id in ms && !Selects(ms[id], filter, now) :: ms[id]
  {
  }

  /** The scan finds every selected message once, with its own attachments. */
  lemma ScanFacts(ms: map<Id, Message>, filter: Message -> bool, now: Time)
    requires WellKeyed(ms)
    ensures var list := BulkMove.Start(ms, filter, now); var ids := IdList(list);
            && |ids| == |Rows(ms, filter, now)|
            && (forall i :: 0 <= i < |ids| ==> ids[i] in ms && Races.AttachmentsOf(Recorded(list), ids[i]) == ms[ids[i]].attachments)
            && (forall i, j :: 0 <= i < j < |ids| ==> ids[i] != ids[j])
            && (forall id :: id in ms ==> (id in ids <==> Selects(ms[id], filter, now)))
  {
    RowsDistinct(ms, filter, now);
    var rows := Rows(ms, filter, now);
    var list := BulkMove.Start(ms, filter, now);
    var ids := IdList(list);
    ListedOnce(rows, false);
    forall i | 0 <= i < |ids| ensures ids[i] in ms && Races.AttachmentsOf(Recorded(list), ids[i]) == ms[ids[i]].attachments {
      BulkMove.StartFacts(ms, filter, now, i);
      RecordedAt(list, i);
    }
    forall id | id in ms ensures id in ids <==> Selects(ms[id], filter, now) {
      ScannedIff(ms, filter, now, id);
    }
  }

  lemma ScannedIff(ms: map<Id, Message>, filter: Message -> bool, now: Time, id: Id)
    requires WellKeyed(ms) && id in ms
    ensures id in IdList(BulkMove.Start(ms, filter, now)) <==> Selects(ms[id], filter, now)
  {
    RowsDistinct(ms, filter, now);
    var list := BulkMove.Start(ms, filter, now);
    var ids := IdList(list);
    ListedOnce(Rows(ms, filter, now), false);
    RowsMember(ms, filter, now, ms[id]);
    if Selects(ms[id], filter, now) {
      assert ms[id] in list;
      var i :| 0 <= i < |list| && list[i] == ms[id];
      assert ids[i] == id;
    }
    if id in ids {
      var i :| 0 <= i < |ids| && ids[i] == id;
      BulkMove.StartFacts(ms, filter, now, i);
    }
  }
}
