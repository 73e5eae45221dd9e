/**
Trimming a mailbox back to its quota (quota_enforce.go): pages of the oldest
eligible messages are deleted until the excess is gone, nothing eligible is left
or a whole page could not be deleted.
*/
module Quota {
  import opened Messages
  import opened Paging
  import opened Attachments
  import opened Tally

  const QUOTA_DELETE_BATCH_SIZE := 500

  datatype Policy = Policy(maxMessages: int, deletesOldest: bool, deleteOlderThan: int)

  predicate Applies(policy: Option<Policy>) {
    policy.Some? && policy.value.maxMessages > 0 && policy.value.deletesOldest && policy.value.deleteOlderThan > 0
  }

  function OwnedBy(userId: string): Message -> bool {
    (m: Message) => m.ownerId == userId
  }

  function OldAndOwnedBy(userId: string, cutoff: Time): Message -> bool {
    (m: Message) => m.ownerId == userId && m.createdAt < cutoff
  }

  /** The stored messages the user sees, and those of them created before the cutoff. */
  function VisibleIds(ms: map<Id, Message>, userId: string, now: Time): (ids: set<Id>)
    ensures ids <= ms.Keys
  {
    set id | id in ms && ms[id].ownerId == userId && !ms[id].isDraft && (ms[id].availableAt.None? || ms[id].availableAt.value <= now)
  }

  function OldIds(ms: map<Id, Message>, userId: string, cutoff: Time, now: Time): (ids: set<Id>)
    ensures ids <= ms.Keys
  {
    set id | id in VisibleIds(ms, userId, now) && ms[id].createdAt < cutoff
  }

  /** The user's messages that count against the quota. */
  function Counted(ms: map<Id, Message>, userId: string, now: Time): set<Message> {
    Rows(ms, OwnedBy(userId), now)
  }

  /** The user's messages old enough to be deleted. */
  function Eligible(ms: map<Id, Message>, userId: string, cutoff: Time, now: Time): set<Message> {
    Rows(ms, OldAndOwnedBy(userId, cutoff), now)
  }

  /** The eligible messages, oldest first. */
  ghost function OldestFirst(ms: map<Id, Message>, userId: string, cutoff: Time, now: Time): seq<Message>
    requires WellKeyed(ms)
  {
    RowsDistinct(ms, OldAndOwnedBy(userId, cutoff), now);
    Listing(Eligible(ms, userId, cutoff, now), true)
  }

  lemma {:induction false} SameSize(ids: set<Id>, rows: set<Message>)
    requires forall m :: m in rows ==> m.id in ids
    requires forall id :: id in ids ==> exists m :: m in rows && m.id == id
    requires forall m, m' :: m in rows && m' in rows && m.id == m'.id ==> m == m'
    ensures |ids| == |rows|
    decreases |rows|
  {
    if rows == {} {
      assert ids == {};
    } else {
      var m :| m in rows;
      forall id | id in ids - {m.id} ensures exists m' :: m' in rows - {m} && m'.id == id {
        var m' :| m' in rows && m'.id == id;
        assert m' in rows - {m};
      }
      SameSize(ids - {m.id}, rows - {m});
    }
  }

  /** What counts and what is eligible, by the fields of the messages. */
  lemma ByFields(ms: map<Id, Message>, userId: string, cutoff: Time, now: Time)
    requires WellKeyed(ms)
    ensures forall m :: m in Counted(ms, userId, now) <==> m.id in VisibleIds(ms, userId, now) && ms[m.id] == m
    ensures forall m :: m in Eligible(ms, userId, cutoff, now) <==> m.id in OldIds(ms, userId, cutoff, now) && ms[m.id] == m
    ensures |Counted(ms, userId, now)| == |VisibleIds(ms, userId, now)|
    ensures |Eligible(ms, userId, cutoff, now)| == |OldIds(ms, userId, cutoff, now)|
  {
    forall m
      ensures m in Counted(ms, userId, now) <==> m.id in VisibleIds(ms, userId, now) && ms[m.id] == m
      ensures m in Eligible(ms, userId, cutoff, now) <==> m.id in OldIds(ms, userId, cutoff, now) && ms[m.id] == m
    {
      RowsMember(ms, OwnedBy(userId), now, m);
      RowsMember(ms, OldAndOwnedBy(userId, cutoff), now, m);
    }
    hide Counted, Eligible;
    forall id | id in VisibleIds(ms, userId, now) ensures exists m :: m in Counted(ms, userId, now) && m.id == id {
      assert ms[id] in Counted(ms, userId, now);
    }
    forall id | id in OldIds(ms, userId, cutoff, now) ensures exists m :: m in Eligible(ms, userId, cutoff, now) && m.id == id {
      assert ms[id] in Eligible(ms, userId, cutoff, now);
    }
    SameSize(VisibleIds(ms, userId, now), Counted(ms, userId, now));
    SameSize(OldIds(ms, userId, cutoff, now), Eligible(ms, userId, cutoff, now));
  }

  lemma InEligible(ms: map<Id, Message>, userId: string, cutoff: Time, now: Time, id: Id)
    requires WellKeyed(ms) && id in OldIds(ms, userId, cutoff, now)
    ensures id in ms && ms[id] in Eligible(ms, userId, cutoff, now)
  {
    hide Eligible;
    ByFields(ms, userId, cutoff, now);
  }

  /** Where an eligible message stands in the oldest-first list. */
  lemma PlaceOf(ms: map<Id, Message>, userId: string, cutoff: Time, now: Time, m: Message) returns (i: nat)
    requires WellKeyed(ms) && m in Eligible(ms, userId, cutoff, now)
    ensures i < |OldestFirst(ms, userId, cutoff, now)| && OldestFirst(ms, userId, cutoff, now)[i] == m
  {
    hide Eligible;
    RowsDistinct(ms, OldAndOwnedBy(userId, cutoff), now);
    assert m in OldestFirst(ms, userId, cutoff, now);
    i :| 0 <= i < |OldestFirst(ms, userId, cutoff, now)| && OldestFirst(ms, userId, cutoff, now)[i] == m;
  }

  lemma OlderFirst(ms: map<Id, Message>, userId: string, cutoff: Time, now: Time, i: nat, j: nat)
    requires WellKeyed(ms) && i < j < |OldestFirst(ms, userId, cutoff, now)|
    ensures OldestFirst(ms, userId, cutoff, now)[i].createdAt <= OldestFirst(ms, userId, cutoff, now)[j].createdAt
  {
    hide Listing, Rows;
    RowsDistinct(ms, OldAndOwnedBy(userId, cutoff), now);
    ListedByTime(Eligible(ms, userId, cutoff, now), true, i, j);
  }

  /** Behind the first d of the oldest-first list nothing was created before any of them. */
  lemma OldestGoFirst(ms: map<Id, Message>, userId: string, cutoff: Time, now: Time, d: nat, g: Id, id: Id)
    requires WellKeyed(ms) && d <= |OldestFirst(ms, userId, cutoff, now)|
    requires g in Ids(OldestFirst(ms, userId, cutoff, now)[..d])
    requires id in OldIds(ms, userId, cutoff, now) && id !in Ids(OldestFirst(ms, userId, cutoff, now)[..d])
    ensures g in ms && ms[g].createdAt <= ms[id].createdAt
  {
    hide OldestFirst, Eligible, OldIds;
    var list := OldestFirst(ms, userId, cutoff, now);
    var m :| m in list[..d] && m.id == g;
    var i :| 0 <= i < d && list[i] == m;
    OldestFacts(ms, userId, cutoff, now, i);
    InEligible(ms, userId, cutoff, now, id);
    var j := PlaceOf(ms, userId, cutoff, now, ms[id]);
    OlderFirst(ms, userId, cutoff, now, i, j);
  }

  // ---------------------------------------------------------------------
  // Reference counts
  // ---------------------------------------------------------------------

  /** One deletion of the loop: the references are released before the delete is tried, each release with its
      own fault. */
  function Trimmed(ms: map<Id, Message>, l: Ledger, id: Id, fails: bool, faults: seq<Fault>): (map<Id, Message>, Ledger)
    requires id in ms && |faults| == |ms[id].attachments|
  {
    (if fails then ms else ms - {id}, ReleaseAll(l, ms[id].attachments, faults))
  }

  /** How many references to the attachment are really given up; a file that cannot be deleted does not count. */
  function GivenUp(xs: seq<AttachmentId>, faults: seq<Fault>, a: AttachmentId): nat
    requires |xs| <= |faults|
  {
    if xs == [] then 0
    else
      var n := |xs| - 1;
      GivenUp(xs[..n], faults, a) + One(xs[n] == a && !faults[n].MetadataFault?)
  }

  lemma {:induction false} GivenUpCount(l: Ledger, xs: seq<AttachmentId>, faults: seq<Fault>, a: AttachmentId)
    requires |xs| <= |faults| && l.Count(a) >= multiset(xs)[a]
    ensures GivenUp(xs, faults, a) <= multiset(xs)[a]
    ensures ReleaseAll(l, xs, faults).Count(a) == l.Count(a) - GivenUp(xs, faults, a)
  {
    if xs != [] {
      CountLast(xs, a);
      GivenUpCount(l, xs[..|xs| - 1], faults, a);
    }
  }

  /** All alike: every reference is given up, or none. */
  lemma {:induction false} GivenUpAlike(xs: seq<AttachmentId>, faults: seq<Fault>, kept: bool, a: AttachmentId)
    requires |xs| <= |faults| && forall i :: 0 <= i < |xs| ==> (faults[i].MetadataFault? <==> kept)
    ensures GivenUp(xs, faults, a) == if kept then 0 else multiset(xs)[a]
  {
    if xs != [] {
      CountLast(xs, a);
      GivenUpAlike(xs[..|xs| - 1], faults, kept, a);
    }
  }

  /** Each release tells on the count of its attachment. */
  lemma {:induction false} GivenUpAt(xs: seq<AttachmentId>, faults: seq<Fault>, i: nat)
    requires i < |xs| <= |faults|
    ensures if faults[i].MetadataFault? then GivenUp(xs, faults, xs[i]) < multiset(xs)[xs[i]] else GivenUp(xs, faults, xs[i]) > 0
  {
    var n := |xs| - 1;
    CountLast(xs, xs[i]);
    if i < n {
      GivenUpAt(xs[..n], faults, i);
    } else {
      AtMostGivenUp(xs[..n], faults, xs[i]);
    }
  }

  lemma {:induction false} AtMostGivenUp(xs: seq<AttachmentId>, faults: seq<Fault>, a: AttachmentId)
    requires |xs| <= |faults|
    ensures GivenUp(xs, faults, a) <= multiset(xs)[a]
  {
    if xs != [] {
      CountLast(xs, a);
      AtMostGivenUp(xs[..|xs| - 1], faults, a);
    }
  }

  /** The counts stay right exactly when the delete works and every reference is given up, or it fails and none
      is. Without failing releases: when the delete works or there was nothing to release. */
  lemma TrimmedBalancedIff(ms: map<Id, Message>, l: Ledger, id: Id, fails: bool, faults: seq<Fault>)
    requires id in ms && Balanced(ms, l) && |faults| == |ms[id].attachments|
    ensures var (ms', l') := Trimmed(ms, l, id, fails, faults);
            Balanced(ms', l') <==> forall i :: 0 <= i < |faults| ==> (faults[i].MetadataFault? <==> fails)
  {
    hide Balanced, GivenUp;
    var xs := ms[id].attachments;
    var (ms', l') := Trimmed(ms, l, id, fails, faults);
    if forall i :: 0 <= i < |faults| ==> (faults[i].MetadataFault? <==> fails) {
      forall a ensures BalancedAt(ms', l', a) {
        TrimmedAt(ms, l, id, fails, faults, a);
        GivenUpAlike(xs, faults, fails, a);
      }
      BalancedEverywhere(ms', l');
    } else {
      var i :| 0 <= i < |faults| && !(faults[i].MetadataFault? <==> fails);
      TrimmedAt(ms, l, id, fails, faults, xs[i]);
      GivenUpAt(xs, faults, i);
      NotBalanced(ms', l', xs[i]);
    }
  }

  ghost predicate BalancedAt(ms: map<Id, Message>, l: Ledger, a: AttachmentId) {
    l.Count(a) == Total(ms, Uses(a))
  }

  lemma BalancedEverywhere(ms: map<Id, Message>, l: Ledger)
    requires forall a :: BalancedAt(ms, l, a)
    ensures Balanced(ms, l)
  {
    forall a ensures l.Count(a) == Total(ms, Uses(a)) {
      assert BalancedAt(ms, l, a);
    }
  }

  lemma NotBalanced(ms: map<Id, Message>, l: Ledger, a: AttachmentId)
    requires !BalancedAt(ms, l, a)
    ensures !Balanced(ms, l)
  {
  }

  lemma TrimmedAt(ms: map<Id, Message>, l: Ledger, id: Id, fails: bool, faults: seq<Fault>, a: AttachmentId)
    requires id in ms && Balanced(ms, l) && |faults| == |ms[id].attachments|
    ensures var (ms', l') := Trimmed(ms, l, id, fails, faults);
            var xs := ms[id].attachments;
            BalancedAt(ms', l', a) <==> GivenUp(xs, faults, a) == if fails then 0 else multiset(xs)[a]
  {
    hide ReleaseAll, GivenUp;
    TotalRemove(ms, Uses(a), id);
    GivenUpCount(l, ms[id].attachments, faults, a);
  }

  /** The faults met by the releases of one try. */
  function FaultsOf(release: (nat, nat) -> Fault, k: nat, n: nat): (faults: seq<Fault>)
    ensures |faults| == n && forall j :: 0 <= j < n ==> faults[j] == release(k, j)
  {
    seq(n, j requires 0 <= j < n => release(k, j))
  }

  /** The counts after the tries of a page: every message's references are released, deleted or not. */
  function TrimLedger(l: Ledger, page: seq<Message>, release: (nat, nat) -> Fault, tries: nat): Ledger {
    if page == [] then l
    else
      var n := |page| - 1;
      ReleaseAll(TrimLedger(l, page[..n], release, tries), page[n].attachments, FaultsOf(release, tries + n, |page[n].attachments|))
  }

  /** How many references to the attachment the tries of a page give up. */
  function PageGivenUp(page: seq<Message>, release: (nat, nat) -> Fault, tries: nat, a: AttachmentId): nat {
    if page == [] then 0
    else
      var n := |page| - 1;
      var xs := page[n].attachments;
      PageGivenUp(page[..n], release, tries, a) + GivenUp(xs, FaultsOf(release, tries + n, |xs|), a)
  }

  /** How often the messages of a page refer to the attachment. */
  function PageUses(page: seq<Message>, a: AttachmentId): nat {
    if page == [] then 0 else PageUses(page[..|page| - 1], a) + multiset(page[|page| - 1].attachments)[a]
  }

  /** Whether or not the deletes work, every count falls by the references given up. */
  lemma {:induction false} TrimLedgerCount(l: Ledger, page: seq<Message>, release: (nat, nat) -> Fault, tries: nat, a: AttachmentId)
    requires l.Count(a) >= PageUses(page, a)
    ensures PageGivenUp(page, release, tries, a) <= PageUses(page, a)
    ensures TrimLedger(l, page, release, tries).Count(a) == l.Count(a) - PageGivenUp(page, release, tries, a)
  {
    hide ReleaseAll, GivenUp;
    if page != [] {
      var n := |page| - 1;
      var xs := page[n].attachments;
      TrimLedgerCount(l, page[..n], release, tries, a);
      GivenUpCount(TrimLedger(l, page[..n], release, tries), xs, FaultsOf(release, tries + n, |xs|), a);
    }
  }

  /** No release leaves a count as it was. */
  ghost predicate Releasing(release: (nat, nat) -> Fault) {
    forall k, j :: !release(k, j).MetadataFault?
  }

  // ---------------------------------------------------------------------
  // What is left after some deletions
  // ---------------------------------------------------------------------

  /** Deleting the `d` oldest eligible messages leaves the others, in the same order. */
  lemma OldestLeft(ms: map<Id, Message>, userId: string, cutoff: Time, now: Time, d: nat)
    requires WellKeyed(ms) && d <= |OldestFirst(ms, userId, cutoff, now)|
    ensures var list := OldestFirst(ms, userId, cutoff, now);
            OldestFirst(ms - Ids(list[..d]), userId, cutoff, now) == list[d..]
  {
    var list := OldestFirst(ms, userId, cutoff, now);
    var rows := Eligible(ms, userId, cutoff, now);
    var ms' := ms - Ids(list[..d]);
    var rows' := Eligible(ms', userId, cutoff, now);
    RowsDistinct(ms, OldAndOwnedBy(userId, cutoff), now);
    RowsDistinct(ms', OldAndOwnedBy(userId, cutoff), now);
    ListingSorted(rows, true);
    forall m ensures m in list[d..] <==> m in rows' {
      LeftIff(ms, userId, cutoff, now, d, m);
    }
    ListingUnique(list[d..], rows', true);
  }

  /** What is still eligible is what was listed behind the first d. */
  lemma LeftIff(ms: map<Id, Message>, userId: string, cutoff: Time, now: Time, d: nat, m: Message)
    requires WellKeyed(ms) && d <= |OldestFirst(ms, userId, cutoff, now)|
    ensures var list := OldestFirst(ms, userId, cutoff, now);
            m in list[d..] <==> m in Eligible(ms - Ids(list[..d]), userId, cutoff, now)
  {
    var list := OldestFirst(ms, userId, cutoff, now);
    var ms' := ms - Ids(list[..d]);
    var rows, rows' := Eligible(ms, userId, cutoff, now), Eligible(ms', userId, cutoff, now);
    RowsDistinct(ms, OldAndOwnedBy(userId, cutoff), now);
    ListedOnce(rows, true);
    RowsMember(ms, OldAndOwnedBy(userId, cutoff), now, m);
    RowsMember(ms', OldAndOwnedBy(userId, cutoff), now, m);
    if m in list[d..] {
      assert m in list;
      assert m in rows;
      var j :| d <= j < |list| && list[j] == m;
      assert m.id !in Ids(list[..d]);
    }
    if m in rows' {
      assert m in list;
      var j :| 0 <= j < |list| && list[j] == m;
      assert m !in list[..d];
    }
  }

  /** Deleting some counted messages lowers the count by their number. */
  lemma CountedAfter(ms: map<Id, Message>, userId: string, now: Time, gone: set<Id>)
    requires WellKeyed(ms) && forall id :: id in gone ==> id in ms && ms[id] in Counted(ms, userId, now)
    ensures |Counted(ms - gone, userId, now)| == |Counted(ms, userId, now)| - |gone|
    decreases |gone|
  {
    if gone == {} {
      assert ms - gone == ms;
    } else {
      var id :| id in gone;
      CountedAfter(ms, userId, now, gone - {id});
      var before := Counted(ms - (gone - {id}), userId, now);
      forall m ensures m in Counted(ms - gone, userId, now) <==> m in before - {ms[id]} {
        RowsMember(ms - gone, OwnedBy(userId), now, m);
        RowsMember(ms - (gone - {id}), OwnedBy(userId), now, m);
      }
      RowsMember(ms, OwnedBy(userId), now, ms[id]);
      RowsMember(ms - (gone - {id}), OwnedBy(userId), now, ms[id]);
      assert Counted(ms - gone, userId, now) == before - {ms[id]};
    }
  }

  /** A page of the oldest-first query. */
  lemma OldestPage(ms: map<Id, Message>, userId: string, cutoff: Time, now: Time, limit: nat)
    requires WellKeyed(ms) && limit > 0
    ensures var found := KeysetFind(ms, OldAndOwnedBy(userId, cutoff), "", limit, true, now);
            var list := OldestFirst(ms, userId, cutoff, now);
            && found.Found?
            && found.page.messages <= list
            && |found.page.messages| == (if |list| <= limit then |list| else limit)
  {
    hide Listing;
    RowsDistinct(ms, OldAndOwnedBy(userId, cutoff), now);
    var rows := Eligible(ms, userId, cutoff, now);
    KeysetPageIsFront(rows, |rows|, limit, true);
  }

  lemma OldestFacts(ms: map<Id, Message>, userId: string, cutoff: Time, now: Time, i: nat)
    requires WellKeyed(ms) && i < |OldestFirst(ms, userId, cutoff, now)|
    ensures var list := OldestFirst(ms, userId, cutoff, now);
            && list[i].id in ms && ms[list[i].id] == list[i] && list[i] in Eligible(ms, userId, cutoff, now)
            && list[i] in Counted(ms, userId, now)
            && forall j :: 0 <= j < |list| && j != i ==> list[j].id != list[i].id
  {
    var list := OldestFirst(ms, userId, cutoff, now);
    var rows := Eligible(ms, userId, cutoff, now);
    RowsDistinct(ms, OldAndOwnedBy(userId, cutoff), now);
    assert list[i] in rows;
    RowsMember(ms, OldAndOwnedBy(userId, cutoff), now, list[i]);
    RowsMember(ms, OwnedBy(userId), now, list[i]);
    ListedOnce(rows, true);
  }

  /** The IDs are those of stored messages that count and are old enough. */
  ghost predicate AreEligible(ids: set<Id>, ms: map<Id, Message>, userId: string, cutoff: Time, now: Time) {
    forall id :: id in ids ==>
      id in ms && ms[id] in Eligible(ms, userId, cutoff, now) && ms[id] in Counted(ms, userId, now)
  }

  /** The page: stored, distinct, eligible messages, as many of the oldest as the limit allows. */
  lemma PageFacts(ms: map<Id, Message>, userId: string, cutoff: Time, now: Time, limit: nat)
    requires WellKeyed(ms) && limit > 0
    ensures var found := KeysetFind(ms, OldAndOwnedBy(userId, cutoff), "", limit, true, now);
            var oldest := OldestFirst(ms, userId, cutoff, now);
            && found.Found?
            && var page := found.page.messages;
               && page <= oldest
               && |page| == (if |oldest| <= limit then |oldest| else limit)
               && (forall i :: 0 <= i < |page| ==> page[i].id in ms && ms[page[i].id] == page[i])
               && AreEligible(Ids(page), ms, userId, cutoff, now)
               && (forall i, j :: 0 <= i < j < |page| ==> page[i].id != page[j].id)
  {
    hide Listing, KeysetFind, Eligible, Counted, OldestFirst;
    OldestPage(ms, userId, cutoff, now, limit);
    var page := KeysetFind(ms, OldAndOwnedBy(userId, cutoff), "", limit, true, now).page.messages;
    forall i | 0 <= i < |page|
      ensures page[i].id in ms && ms[page[i].id] == page[i]
      ensures page[i] in Eligible(ms, userId, cutoff, now) && page[i] in Counted(ms, userId, now)
      ensures forall j :: 0 <= j < |page| && j != i ==> page[j].id != page[i].id
    {
      OldestFacts(ms, userId, cutoff, now, i);
    }
  }

  /** What is eligible after some deletions was eligible before them. */
  lemma StillEligible(ids: set<Id>, page: set<Id>, ms: map<Id, Message>, gone: set<Id>, userId: string, cutoff: Time, now: Time)
    requires WellKeyed(ms) && ids <= page
    requires AreEligible(gone, ms, userId, cutoff, now) && AreEligible(page, ms - gone, userId, cutoff, now)
    ensures AreEligible(gone + ids, ms, userId, cutoff, now) && ids <= (ms - gone).Keys
  {
  }

  lemma NoneEligible(ms: map<Id, Message>, userId: string, cutoff: Time, now: Time)
    ensures AreEligible({}, ms, userId, cutoff, now)
  {
  }

  lemma IdsOfNone(page: seq<Message>, ms: map<Id, Message>)
    ensures Ids(page[..0]) == {} && ms - {} == ms
  {
  }

  lemma IdsOneMore(page: seq<Message>, i: nat)
    requires i < |page| && forall i, j :: 0 <= i < j < |page| ==> page[i].id != page[j].id
    ensures page[i].id !in Ids(page[..i]) && Ids(page[..i + 1]) == Ids(page[..i]) + {page[i].id}
  {
    assert page[..i + 1] == page[..i] + [page[i]];
  }

  lemma IdsMore(list: seq<Message>, d: nat, page: seq<Message>)
    requires d <= |list| && page <= list[d..]
    ensures Ids(list[..d + |page|]) == Ids(list[..d]) + Ids(page)
  {
    assert list[..d + |page|] == list[..d] + page;
  }

  lemma RemoveMore<K, V>(m: map<K, V>, gone: set<K>, more: set<K>)
    ensures m - gone - more == m - (gone + more)
    ensures more <= (m - gone).Keys ==> |gone + more| == |gone| + |more|
  {
  }

  lemma TrimMore(l: Ledger, page: seq<Message>, release: (nat, nat) -> Fault, tries: nat, n: nat)
    requires n <= |page|
    ensures TrimLedger(l, page[..n], release, tries) ==
            if n == 0 then l
            else
              var xs := page[n - 1].attachments;
              ReleaseAll(TrimLedger(l, page[..n - 1], release, tries), xs, FaultsOf(release, tries + n - 1, |xs|))
  {
    if n > 0 {
      assert page[..n][..n - 1] == page[..n - 1];
    }
  }

  lemma GoneAreOld(gone: set<Id>, ms: map<Id, Message>, userId: string, cutoff: Time, now: Time)
    requires WellKeyed(ms) && AreEligible(gone, ms, userId, cutoff, now)
    ensures forall id :: id in gone ==> id in ms && !ms[id].isDraft && ms[id].ownerId == userId && ms[id].createdAt < cutoff
  {
    hide Eligible, Counted;
    ByFields(ms, userId, cutoff, now);
  }

  lemma OldestGone(gone: set<Id>, d: nat, ms: map<Id, Message>, userId: string, cutoff: Time, now: Time)
    requires WellKeyed(ms) && d <= |OldestFirst(ms, userId, cutoff, now)| && gone == Ids(OldestFirst(ms, userId, cutoff, now)[..d])
    ensures |OldestFirst(ms, userId, cutoff, now)| == |OldIds(ms, userId, cutoff, now)|
    ensures forall g, id :: g in gone && id in OldIds(ms, userId, cutoff, now) && id !in gone ==>
              g in ms && id in ms && ms[g].createdAt <= ms[id].createdAt
  {
    hide Ids, Listing, Eligible;
    RowsDistinct(ms, OldAndOwnedBy(userId, cutoff), now);
    ByFields(ms, userId, cutoff, now);
    forall g, id | g in gone && id in OldIds(ms, userId, cutoff, now) && id !in gone
      ensures g in ms && id in ms && ms[g].createdAt <= ms[id].createdAt
    {
      OldestGoFirst(ms, userId, cutoff, now, d, g, id);
    }
  }

  /** No delete ever fails. */
  ghost predicate Faultless(fails: (Id, nat) -> bool) {
    forall id, k :: !fails(id, k)
  }

  // ---------------------------------------------------------------------
  // The loop
  // ---------------------------------------------------------------------

  class QuotaService {
    var ms: map<Id, Message>
    var ledger: Ledger

    constructor (ms: map<Id, Message>, ledger: Ledger)
      ensures this.ms == ms && this.ledger == ledger
    {
      this.ms, this.ledger := ms, ledger;
    }

    /** Tries to delete every message of a page; `fails(id, k)` tells whether the `k`-th delete of the
        call fails, and `release(k, j)` how the release of the j-th attachment before it ends. */
    method DeletePage(page: seq<Message>, fails: (Id, nat) -> bool, release: (nat, nat) -> Fault, tries: nat) returns (progress: nat, ghost gone: set<Id>)
      requires forall i :: 0 <= i < |page| ==> page[i].id in ms && ms[page[i].id] == page[i]
      requires forall i, j :: 0 <= i < j < |page| ==> page[i].id != page[j].id
      modifies this
      ensures gone <= Ids(page) && |gone| == progress <= |page|
      ensures ms == old(ms) - gone && ledger == TrimLedger(old(ledger), page, release, tries)
      ensures Faultless(fails) ==> gone == Ids(page) && progress == |page|
      ensures Faultless(fails) && Releasing(release) && Balanced(old(ms), old(ledger)) ==> Balanced(ms, ledger)
    {
      hide Balanced, ReleaseAll, Ids, TrimLedger;
      assert Ids(page[..0]) == {} && ms - {} == ms by {
        IdsOfNone(page, ms);
      }
      progress, gone := 0, {};
      TrimMore(ledger, page, release, tries, 0);
      for i := 0 to |page|
        invariant gone <= Ids(page[..i]) && |gone| == progress <= i
        invariant ms == old(ms) - gone && ledger == TrimLedger(old(ledger), page[..i], release, tries)
        invariant Faultless(fails) ==> gone == Ids(page[..i]) && progress == i
        invariant Faultless(fails) && Releasing(release) && Balanced(old(ms), old(ledger)) ==> Balanced(ms, ledger)
      {
        var id := page[i].id;
        IdsOneMore(page, i);
        RemoveMore(old(ms), gone, {id});
        TrimMore(old(ledger), page, release, tries, i + 1);
        var faults := FaultsOf(release, tries + i, |page[i].attachments|);
        if Balanced(ms, ledger) && Releasing(release) {
          TrimmedBalancedIff(ms, ledger, id, false, faults);
        }
        ledger := ReleaseAll(ledger, page[i].attachments, faults);
        if fails(id, tries + i) {
          continue;
        }
        ms := ms - {id};
        progress := progress + 1;
        gone := gone + {id};
      }
      assert page[..|page|] == page;
    }

    /** Always ends; deletes only old enough messages of the user, never takes the count below the limit, and
        when no delete fails deletes as many of them as the excess asks for, and none that is newer than one
        it leaves. */
    method EnforceUserQuota(userId: string, policy: Option<Policy>, now: Time, fails: (Id, nat) -> bool, release: (nat, nat) -> Fault)
      returns (deleted: nat, ghost gone: set<Id>)
      requires WellKeyed(ms)
      modifies this
      ensures ms == old(ms) - gone && |gone| == deleted
      ensures policy.None? || policy.value.maxMessages <= 0 || !policy.value.deletesOldest || policy.value.deleteOlderThan <= 0 ==>
                deleted == 0 && ledger == old(ledger)
      ensures policy.Some? && |VisibleIds(old(ms), userId, now)| <= policy.value.maxMessages ==> deleted == 0 && ledger == old(ledger)
      ensures forall id :: id in gone ==>
                && policy.Some? && id in old(ms) && !old(ms)[id].isDraft
                && old(ms)[id].ownerId == userId && old(ms)[id].createdAt < now - policy.value.deleteOlderThan
      ensures |VisibleIds(ms, userId, now)| == |VisibleIds(old(ms), userId, now)| - deleted
      ensures deleted > 0 ==> |VisibleIds(ms, userId, now)| >= policy.value.maxMessages
      ensures Faultless(fails) && policy.Some? && 0 < policy.value.maxMessages < |VisibleIds(old(ms), userId, now)| &&
              policy.value.deletesOldest && policy.value.deleteOlderThan > 0 ==>
                var excess := |VisibleIds(old(ms), userId, now)| - policy.value.maxMessages;
                var olds := OldIds(old(ms), userId, now - policy.value.deleteOlderThan, now);
                && deleted == (if excess <= |olds| then excess else |olds|)
                && forall g, id :: g in gone && id in olds && id !in gone ==> old(ms)[g].createdAt <= old(ms)[id].createdAt
      ensures Faultless(fails) && Releasing(release) && Balanced(old(ms), old(ledger)) ==> Balanced(ms, ledger)
    {
      hide OldestFirst, Counted, Eligible, Balanced, Faultless, Ids, VisibleIds, OldIds;
      deleted, gone := 0, {};
      assert ms - {} == ms;
      CountedAfter(ms, userId, now, {});
      if !Applies(policy) {
        return;
      }
      var cutoff := now - policy.value.deleteOlderThan;
      ByFields(ms, userId, cutoff, now);
      var excess := |Counted(ms, userId, now)| - policy.value.maxMessages;
      if excess <= 0 {
        return;
      }
      deleted, gone := DeleteOldest(userId, cutoff, excess, now, fails, release);
      CountedAfter(old(ms), userId, now, gone);
      ByFields(ms, userId, cutoff, now);
      GoneAreOld(gone, old(ms), userId, cutoff, now);
      if Faultless(fails) {
        OldestGone(gone, deleted, old(ms), userId, cutoff, now);
      }
    }

    /** Deletes oldest-first pages until `excess` messages are gone or no page makes progress. */
    method DeleteOldest(userId: string, cutoff: Time, excess: nat, now: Time, fails: (Id, nat) -> bool, release: (nat, nat) -> Fault)
      returns (deleted: nat, ghost gone: set<Id>)
      requires WellKeyed(ms)
      modifies this
      ensures ms == old(ms) - gone && |gone| == deleted <= excess
      ensures AreEligible(gone, old(ms), userId, cutoff, now)
      ensures Faultless(fails) ==>
                var oldest := OldestFirst(old(ms), userId, cutoff, now);
                && deleted == (if excess <= |oldest| then excess else |oldest|)
                && gone == Ids(oldest[..deleted])
      ensures Faultless(fails) && Releasing(release) && Balanced(old(ms), old(ledger)) ==> Balanced(ms, ledger)
    {
      hide OldestFirst, Balanced, Eligible, Counted, KeysetFind, Ids, Faultless, Releasing, TrimLedger, AreEligible;
      ghost var ms0 := ms;
      ghost var oldest := OldestFirst(ms0, userId, cutoff, now);
      deleted, gone := 0, {};
      var tries: nat := 0;
      IdsOfNone(oldest, ms0);
      NoneEligible(ms0, userId, cutoff, now);
      while true
        invariant ms == ms0 - gone && |gone| == deleted <= excess
        invariant AreEligible(gone, ms0, userId, cutoff, now)
        invariant Faultless(fails) ==> deleted <= |oldest| && gone == Ids(oldest[..deleted])
        invariant Faultless(fails) && Releasing(release) && Balanced(ms0, old(ledger)) ==> Balanced(ms, ledger)
        decreases excess - deleted
      {
        var remaining := excess - deleted;
        if remaining <= 0 {
          break;
        }
        var limit := QUOTA_DELETE_BATCH_SIZE;
        if remaining < limit {
          limit := remaining;
        }
        PageFacts(ms, userId, cutoff, now, limit);
        var found := KeysetFind(ms, OldAndOwnedBy(userId, cutoff), "", limit, true, now);
        var page := found.page.messages;
        if Faultless(fails) {
          OldestLeft(ms0, userId, cutoff, now, deleted);
        }
        if |page| == 0 {
          break;
        }
        var progress, removed := DeletePage(page, fails, release, tries);
        tries := tries + |page|;
        if Faultless(fails) {
          IdsMore(oldest, deleted, page);
        }
        StillEligible(removed, Ids(page), ms0, gone, userId, cutoff, now);
        RemoveMore(ms0, gone, removed);
        gone := gone + removed;
        deleted := deleted + progress;
        if progress == 0 {
          break;
        }
      }
    }
  }
}
