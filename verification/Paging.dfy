/**
The two ways a store pages through a query. The in-memory store sorts the
matching messages and looks for the cursor's index (store/memory/query.go); the
database stores select the rows whose (created_at, id) key lies beyond the
cursor's (store/mongo/query.go).
*/
module Paging {
  import opened Messages
  import Strings

  datatype Page = Page(messages: seq<Message>, total: nat, hasMore: bool)

  datatype SortField = ByCreated | ByUpdated | BySubject | Unsorted

  datatype FindResult = Found(page: Page) | CursorNotFound

  /** The messages a query selects: visible non-drafts that satisfy its filters. */
  predicate Selects(m: Message, filter: Message -> bool, now: Time) {
    !m.isDraft && IsAvailable(m, now) && filter(m)
  }

  function Rows(ms: map<Id, Message>, filter: Message -> bool, now: Time): set<Message> {
    set id | id in ms && Selects(ms[id], filter, now) :: ms[id]
  }

  /** The rows of a query, by the fields of the message. */
  lemma RowsMember(ms: map<Id, Message>, filter: Message -> bool, now: Time, m: Message)
    requires WellKeyed(ms)
    ensures m in Rows(ms, filter, now) <==> m.id in ms && ms[m.id] == m && Selects(m, filter, now)
    ensures Selects(m, filter, now) <==> !m.isDraft && (m.availableAt.None? || m.availableAt.value <= now) && filter(m)
  {
  }

  function Ids(list: seq<Message>): set<Id> {
    set m | m in list :: m.id
  }

  // ---------------------------------------------------------------------
  // The order of a listing
  // ---------------------------------------------------------------------

  predicate KeyLess(a: Message, b: Message) {
    a.createdAt < b.createdAt || (a.createdAt == b.createdAt && Strings.Less(a.id, b.id))
  }

  /** `a` is listed before `b`: newest first unless `asc`. */
  predicate Precedes(a: Message, b: Message, asc: bool) {
    if asc then KeyLess(a, b) else KeyLess(b, a)
  }

  lemma PrecedesTotal(a: Message, b: Message, asc: bool)
    requires a.id != b.id
    ensures Precedes(a, b, asc) != Precedes(b, a, asc)
  {
    Strings.Trichotomy(a.id, b.id);
  }

  lemma PrecedesIrreflexive(a: Message, asc: bool)
    ensures !Precedes(a, a, asc)
  {
    Strings.Trichotomy(a.id, a.id);
  }

  lemma PrecedesTransitive(a: Message, b: Message, c: Message, asc: bool)
    requires Precedes(a, b, asc) && Precedes(b, c, asc)
    ensures Precedes(a, c, asc)
  {
    if a.createdAt == b.createdAt == c.createdAt {
      if asc {
        Strings.Transitive(a.id, b.id, c.id);
      } else {
        Strings.Transitive(c.id, b.id, a.id);
      }
    }
  }

  predicate DistinctIds(rows: set<Message>) {
    forall a, b :: a in rows && b in rows && a.id == b.id ==> a == b
  }

  predicate DistinctTimes(rows: set<Message>) {
    forall a, b :: a in rows && b in rows && a.createdAt == b.createdAt ==> a == b
  }

  predicate Sorted(list: seq<Message>, asc: bool) {
    forall i, j :: 0 <= i < j < |list| ==> Precedes(list[i], list[j], asc)
  }

  lemma {:induction false} FirstExists(rows: set<Message>, asc: bool) returns (m: Message)
    requires rows != {} && DistinctIds(rows)
    ensures m in rows && forall r :: r in rows && r != m ==> Precedes(m, r, asc)
    decreases |rows|
  {
    m :| m in rows;
    if rows != {m} {
      var m' := FirstExists(rows - {m}, asc);
      PrecedesTotal(m, m', asc);
      if Precedes(m', m, asc) {
        m := m';
      } else {
        forall r | r in rows && r != m && r != m' ensures Precedes(m, r, asc) {
          PrecedesTransitive(m, m', r, asc);
        }
      }
    }
  }

  function First(rows: set<Message>, asc: bool): (m: Message)
    requires rows != {} && DistinctIds(rows)
    ensures m in rows && forall r :: r in rows && r != m ==> Precedes(m, r, asc)
  {
    assert exists m :: m in rows && forall r :: r in rows && r != m ==> Precedes(m, r, asc) by {
      var m := FirstExists(rows, asc);
    }
    assert forall a, b :: a in rows && b in rows && a != b ==> !(Precedes(a, b, asc) && Precedes(b, a, asc)) by {
      forall a, b | a in rows && b in rows && a != b ensures !(Precedes(a, b, asc) && Precedes(b, a, asc)) {
        PrecedesTotal(a, b, asc);
      }
    }
    var m :| m in rows && forall r :: r in rows && r != m ==> Precedes(m, r, asc);
    m
  }

  /** The rows in listing order. */
  function Listing(rows: set<Message>, asc: bool): (list: seq<Message>)
    requires DistinctIds(rows)
    ensures forall m :: m in list <==> m in rows
    ensures |list| == |rows|
    decreases |rows|
  {
    if rows == {} then []
    else
      var m := First(rows, asc);
      [m] + Listing(rows - {m}, asc)
  }

  lemma {:induction false} ListingSorted(rows: set<Message>, asc: bool)
    requires DistinctIds(rows)
    ensures Sorted(Listing(rows, asc), asc)
    decreases |rows|
  {
    if rows != {} {
      var m := First(rows, asc);
      var rest := Listing(rows - {m}, asc);
      ListingSorted(rows - {m}, asc);
      assert forall i :: 0 <= i < |rest| ==> rest[i] in rows - {m};
      SortedCons(m, rest, asc);
    }
  }

  lemma SortedCons(m: Message, rest: seq<Message>, asc: bool)
    requires Sorted(rest, asc) && forall i :: 0 <= i < |rest| ==> Precedes(m, rest[i], asc)
    ensures Sorted([m] + rest, asc)
  {
  }

  /** Listed by creation time, and by ID among messages created at the same time. */
  lemma ListedByTime(rows: set<Message>, asc: bool, i: nat, j: nat)
    requires DistinctIds(rows) && i < j < |rows|
    ensures var a, b := Listing(rows, asc)[if asc then i else j], Listing(rows, asc)[if asc then j else i];
            a.createdAt < b.createdAt || (a.createdAt == b.createdAt && Strings.Less(a.id, b.id))
  {
    hide Listing;
    ListingSorted(rows, asc);
    assert Precedes(Listing(rows, asc)[i], Listing(rows, asc)[j], asc);
  }

  /** No message is listed twice. */
  lemma ListedOnce(rows: set<Message>, asc: bool)
    requires DistinctIds(rows)
    ensures forall i, j :: 0 <= i < j < |Listing(rows, asc)| ==> Listing(rows, asc)[i].id != Listing(rows, asc)[j].id
  {
    var list := Listing(rows, asc);
    ListingSorted(rows, asc);
    forall i, j | 0 <= i < j < |list| ensures list[i].id != list[j].id {
      assert list[i] in rows && list[j] in rows;
      assert Precedes(list[i], list[j], asc);
      PrecedesIrreflexive(list[i], asc);
    }
  }

  lemma SortedHead(list: seq<Message>, rows: set<Message>, asc: bool)
    requires DistinctIds(rows) && Sorted(list, asc) && list != [] && ListsAll(list, rows)
    ensures rows != {} && list[0] == First(rows, asc)
  {
    hide Precedes;
    assert list[0] in rows;
    var m := First(rows, asc);
    if list[0] != m {
      var k :| 0 <= k < |list| && list[k] == m;
      assert Precedes(list[0], m, asc) && Precedes(m, list[0], asc);
      PrecedesTotal(list[0], m, asc);
    }
  }

  lemma SortedTail(list: seq<Message>, rows: set<Message>, asc: bool)
    requires Sorted(list, asc) && list != [] && ListsAll(list, rows)
    ensures Sorted(list[1..], asc) && ListsAll(list[1..], rows - {list[0]})
  {
    hide Precedes;
    assert list == [list[0]] + list[1..];
    if list[0] in list[1..] {
      var i :| 0 < i < |list| && list[i] == list[0];
      assert Precedes(list[0], list[i], asc);
      PrecedesIrreflexive(list[0], asc);
    }
  }

  ghost predicate ListsAll(list: seq<Message>, rows: set<Message>) {
    forall m :: m in list <==> m in rows
  }

  lemma ListingStep(rows: set<Message>, asc: bool)
    requires DistinctIds(rows)
    ensures DistinctIds(rows - if rows == {} then {} else {First(rows, asc)})
    ensures Listing(rows, asc) == if rows == {} then [] else [First(rows, asc)] + Listing(rows - {First(rows, asc)}, asc)
  {
  }

  lemma ListsNone(rows: set<Message>)
    requires ListsAll([], rows)
    ensures rows == {}
  {
    assert forall m :: m !in rows;
  }

  lemma {:induction false} UniqueListing(list: seq<Message>, rows: set<Message>, asc: bool)
    requires DistinctIds(rows) && Sorted(list, asc) && ListsAll(list, rows)
    ensures list == Listing(rows, asc)
    decreases |list|
  {
    hide Sorted, Precedes, ListsAll, Listing, DistinctIds;
    ListingStep(rows, asc);
    if list == [] {
      ListsNone(rows);
    } else {
      SortedHead(list, rows, asc);
      SortedTail(list, rows, asc);
      UniqueListing(list[1..], rows - {list[0]}, asc);
    }
  }

  /** There is only one way to list a set of rows in order. */
  lemma ListingUnique(list: seq<Message>, rows: set<Message>, asc: bool)
    requires DistinctIds(rows) && Sorted(list, asc)
    requires forall m :: m in list <==> m in rows
    ensures list == Listing(rows, asc)
  {
    UniqueListing(list, rows, asc);
  }

  /** The rows listed strictly after a message, which need not be one of them. */
  function RowsAfter(rows: set<Message>, c: Message, asc: bool): set<Message> {
    set r | r in rows && Precedes(c, r, asc)
  }

  /** What is listed after the `k`-th row lies beyond it, and nothing else does. */
  lemma AfterIff(list: seq<Message>, k: nat, m: Message, asc: bool)
    requires Sorted(list, asc) && k < |list|
    ensures m in list[k + 1..] <==> m in list && Precedes(list[k], m, asc)
  {
    if m in list && Precedes(list[k], m, asc) {
      var i :| 0 <= i < |list| && list[i] == m;
      PrecedesIrreflexive(m, asc);
      if i < k {
        PrecedesTransitive(m, list[k], m, asc);
      }
    }
  }

  /** Selecting the rows beyond the key of the `k`-th row drops exactly the first `k + 1`. */
  lemma ListingAfter(rows: set<Message>, asc: bool, k: nat)
    requires DistinctIds(rows) && k < |rows|
    ensures Listing(RowsAfter(rows, Listing(rows, asc)[k], asc), asc) == Listing(rows, asc)[k + 1..]
  {
    hide Listing, Precedes;
    var list := Listing(rows, asc);
    var rest := RowsAfter(rows, list[k], asc);
    ListingSorted(rows, asc);
    forall m ensures m in list[k + 1..] <==> m in rest {
      AfterIff(list, k, m, asc);
    }
    ListingUnique(list[k + 1..], rest, asc);
  }

  // ---------------------------------------------------------------------
  // Keyset paging
  // ---------------------------------------------------------------------

  /** The database query: rows beyond the cursor in order, at most `max` of them (0 for no limit). */
  function Query(rows: set<Message>, asc: bool, max: nat): (docs: seq<Message>)
    requires DistinctIds(rows)
  {
    var list := Listing(rows, asc);
    if max > 0 && max < |list| then list[..max] else list
  }

  lemma RowsDistinct(ms: map<Id, Message>, filter: Message -> bool, now: Time)
    requires WellKeyed(ms)
    ensures DistinctIds(Rows(ms, filter, now))
  {
  }

  /** One over-fetched row tells whether more rows follow the page. */
  function KeysetPage(beyond: set<Message>, total: nat, limit: nat, asc: bool): Page
    requires DistinctIds(beyond)
  {
    var docs := Query(beyond, asc, if limit > 0 then limit + 1 else 0);
    var hasMore := limit > 0 && |docs| > limit;
    Page(if hasMore then docs[..limit] else docs, total, hasMore)
  }

  /** A keyset page is the front of what lies beyond the cursor, and says truly whether more follows. */
  lemma KeysetPageIsFront(beyond: set<Message>, total: nat, limit: nat, asc: bool)
    requires DistinctIds(beyond)
    ensures var list, page := Listing(beyond, asc), KeysetPage(beyond, total, limit, asc);
            && page.messages <= list
            && |page.messages| == (if limit == 0 || |list| <= limit then |list| else limit)
            && (page.hasMore <==> |page.messages| < |list|)
            && page.total == total
  {
  }

  /** Keyset paging; an empty `startAfter` means the first page. */
  function KeysetFind(ms: map<Id, Message>, filter: Message -> bool, startAfter: Id, limit: nat, asc: bool, now: Time): FindResult
    requires WellKeyed(ms)
  {
    RowsDistinct(ms, filter, now);
    var rows := Rows(ms, filter, now);
    if startAfter == "" then Found(KeysetPage(rows, |rows|, limit, asc))
    else if startAfter !in ms then CursorNotFound
    else Found(KeysetPage(RowsAfter(rows, ms[startAfter], asc), |rows|, limit, asc))
  }

  // ---------------------------------------------------------------------
  // Index-of-cursor paging
  // ---------------------------------------------------------------------

  /** Position just after the cursor, or none when the listing does not contain it. */
  function CursorStart(list: seq<Message>, startAfter: Id): (start: Option<nat>)
    ensures start.Some? ==> start.value <= |list|
    ensures start.Some? && startAfter != "" ==> 0 < start.value && list[start.value - 1].id == startAfter
    ensures start.None? <==> startAfter != "" && forall i :: 0 <= i < |list| ==> list[i].id != startAfter
  {
    if startAfter == "" then Some(0)
    else if list == [] then None
    else if list[0].id == startAfter then Some(1)
    else
      var rest := CursorStart(list[1..], startAfter);
      assert forall i :: 0 < i < |list| ==> list[i] == list[1..][i - 1];
      if rest.Some? then Some(rest.value + 1)
      else
        assert forall i :: 0 <= i < |list[1..]| ==> list[1..][i].id != startAfter;
        None
  }

  /** The slice after the cursor; an unknown cursor gives an empty page without more. */
  function IndexPage(list: seq<Message>, startAfter: Id, limit: nat): Page {
    match CursorStart(list, startAfter)
    case None => Page([], |list|, false)
    case Some(start) =>
      var end := if limit == 0 || start + limit > |list| then |list| else start + limit;
      Page(list[start..end], |list|, end < |list|)
  }

  /** True when the sort of store/memory/helpers.go would exchange `a` and a later `b`. */
  predicate ShouldSwap(a: Message, b: Message, sortBy: SortField, asc: bool) {
    match sortBy
    case ByCreated => if asc then a.createdAt > b.createdAt else a.createdAt < b.createdAt
    case ByUpdated => if asc then a.updatedAt > b.updatedAt else a.updatedAt < b.updatedAt
    case BySubject => if asc then Strings.Less(b.subject, a.subject) else Strings.Less(a.subject, b.subject)
    case Unsorted => false
  }

  predicate InOrder(list: seq<Message>, sortBy: SortField, asc: bool) {
    forall i, j :: 0 <= i < j < |list| ==> !ShouldSwap(list[i], list[j], sortBy, asc)
  }

  /** The first message may stand before the second one. */
  predicate MayPrecede(a: Message, b: Message, sortBy: SortField, asc: bool) {
    match sortBy
    case ByCreated => if asc then a.createdAt <= b.createdAt else a.createdAt >= b.createdAt
    case ByUpdated => if asc then a.updatedAt <= b.updatedAt else a.updatedAt >= b.updatedAt
    case BySubject => a.subject == b.subject || (if asc then Strings.Less(a.subject, b.subject) else Strings.Less(b.subject, a.subject))
    case Unsorted => true
  }

  predicate SortedBy(list: seq<Message>, sortBy: SortField, asc: bool) {
    forall i, j :: 0 <= i < j < |list| ==> MayPrecede(list[i], list[j], sortBy, asc)
  }

  lemma InOrderSorted(list: seq<Message>, sortBy: SortField, asc: bool)
    requires InOrder(list, sortBy, asc)
    ensures SortedBy(list, sortBy, asc)
  {
    forall i, j | 0 <= i < j < |list| ensures MayPrecede(list[i], list[j], sortBy, asc) {
      assert !ShouldSwap(list[i], list[j], sortBy, asc);
      Strings.Trichotomy(list[i].subject, list[j].subject);
    }
  }

  lemma ShouldSwapOrders(a: Message, b: Message, c: Message, sortBy: SortField, asc: bool)
    ensures ShouldSwap(a, b, sortBy, asc) ==> !ShouldSwap(b, a, sortBy, asc)
    ensures !ShouldSwap(a, b, sortBy, asc) && !ShouldSwap(b, c, sortBy, asc) ==> !ShouldSwap(a, c, sortBy, asc)
  {
    Strings.Trichotomy(a.subject, b.subject);
    Strings.Trichotomy(b.subject, c.subject);
    Strings.Trichotomy(a.subject, c.subject);
    if Strings.Less(a.subject, b.subject) && Strings.Less(b.subject, c.subject) {
      Strings.Transitive(a.subject, b.subject, c.subject);
    }
    if Strings.Less(c.subject, b.subject) && Strings.Less(b.subject, a.subject) {
      Strings.Transitive(c.subject, b.subject, a.subject);
    }
  }

  /** The first `i` messages are in order among themselves and with all later ones. */
  predicate FrontInOrder(s: seq<Message>, i: nat, sortBy: SortField, asc: bool) {
    forall p, q :: 0 <= p < i && p < q < |s| ==> !ShouldSwap(s[p], s[q], sortBy, asc)
  }

  /** The message at `i` is not to be exchanged with any of those up to `j`. */
  predicate LeastUpTo(s: seq<Message>, i: nat, j: nat, sortBy: SortField, asc: bool)
    requires i < |s|
  {
    forall q :: i < q < j && q < |s| ==> !ShouldSwap(s[i], s[q], sortBy, asc)
  }

  lemma SwapKeeps(s: seq<Message>, i: nat, j: nat, sortBy: SortField, asc: bool)
    requires i < j < |s| && FrontInOrder(s, i, sortBy, asc) && LeastUpTo(s, i, j, sortBy, asc)
    requires ShouldSwap(s[i], s[j], sortBy, asc)
    ensures var t := s[i := s[j]][j := s[i]];
            && multiset(t) == multiset(s)
            && FrontInOrder(t, i, sortBy, asc)
            && LeastUpTo(t, i, j + 1, sortBy, asc)
  {
    var t := s[i := s[j]][j := s[i]];
    ShouldSwapOrders(s[i], s[j], s[j], sortBy, asc);
    forall q | i < q < j + 1 ensures !ShouldSwap(t[i], t[q], sortBy, asc) {
      if q < j {
        ShouldSwapOrders(s[j], s[i], s[q], sortBy, asc);
      }
    }
    forall p, q | 0 <= p < i && p < q < |t| ensures !ShouldSwap(t[p], t[q], sortBy, asc) {
      var q' := if q == i then j else if q == j then i else q;
      assert t[q] == s[q'] && t[p] == s[p];
    }
  }

  /** The exchange sort, in place. */
  method SortMessages(a: array<Message>, sortBy: SortField, asc: bool)
    modifies a
    ensures multiset(a[..]) == multiset(old(a[..]))
    ensures InOrder(a[..], sortBy, asc) && SortedBy(a[..], sortBy, asc)
  {
    for i := 0 to a.Length
      invariant multiset(a[..]) == multiset(old(a[..]))
      invariant FrontInOrder(a[..], i, sortBy, asc)
    {
      for j := i + 1 to a.Length
        invariant multiset(a[..]) == multiset(old(a[..]))
        invariant FrontInOrder(a[..], i, sortBy, asc)
        invariant LeastUpTo(a[..], i, j, sortBy, asc)
      {
        if ShouldSwap(a[i], a[j], sortBy, asc) {
          ghost var s := a[..];
          SwapKeeps(s, i, j, sortBy, asc);
          a[i], a[j] := a[j], a[i];
          assert a[..] == s[i := s[j]][j := s[i]];
        }
      }
    }
    InOrderSorted(a[..], sortBy, asc);
  }

  /** Collects the matching messages, in whatever order the map yields them. */
  method Collect(ms: map<Id, Message>, filter: Message -> bool, now: Time) returns (all: seq<Message>)
    requires WellKeyed(ms)
    ensures multiset(all) == multiset(Rows(ms, filter, now))
  {
    all := [];
    var todo := ms.Keys;
    ghost var done: set<Message> := {};
    while todo != {}
      invariant todo <= ms.Keys
      invariant forall m :: m in done <==> m.id in ms && m.id !in todo && ms[m.id] == m && Selects(m, filter, now)
      invariant multiset(all) == multiset(done)
    {
      var id :| id in todo;
      todo := todo - {id};
      if Selects(ms[id], filter, now) {
        all := all + [ms[id]];
        done := done + {ms[id]};
      }
    }
    assert done == Rows(ms, filter, now);
  }

  /** Exactly the stored messages that are no drafts, not scheduled for later and pass the filter. */
  ghost predicate AreVisible(all: seq<Message>, ms: map<Id, Message>, filter: Message -> bool, now: Time) {
    forall m :: m in all <==>
      m.id in ms && ms[m.id] == m && !m.isDraft && (m.availableAt.None? || m.availableAt.value <= now) && filter(m)
  }

  lemma CollectedAre(all: seq<Message>, ms: map<Id, Message>, filter: Message -> bool, now: Time)
    requires WellKeyed(ms) && multiset(all) == multiset(Rows(ms, filter, now))
    ensures AreVisible(all, ms, filter, now)
  {
    forall m
      ensures m in all <==>
              m.id in ms && ms[m.id] == m && !m.isDraft && (m.availableAt.None? || m.availableAt.value <= now) && filter(m)
    {
      RowsMember(ms, filter, now, m);
      assert m in all <==> m in multiset(all);
    }
  }

  /** The first index of the cursor, by a scan that stops at the first match. */
  method FindCursor(all: seq<Message>, startAfter: Id) returns (found: bool, start: nat)
    requires startAfter != ""
    ensures CursorStart(all, startAfter) == if found then Some(start) else None
  {
    found, start := false, 0;
    for i := 0 to |all|
      invariant forall k :: 0 <= k < i ==> all[k].id != startAfter
    {
      if all[i].id == startAfter {
        CursorStartIs(all, startAfter, i + 1);
        return true, i + 1;
      }
    }
  }

  /** The front, or the place behind the first message with the cursor's ID. */
  predicate StartsAt(all: seq<Message>, startAfter: Id, start: nat) {
    if startAfter == "" then start == 0
    else 0 < start <= |all| && all[start - 1].id == startAfter && forall i :: 0 <= i < start - 1 ==> all[i].id != startAfter
  }

  /** The messages from there on, up to the limit if there is one. */
  predicate Cut(page: Page, all: seq<Message>, start: nat, limit: nat) {
    && start <= |all| && page.messages <= all[start..]
    && (page.hasMore <==> start + |page.messages| < |all|)
    && (limit == 0 ==> !page.hasMore)
    && (limit > 0 ==> |page.messages| <= limit && (page.hasMore ==> |page.messages| == limit))
  }

  /** The page is cut out behind the cursor; it is empty for an unknown one. */
  ghost predicate CutsOut(page: Page, all: seq<Message>, startAfter: Id, limit: nat) {
    && page.total == |all|
    && if startAfter != "" && (forall i :: 0 <= i < |all| ==> all[i].id != startAfter) then page.messages == [] && !page.hasMore
       else exists start :: StartsAt(all, startAfter, start) && Cut(page, all, start, limit)
  }

  lemma {:induction false} FirstStart(all: seq<Message>, startAfter: Id) returns (start: nat)
    requires startAfter != "" && exists i :: 0 <= i < |all| && all[i].id == startAfter
    ensures StartsAt(all, startAfter, start)
  {
    if all[0].id == startAfter {
      start := 1;
    } else {
      var i :| 0 <= i < |all| && all[i].id == startAfter;
      assert all[1..][i - 1].id == startAfter;
      start := FirstStart(all[1..], startAfter);
      start := start + 1;
    }
  }

  lemma PageCut(all: seq<Message>, startAfter: Id, limit: nat)
    ensures CutsOut(IndexPage(all, startAfter, limit), all, startAfter, limit)
  {
    hide CursorStart;
    var page := IndexPage(all, startAfter, limit);
    if startAfter == "" {
      CursorFirst(all);
      assert StartsAt(all, startAfter, 0) && Cut(page, all, 0, limit);
    } else if exists i :: 0 <= i < |all| && all[i].id == startAfter {
      var start := FirstStart(all, startAfter);
      CursorStartIs(all, startAfter, start);
      assert Cut(page, all, start, limit);
    }
  }

  /** Collects, sorts in place, looks for the cursor and cuts out the page. */
  method MemoryFind(ms: map<Id, Message>, filter: Message -> bool, startAfter: Id, limit: nat, sortBy: SortField, asc: bool, now: Time)
    returns (page: Page, all: seq<Message>)
    requires WellKeyed(ms)
    ensures multiset(all) == multiset(Rows(ms, filter, now))
    ensures AreVisible(all, ms, filter, now)
    ensures InOrder(all, sortBy, asc) && SortedBy(all, sortBy, asc)
    ensures page == IndexPage(all, startAfter, limit)
    ensures CutsOut(page, all, startAfter, limit)
  {
    hide Rows, InOrder, SortedBy, CursorStart, AreVisible, CutsOut;
    all := Collect(ms, filter, now);
    var a := new Message[|all|](i requires 0 <= i < |all| => all[i]);
    assert a[..] == all;
    SortMessages(a, sortBy, asc);
    all := a[..];
    CollectedAre(all, ms, filter, now);
    PageCut(all, startAfter, limit);
    var start := 0;
    CursorFirst(all);
    if startAfter != "" {
      var found;
      found, start := FindCursor(all, startAfter);
      if !found {
        return Page([], |all|, false), all;
      }
    }
    assert CursorStart(all, startAfter) == Some(start);
    var end := start + limit;
    if limit == 0 {
      end := |all|;
    }
    if end > |all| {
      end := |all|;
    }
    page := Page(all[start..end], |all|, end < |all|);
  }

  lemma CursorFirst(list: seq<Message>)
    ensures CursorStart(list, "") == Some(0)
  {
  }

  lemma {:induction false} CursorStartIs(list: seq<Message>, startAfter: Id, start: nat)
    requires startAfter != "" && 0 < start <= |list| && list[start - 1].id == startAfter
    requires forall k :: 0 <= k < start - 1 ==> list[k].id != startAfter
    ensures CursorStart(list, startAfter) == Some(start)
  {
    if start > 1 {
      CursorStartIs(list[1..], startAfter, start - 1);
    }
  }

  // ---------------------------------------------------------------------
  // The two agree
  // ---------------------------------------------------------------------

  /** With distinct creation times any sorted permutation of the rows is the listing. */
  lemma SortedIsListing(all: seq<Message>, rows: set<Message>, asc: bool)
    requires DistinctTimes(rows)
    requires multiset(all) == multiset(rows) && InOrder(all, ByCreated, asc)
    ensures DistinctIds(rows) ==> all == Listing(rows, asc)
  {
    if DistinctIds(rows) {
      forall m ensures m in all <==> m in rows {
        assert m in multiset(all) <==> m in multiset(rows);
      }
      forall i, j | 0 <= i < j < |all| ensures Precedes(all[i], all[j], asc) {
        assert all[i] in rows && all[j] in rows;
        NotTwice(all, rows, i, j);
        assert !ShouldSwap(all[i], all[j], ByCreated, asc);
      }
      UniqueListing(all, rows, asc);
    }
  }

  lemma NotTwice<T>(all: seq<T>, rows: set<T>, i: nat, j: nat)
    requires multiset(all) == multiset(rows) && i < j < |all|
    ensures all[i] != all[j]
  {
    assert all == all[..j] + [all[j]] + all[j + 1..];
    assert all[i] in all[..j];
    assert multiset(rows)[all[i]] == multiset(all)[all[i]] <= 1;
  }

  /** The first pages agree. */
  lemma SameFirstPage(rows: set<Message>, limit: nat, asc: bool)
    requires DistinctIds(rows)
    ensures KeysetPage(rows, |rows|, limit, asc) == IndexPage(Listing(rows, asc), "", limit)
  {
    hide KeysetPage, IndexPage;
    var list := Listing(rows, asc);
    assert list[0..] == list;
    KeysetPageIsFront(rows, |rows|, limit, asc);
    FrontIsIndexPage(list, "", limit, 0, KeysetPage(rows, |rows|, limit, asc));
  }

  lemma SamePageFrom(rows: set<Message>, start: nat, limit: nat, asc: bool)
    requires DistinctIds(rows) && 0 < start <= |rows|
    requires CursorStart(Listing(rows, asc), Listing(rows, asc)[start - 1].id) == Some(start)
    ensures var c := Listing(rows, asc)[start - 1];
            KeysetPage(RowsAfter(rows, c, asc), |rows|, limit, asc) == IndexPage(Listing(rows, asc), c.id, limit)
  {
    hide Listing, RowsAfter, KeysetPage, IndexPage, CursorStart;
    var list := Listing(rows, asc);
    var beyond := RowsAfter(rows, list[start - 1], asc);
    DistinctAfter(rows, list[start - 1], asc);
    ListingAfter(rows, asc, start - 1);
    KeysetPageIsFront(beyond, |rows|, limit, asc);
    FrontIsIndexPage(list, list[start - 1].id, limit, start, KeysetPage(beyond, |rows|, limit, asc));
  }

  lemma DistinctAfter(rows: set<Message>, c: Message, asc: bool)
    requires DistinctIds(rows)
    ensures DistinctIds(RowsAfter(rows, c, asc))
  {
  }

  /** From a listed cursor both pagings return the same page. */
  lemma SamePageAt(rows: set<Message>, c: Message, limit: nat, asc: bool)
    requires DistinctIds(rows) && c in rows && c.id != ""
    ensures KeysetPage(RowsAfter(rows, c, asc), |rows|, limit, asc) == IndexPage(Listing(rows, asc), c.id, limit)
  {
    hide Listing, RowsAfter, KeysetPage, IndexPage, CursorStart;
    var list := Listing(rows, asc);
    assert c in list;
    var i :| 0 <= i < |list| && list[i] == c;
    var start := CursorStart(list, c.id).value;
    assert list[start - 1] in list;
    assert list[start - 1] in rows;
    assert list[start - 1] == c;
    DistinctAfter(rows, c, asc);
    SamePageFrom(rows, start, limit, asc);
  }

  /** With a cursor that is empty or still selected, both pagings return the same page. */
  lemma SamePage(ms: map<Id, Message>, filter: Message -> bool, startAfter: Id, limit: nat, asc: bool, now: Time)
    requires WellKeyed(ms)
    requires startAfter == "" || (startAfter in ms && ms[startAfter] in Rows(ms, filter, now))
    ensures DistinctIds(Rows(ms, filter, now))
    ensures KeysetFind(ms, filter, startAfter, limit, asc, now)
         == Found(IndexPage(Listing(Rows(ms, filter, now), asc), startAfter, limit))
  {
    hide Listing, RowsAfter, KeysetPage, IndexPage, CursorStart, Rows;
    RowsDistinct(ms, filter, now);
    var rows := Rows(ms, filter, now);
    if startAfter == "" {
      SameFirstPage(rows, limit, asc);
    } else {
      SamePageAt(rows, ms[startAfter], limit, asc);
    }
  }

  lemma FrontIsIndexPage(list: seq<Message>, startAfter: Id, limit: nat, start: nat, page: Page)
    requires CursorStart(list, startAfter) == Some(start)
    requires page.messages <= list[start..]
    requires |page.messages| == (if limit == 0 || |list| - start <= limit then |list| - start else limit)
    requires page.hasMore <==> |page.messages| < |list| - start
    requires page.total == |list|
    ensures page == IndexPage(list, startAfter, limit)
  {
    assert page.messages == list[start..start + |page.messages|];
  }

  /** The two agree exactly from the start, from a stored cursor that is still selected, and from a stored
      cursor that nothing follows. A cursor that is gone is an error for keyset paging and an empty page for
      the other. */
  lemma SamePageIff(ms: map<Id, Message>, filter: Message -> bool, startAfter: Id, limit: nat, asc: bool, now: Time)
    requires WellKeyed(ms)
    ensures DistinctIds(Rows(ms, filter, now))
    ensures KeysetFind(ms, filter, startAfter, limit, asc, now)
         == Found(IndexPage(Listing(Rows(ms, filter, now), asc), startAfter, limit))
       <==> startAfter == "" || (startAfter in ms &&
              (Selects(ms[startAfter], filter, now) || RowsAfter(Rows(ms, filter, now), ms[startAfter], asc) == {}))
    ensures startAfter != "" && startAfter !in ms ==>
              && KeysetFind(ms, filter, startAfter, limit, asc, now) == CursorNotFound
              && IndexPage(Listing(Rows(ms, filter, now), asc), startAfter, limit) == Page([], |Rows(ms, filter, now)|, false)
  {
    hide KeysetPage, Listing, RowsAfter, CursorStart;
    RowsDistinct(ms, filter, now);
    var rows := Rows(ms, filter, now);
    var list := Listing(rows, asc);
    if startAfter == "" || (startAfter in ms && Selects(ms[startAfter], filter, now)) {
      SamePage(ms, filter, startAfter, limit, asc, now);
    } else {
      forall i | 0 <= i < |list| ensures list[i].id != startAfter {
        assert list[i] in list;
        assert list[i] in rows;
      }
      if startAfter in ms {
        DistinctAfter(rows, ms[startAfter], asc);
        KeysetPageIsFront(RowsAfter(rows, ms[startAfter], asc), |rows|, limit, asc);
      }
    }
  }
}
