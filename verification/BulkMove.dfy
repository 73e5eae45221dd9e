/**
The paginated loop behind MoveByFilter and DeleteByFilter (mutate.go) over a
store with keyset paging. Every move can drop the message, and with it the
cursor row, out of the filter the loop is paging through.
*/
module BulkMove {
  import opened Messages
  import opened Paging

  function Moved(m: Message, folderId: string, stamp: Time): Message {
    m.(folderId := folderId, updatedAt := stamp)
  }

  /** The store after moving the messages with the given IDs. */
  function Moves(ms: map<Id, Message>, ids: set<Id>, folderId: string, stamp: Time): map<Id, Message> {
    map id | id in ms :: if id in ids then Moved(ms[id], folderId, stamp) else ms[id]
  }

  /** The one-shot bulk update: every selected message, in one operation (store/mongo/write.go). */
  function MoveAll(ms: map<Id, Message>, filter: Message -> bool, folderId: string, now: Time, stamp: Time): map<Id, Message> {
    map id | id in ms :: if Selects(ms[id], filter, now) then Moved(ms[id], folderId, stamp) else ms[id]
  }

  /** The matches the one-shot update really changes; their number is the count it returns. */
  function Modified(ms: map<Id, Message>, filter: Message -> bool, folderId: string, now: Time, stamp: Time): set<Message> {
    set m | m in Rows(ms, filter, now) && Moved(m, folderId, stamp) != m
  }

  /** The query result the loop started from. */
  ghost function Start(ms: map<Id, Message>, filter: Message -> bool, now: Time): seq<Message>
    requires WellKeyed(ms)
  {
    RowsDistinct(ms, filter, now);
    Listing(Rows(ms, filter, now), false)
  }

  // ---------------------------------------------------------------------
  // The next page after some moves
  // ---------------------------------------------------------------------

  lemma StartFacts(ms: map<Id, Message>, filter: Message -> bool, now: Time, k: nat)
    requires WellKeyed(ms) && k < |Start(ms, filter, now)|
    ensures var m := Start(ms, filter, now)[k]; m.id in ms && ms[m.id] == m && Selects(m, filter, now)
  {
    RowsDistinct(ms, filter, now);
    assert Start(ms, filter, now)[k] in Rows(ms, filter, now);
  }

  /** Moving any of the first `k` messages changes nothing behind the `k`-th one's key. */
  lemma RowsBehindCursor(ms: map<Id, Message>, filter: Message -> bool, now: Time, k: nat, ids: set<Id>, folderId: string, stamp: Time)
    requires WellKeyed(ms) && 0 < k <= |Start(ms, filter, now)| && ids <= Ids(Start(ms, filter, now)[..k])
    ensures var ms' := Moves(ms, ids, folderId, stamp);
            var c := Start(ms, filter, now)[k - 1];
            && c.id in ms'
            && RowsAfter(Rows(ms', filter, now), ms'[c.id], false) == RowsAfter(Rows(ms, filter, now), c, false)
  {
    var list := Start(ms, filter, now);
    var ms' := Moves(ms, ids, folderId, stamp);
    var c := list[k - 1];
    StartFacts(ms, filter, now, k - 1);
    forall id | id in ms && Precedes(c, ms[id], false) ensures id !in ids {
      if id in ids {
        var m :| m in list[..k] && m.id == id;
        var i :| 0 <= i < k && list[i] == m;
        StartFacts(ms, filter, now, i);
        ListingSorted(Rows(ms, filter, now), false);
        NotBehind(list, i, k - 1);
      }
    }
    forall r: Message
      ensures r in RowsAfter(Rows(ms', filter, now), ms'[c.id], false) <==> r in RowsAfter(Rows(ms, filter, now), c, false)
    {
      if r in Rows(ms', filter, now) && Precedes(ms'[c.id], r, false) {
        assert r.id in ms && Precedes(c, ms[r.id], false);
      }
      if r in Rows(ms, filter, now) && Precedes(c, r, false) {
        assert r.id in ms && ms[r.id] == r;
        assert ms'[r.id] == r;
      }
    }
  }

  lemma NotBehind(list: seq<Message>, i: nat, j: nat)
    requires Sorted(list, false) && i <= j < |list|
    ensures !Precedes(list[j], list[i], false)
  {
    PrecedesIrreflexive(list[i], false);
    if i < j && Precedes(list[j], list[i], false) {
      PrecedesTransitive(list[i], list[j], list[i], false);
    }
  }

  /** A page that starts the given list, says truly whether more follows, and makes progress. */
  predicate IsNext(found: FindResult, rest: seq<Message>) {
    && found.Found?
    && found.page.messages <= rest
    && (found.page.hasMore <==> |found.page.messages| < |rest|)
    && (found.page.messages == [] ==> rest == [])
  }

  lemma FrontIsNext(beyond: set<Message>, total: nat, limit: nat)
    requires DistinctIds(beyond)
    ensures IsNext(Found(KeysetPage(beyond, total, limit, false)), Listing(beyond, false))
  {
    hide Listing;
    KeysetPageIsFront(beyond, total, limit, false);
  }

  lemma MovesNothing(ms: map<Id, Message>, folderId: string, stamp: Time)
    ensures Ids([]) == {} && Moves(ms, {}, folderId, stamp) == ms
  {
  }

  lemma MovedWellKeyed(ms: map<Id, Message>, ids: set<Id>, folderId: string, stamp: Time)
    requires WellKeyed(ms)
    ensures WellKeyed(Moves(ms, ids, folderId, stamp))
  {
  }

  lemma FirstPage(ms: map<Id, Message>, filter: Message -> bool, now: Time, limit: nat)
    requires WellKeyed(ms)
    ensures IsNext(KeysetFind(ms, filter, "", limit, false, now), Start(ms, filter, now))
  {
    hide Listing, KeysetPage, Rows;
    RowsDistinct(ms, filter, now);
    FrontIsNext(Rows(ms, filter, now), |Rows(ms, filter, now)|, limit);
  }

  /** So the next page is the next stretch of the original result, moved messages or not. */
  lemma NextPage(ms: map<Id, Message>, filter: Message -> bool, now: Time, k: nat, ids: set<Id>, folderId: string, stamp: Time, limit: nat)
    requires WellKeyed(ms) && "" !in ms && k <= |Start(ms, filter, now)| && ids <= Ids(Start(ms, filter, now)[..k])
    ensures var list := Start(ms, filter, now);
            var ms' := Moves(ms, ids, folderId, stamp);
            && WellKeyed(ms')
            && IsNext(KeysetFind(ms', filter, if k == 0 then "" else list[k - 1].id, limit, false, now), list[k..])
  {
    hide Listing, Precedes, KeysetPage, RowsAfter, Moves, IsNext, Rows;
    var list := Start(ms, filter, now);
    var rows := Rows(ms, filter, now);
    var ms' := Moves(ms, ids, folderId, stamp);
    MovedWellKeyed(ms, ids, folderId, stamp);
    RowsDistinct(ms, filter, now);
    RowsDistinct(ms', filter, now);
    if k == 0 {
      assert list[..0] == [] && list[0..] == list;
      MovesNothing(ms, folderId, stamp);
      assert ids == {};
      FirstPage(ms, filter, now, limit);
    } else {
      StartFacts(ms, filter, now, k - 1);
      RowsBehindCursor(ms, filter, now, k, ids, folderId, stamp);
      ListingAfter(rows, false, k - 1);
      DistinctAfter(rows, list[k - 1], false);
      FrontIsNext(RowsAfter(rows, list[k - 1], false), |Rows(ms', filter, now)|, limit);
    }
  }

  lemma MovesMore(ms: map<Id, Message>, ids: set<Id>, id: Id, folderId: string, stamp: Time)
    requires id in ms
    ensures var ms' := Moves(ms, ids, folderId, stamp);
            id in ms' && ms'[id].isDraft == ms[id].isDraft &&
            ms'[id := Moved(ms'[id], folderId, stamp)] == Moves(ms, ids + {id}, folderId, stamp)
  {
  }

  /** Moving one more message of the original result. */
  lemma MoveOneMore(ms: map<Id, Message>, filter: Message -> bool, now: Time, k: nat, folderId: string, stamp: Time)
    requires WellKeyed(ms) && k < |Start(ms, filter, now)|
    ensures var list := Start(ms, filter, now);
            var ms' := Moves(ms, Ids(list[..k]), folderId, stamp);
            && list[k].id in ms' && !ms'[list[k].id].isDraft
            && ms'[list[k].id := Moved(ms'[list[k].id], folderId, stamp)] == Moves(ms, Ids(list[..k + 1]), folderId, stamp)
  {
    hide Start, Moves, Moved;
    var list := Start(ms, filter, now);
    StartFacts(ms, filter, now, k);
    MovesMore(ms, Ids(list[..k]), list[k].id, folderId, stamp);
    assert Ids(list[..k + 1]) == Ids(list[..k]) + {list[k].id} by {
      IdsMore(list, k);
    }
  }

  lemma IdsMore(list: seq<Message>, k: nat)
    requires k < |list|
    ensures Ids(list[..k + 1]) == Ids(list[..k]) + {list[k].id}
  {
    assert list[..k + 1] == list[..k] + [list[k]];
  }

  /** Moving the whole original result is the one-shot update; the loop counts every match, the one-shot update
      those that are not yet in the folder with this time. */
  lemma MovesAreMoveAll(ms: map<Id, Message>, filter: Message -> bool, now: Time, folderId: string, stamp: Time)
    requires WellKeyed(ms)
    ensures Moves(ms, Ids(Start(ms, filter, now)), folderId, stamp) == MoveAll(ms, filter, folderId, now, stamp)
    ensures |Start(ms, filter, now)| == |Rows(ms, filter, now)|
    ensures |Modified(ms, filter, folderId, now, stamp)| == |Start(ms, filter, now)| <==>
            forall m :: m in Rows(ms, filter, now) ==> m.folderId != folderId || m.updatedAt != stamp
  {
    hide Rows, Ids, Listing, Modified, Selects;
    RowsDistinct(ms, filter, now);
    AllModifiedIff(ms, filter, now, folderId, stamp);
    forall id | id in ms ensures id in Ids(Start(ms, filter, now)) <==> Selects(ms[id], filter, now) {
      StartHas(ms, filter, now, id);
    }
  }

  lemma MoveAllIs(ms: map<Id, Message>, filter: Message -> bool, now: Time, folderId: string, stamp: Time)
    ensures var ms' := MoveAll(ms, filter, folderId, now, stamp);
            && ms'.Keys == ms.Keys
            && forall id :: id in ms' ==>
                 var m := ms[id];
                 ms'[id] == if !m.isDraft && (m.availableAt.None? || m.availableAt.value <= now) && filter(m)
                            then m.(folderId := folderId, updatedAt := stamp) else m
  {
  }

  lemma StartHas(ms: map<Id, Message>, filter: Message -> bool, now: Time, id: Id)
    requires WellKeyed(ms) && id in ms
    ensures id in Ids(Start(ms, filter, now)) <==> Selects(ms[id], filter, now)
  {
    hide Listing;
    var list := Start(ms, filter, now);
    RowsDistinct(ms, filter, now);
    if Selects(ms[id], filter, now) {
      assert ms[id] in Rows(ms, filter, now);
      assert ms[id] in list;
    }
    if id in Ids(list) {
      var m :| m in list && m.id == id;
      assert m in Rows(ms, filter, now);
    }
  }

  lemma AllModifiedIff(ms: map<Id, Message>, filter: Message -> bool, now: Time, folderId: string, stamp: Time)
    ensures |Modified(ms, filter, folderId, now, stamp)| == |Rows(ms, filter, now)| <==>
            forall m :: m in Rows(ms, filter, now) ==> m.folderId != folderId || m.updatedAt != stamp
    ensures |Modified(ms, filter, folderId, now, stamp)| == 0 <==>
            forall m :: m in Rows(ms, filter, now) ==> m.folderId == folderId && m.updatedAt == stamp
  {
    hide Rows;
    var rows, modified := Rows(ms, filter, now), Modified(ms, filter, folderId, now, stamp);
    forall m | m in rows ensures Moved(m, folderId, stamp) == m <==> m.folderId == folderId && m.updatedAt == stamp {
    }
    assert rows == modified + (rows - modified);
    assert |rows| == |modified| + |rows - modified|;
    if |modified| == |rows| {
      assert rows - modified == {};
    }
    if forall m :: m in rows ==> m.folderId != folderId || m.updatedAt != stamp {
      assert modified == rows;
    }
    assert |modified| == 0 <==> modified == {};
  }

  // ---------------------------------------------------------------------
  // The loop
  // ---------------------------------------------------------------------

  class KeysetStore {
    var ms: map<Id, Message>

    constructor (ms: map<Id, Message>)
      ensures this.ms == ms
    {
      this.ms := ms;
    }

    /** Moves one message; refused for an invalid target folder, an unknown ID or a draft. */
    method MoveToFolder(id: Id, folderId: string, stamp: Time) returns (ok: bool)
      modifies this
      ensures ok <==> IsValidFolderId(folderId) && id in old(ms) && !old(ms)[id].isDraft
      ensures ms == if ok then old(ms)[id := Moved(old(ms)[id], folderId, stamp)] else old(ms)
    {
      if !IsValidFolderId(folderId) || id !in ms || ms[id].isDraft {
        return false;
      }
      ms := ms[id := Moved(ms[id], folderId, stamp)];
      ok := true;
    }

    /** Moves the messages of one page, which are the next ones of the original result. */
    method MovePage(page: seq<Message>, folderId: string, stamp: Time,
                    ghost ms0: map<Id, Message>, ghost filter: Message -> bool, ghost now: Time, ghost k: nat)
      returns (count: nat)
      requires WellKeyed(ms0) && k <= |Start(ms0, filter, now)| && page <= Start(ms0, filter, now)[k..]
      requires IsValidFolderId(folderId) ==> ms == Moves(ms0, Ids(Start(ms0, filter, now)[..k]), folderId, stamp)
      modifies this
      ensures IsValidFolderId(folderId) ==>
                count == |page| && ms == Moves(ms0, Ids(Start(ms0, filter, now)[..k + |page|]), folderId, stamp)
      ensures !IsValidFolderId(folderId) ==> count == 0 && ms == old(ms)
    {
      hide Listing, Moves, Ids;
      count := 0;
      for i := 0 to |page|
        invariant IsValidFolderId(folderId) ==>
                    count == i && ms == Moves(ms0, Ids(Start(ms0, filter, now)[..k + i]), folderId, stamp)
        invariant !IsValidFolderId(folderId) ==> count == 0 && ms == old(ms)
      {
        assert page[i] == Start(ms0, filter, now)[k..][i];
        MoveOneMore(ms0, filter, now, k + i, folderId, stamp);
        var ok := MoveToFolder(page[i].id, folderId, stamp);
        if ok {
          count := count + 1;
        }
      }
    }

    /** The paginated loop. It ends, and for a valid folder it moves every message that matched at the
        start exactly once and in listing order (`log`), counts each of them, touches nothing else, and so
        leaves the store of the one-shot update. */
    method MoveByFilter(filter: Message -> bool, folderId: string, limit: nat, now: Time, stamp: Time)
      returns (count: nat, ghost log: seq<Message>)
      requires WellKeyed(ms) && "" !in ms
      modifies this
      ensures IsValidFolderId(folderId) ==>
                && ms == MoveAll(old(ms), filter, folderId, now, stamp)
                && count == |Rows(old(ms), filter, now)|
                && log == Start(old(ms), filter, now)
      ensures IsValidFolderId(folderId) ==>
                && ms.Keys == old(ms).Keys
                && forall id :: id in ms ==>
                     var m := old(ms)[id];
                     ms[id] == if !m.isDraft && (m.availableAt.None? || m.availableAt.value <= now) && filter(m)
                               then m.(folderId := folderId, updatedAt := stamp) else m
      ensures !IsValidFolderId(folderId) ==> ms == old(ms) && count == 0
    {
      hide Start, Moves, Ids, MoveAll, Rows, KeysetFind;
      ghost var ms0 := ms;
      ghost var list := Start(ms0, filter, now);
      ghost var k := 0;
      count, log := 0, [];
      var cursor: Id := "";
      MovesNothing(ms0, folderId, stamp);
      while true
        invariant k <= |list|
        invariant cursor == if k == 0 then "" else list[k - 1].id
        invariant log == list[..k]
        invariant IsValidFolderId(folderId) ==> count == k && ms == Moves(ms0, Ids(list[..k]), folderId, stamp)
        invariant !IsValidFolderId(folderId) ==> count == 0 && ms == ms0
        decreases |list| - k
      {
        NextPage(ms0, filter, now, k, if IsValidFolderId(folderId) then Ids(list[..k]) else {}, folderId, stamp, limit);
        var found := KeysetFind(ms, filter, cursor, limit, false, now);
        var page := found.page;
        var moved := MovePage(page.messages, folderId, stamp, ms0, filter, now, k);
        count := count + moved;
        log := log + page.messages;
        k := k + |page.messages|;
        if !page.hasMore || |page.messages| == 0 {
          break;
        }
        cursor := page.messages[|page.messages| - 1].id;
      }
      assert list[..|list|] == list;
      MovesAreMoveAll(ms0, filter, now, folderId, stamp);
      MoveAllIs(ms0, filter, now, folderId, stamp);
    }
  }

  /** Only the loop checks the folder, and only the one-shot update leaves out of its count the matches that
      already are in the folder with this time. So both give the same store and count exactly when the
      folder is valid and there is no such match, or it is invalid and there is no other. */
  method CompareWithOneShot(ms: map<Id, Message>, filter: Message -> bool, folderId: string, limit: nat, now: Time, stamp: Time)
    returns (same: bool, sameStore: bool)
    requires WellKeyed(ms) && "" !in ms
    ensures same <==>
            if IsValidFolderId(folderId) then forall m :: m in Rows(ms, filter, now) ==> m.folderId != folderId || m.updatedAt != stamp
            else forall m :: m in Rows(ms, filter, now) ==> m.folderId == folderId && m.updatedAt == stamp
    ensures sameStore <==>
              IsValidFolderId(folderId) || forall m :: m in Rows(ms, filter, now) ==> m.folderId == folderId && m.updatedAt == stamp
  {
    hide Rows, MoveAll, Modified;
    var store := new KeysetStore(ms);
    var count, _ := store.MoveByFilter(filter, folderId, limit, now, stamp);
    sameStore := store.ms == MoveAll(ms, filter, folderId, now, stamp);
    same := sameStore && count == |Modified(ms, filter, folderId, now, stamp)|;
    MoveAllSameIff(ms, filter, folderId, now, stamp);
    AllModifiedIff(ms, filter, now, folderId, stamp);
  }

  /** The one-shot update changes nothing exactly when every match is in the folder and carries the time. */
  lemma MoveAllSameIff(ms: map<Id, Message>, filter: Message -> bool, folderId: string, now: Time, stamp: Time)
    requires WellKeyed(ms)
    ensures MoveAll(ms, filter, folderId, now, stamp) == ms <==>
            forall m :: m in Rows(ms, filter, now) ==> m.folderId == folderId && m.updatedAt == stamp
  {
    forall id | id in ms && Selects(ms[id], filter, now)
      ensures MoveAll(ms, filter, folderId, now, stamp)[id] == ms[id] <==> ms[id].folderId == folderId && ms[id].updatedAt == stamp
      ensures ms[id] in Rows(ms, filter, now)
    {
      RowsMember(ms, filter, now, ms[id]);
    }
    if forall m :: m in Rows(ms, filter, now) ==> m.folderId == folderId && m.updatedAt == stamp {
      assert MoveAll(ms, filter, folderId, now, stamp) == ms;
    }
  }
}
