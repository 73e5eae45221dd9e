/**
Bulk updates by filter: numbered UPDATE statements (store/postgres/write.go) and
the loop over messages of the memory store (store/memory/write.go).
*/
module BulkUpdates {
  import opened Messages
  import opened Filters
  import opened Uuids

  // ---------------------------------------------------------------------
  // The memory store
  // ---------------------------------------------------------------------

  predicate SelectedBy(m: Message, ownerId: string, filters: seq<Filter>, now: Time) {
    !m.isDraft && m.ownerId == ownerId && IsAvailable(m, now) && MatchesFilters(m, filters)
  }

  predicate AllSupported(filters: seq<Filter>) {
    forall i :: 0 <= i < |filters| ==> Supported(filters[i])
  }

  function SelectedIds(ms: map<Id, Message>, ownerId: string, filters: seq<Filter>, now: Time): set<Id> {
    set id | id in ms && SelectedBy(ms[id], ownerId, filters, now)
  }

  function Touched(fn: Message -> Message, m: Message, now: Time): Message {
    fn(m).(updatedAt := now)
  }

  /** Exactly the selected messages are changed. */
  function UpdateFiltered(ms: map<Id, Message>, ownerId: string, filters: seq<Filter>, fn: Message -> Message, now: Time): map<Id, Message> {
    map id | id in ms :: if SelectedBy(ms[id], ownerId, filters, now) then Touched(fn, ms[id], now) else ms[id]
  }

  class MemoryStore {
    var messages: map<Id, Message>

    constructor (ms: map<Id, Message>)
      ensures messages == ms
    {
      messages := ms;
    }

    method IterateFiltered(ownerId: string, filters: seq<Filter>, fn: Message -> Message, now: Time) returns (count: nat)
      modifies this
      ensures messages == UpdateFiltered(old(messages), ownerId, filters, fn, now)
      ensures count == |SelectedIds(old(messages), ownerId, filters, now)|
      ensures messages.Keys == old(messages).Keys
      ensures forall id :: id in messages ==>
                var m := old(messages)[id];
                messages[id] == if !m.isDraft && m.ownerId == ownerId && (m.availableAt.None? || m.availableAt.value <= now) && MatchesFilters(m, filters)
                                then fn(m).(updatedAt := now) else m
    {
      hide MatchesFilters, SelectedIds;
      count := 0;
      var todo := messages.Keys;
      ghost var ms := messages;
      NoneSelected(ms, ownerId, filters, now);
      while todo != {}
        invariant todo <= messages.Keys == ms.Keys
        invariant forall id :: id in ms ==>
                    messages[id] == if id !in todo && SelectedBy(ms[id], ownerId, filters, now) then Touched(fn, ms[id], now) else ms[id]
        invariant count == |SelectedIds(ms - todo, ownerId, filters, now)|
      {
        var id :| id in todo;
        var m := messages[id];
        OneMoreSelected(ms, todo, id, ownerId, filters, now);
        todo := todo - {id};
        if m.isDraft || m.ownerId != ownerId || !IsAvailable(m, now) || !MatchesFilters(m, filters) {
          continue;
        }
        messages := messages[id := Touched(fn, m, now)];
        count := count + 1;
      }
      assert ms - todo == ms;
    }
  }

  lemma NoneSelected(ms: map<Id, Message>, ownerId: string, filters: seq<Filter>, now: Time)
    ensures SelectedIds(ms - ms.Keys, ownerId, filters, now) == {}
  {
  }

  lemma OneMoreSelected(ms: map<Id, Message>, todo: set<Id>, id: Id, ownerId: string, filters: seq<Filter>, now: Time)
    requires id in todo && todo <= ms.Keys
    ensures |SelectedIds(ms - (todo - {id}), ownerId, filters, now)| ==
            |SelectedIds(ms - todo, ownerId, filters, now)| + if SelectedBy(ms[id], ownerId, filters, now) then 1 else 0
  {
    hide SelectedBy;
    var before, after := SelectedIds(ms - todo, ownerId, filters, now), SelectedIds(ms - (todo - {id}), ownerId, filters, now);
    assert after == if SelectedBy(ms[id], ownerId, filters, now) then before + {id} else before;
  }

  // ---------------------------------------------------------------------
  // Statements
  // ---------------------------------------------------------------------

  /** An assignment of a SET clause; k numbers its placeholder. */
  datatype Assign =
    | IsReadTo(k: int)
    | ReadAtTo(k: int)
    | ReadAtNull
    | UpdatedAtTo(k: int)
    | FolderTo(k: int)
    | TagsAppend(k: int)
    | TagsRemove(k: int)

  datatype Statement = Statement(sets: seq<Assign>, where: seq<Cond>, params: seq<Value>)

  function RemoveAll(tags: seq<string>, tag: string): seq<string> {
    if tags == [] then []
    else if tags[0] == tag then RemoveAll(tags[1..], tag)
    else [tags[0]] + RemoveAll(tags[1..], tag)
  }

  /** A missing parameter or one of the wrong type fails the statement. */
  function Assigned(m: Message, a: Assign, params: seq<Value>): Option<Message> {
    var p := if a.ReadAtNull? then Some(Nil) else Param(params, a.k);
    if p.None? then None
    else
      match a
      case IsReadTo(_) => if p.value.Bool? then Some(m.(isRead := p.value.b)) else None
      case ReadAtTo(_) => if p.value.Instant? then Some(m.(readAt := Some(p.value.t))) else None
      case ReadAtNull => Some(m.(readAt := None))
      case UpdatedAtTo(_) => if p.value.Instant? then Some(m.(updatedAt := p.value.t)) else None
      case FolderTo(_) => if p.value.Text? then Some(m.(folderId := p.value.s)) else None
      case TagsAppend(_) => if p.value.Text? then Some(m.(tags := m.tags + [p.value.s])) else None
      case TagsRemove(_) => if p.value.Text? then Some(m.(tags := RemoveAll(m.tags, p.value.s))) else None
  }

  function AssignAll(m: Message, sets: seq<Assign>, params: seq<Value>): Option<Message>
    decreases |sets|
  {
    if sets == [] then Some(m)
    else
      var r := Assigned(m, sets[0], params);
      if r.None? then None else AssignAll(r.value, sets[1..], params)
  }

  function Row(st: Statement, m: Message, now: Time): Option<Message> {
    match EvalAll(st.where, st.params, m, now)
    case Fault => None
    case True => AssignAll(m, st.sets, st.params)
    case _ => Some(m)
  }

  /** The statement changes this row. */
  predicate Hits(st: Statement, m: Message, now: Time) {
    EvalAll(st.where, st.params, m, now).True?
  }

  /** The rows a statement changes; their number is the count it returns. */
  function Affected(st: Statement, rows: map<Id, Message>, now: Time): set<Id> {
    set id | id in rows && Hits(st, rows[id], now)
  }

  predicate IsTable(rows: map<Id, Message>) {
    forall id :: id in rows ==> IsRow(rows[id])
  }

  /** The rows after the statement. A statement that fails on some possible row fails on every table: types
      are checked before any row is read. */
  ghost function Exec(st: Statement, rows: map<Id, Message>, now: Time): Option<map<Id, Message>>
    requires IsTable(rows)
  {
    if exists m :: IsRow(m) && Row(st, m, now).None? then None
    else Some(map id | id in rows :: Row(st, rows[id], now).value)
  }

  // ---------------------------------------------------------------------
  // The WHERE clause of bulk updates
  // ---------------------------------------------------------------------

  const OWNED := [Compared(FOwnerId, Eq, 1), NotDraft, Available]

  method BulkWhere(ownerId: string, filters: seq<Filter>) returns (where: seq<Cond>, args: seq<Value>)
    ensures where == OWNED + Conds(filters, 2)
    ensures args == [Text(ownerId)] + Args(filters)
  {
    var conds, rest := BuildWhereClauseFrom(filters, 2);
    where := OWNED + conds;
    args := [Text(ownerId)] + rest;
  }

  lemma {:induction false} EvalAllConcat(a: seq<Cond>, b: seq<Cond>, params: seq<Value>, m: Message, now: Time)
    ensures EvalAll(a + b, params, m, now) == And(EvalAll(a, params, m, now), EvalAll(b, params, m, now))
  {
    hide Eval;
    if b == [] {
      assert a + b == a;
    } else {
      var n := |b| - 1;
      assert (a + b)[..|a + b| - 1] == a + b[..n];
      EvalAllConcat(a, b[..n], params, m, now);
    }
  }

  lemma OwnedIs(ownerId: string, rest: seq<Value>, m: Message, now: Time)
    ensures EvalAll(OWNED, [Text(ownerId)] + rest, m, now) == Truly(m.ownerId == ownerId && !m.isDraft && IsAvailable(m, now))
  {
    hide EvalAll, Eval;
    var params := [Text(ownerId)] + rest;
    var owner := Compared(FOwnerId, Eq, 1);
    EvalNone(params, m, now);
    EvalAllMore([], owner, params, m, now);
    EvalAllMore([owner], NotDraft, params, m, now);
    EvalAllMore([owner, NotDraft], Available, params, m, now);
    assert [] + [owner] == [owner] && [owner] + [NotDraft] == [owner, NotDraft] && [owner, NotDraft] + [Available] == OWNED;
    OwnerCondition(ownerId, rest, m, now);
    FlagConditions(params, m, now);
  }

  lemma EvalNone(params: seq<Value>, m: Message, now: Time)
    ensures EvalAll([], params, m, now) == True
  {
  }

  lemma OwnerCondition(ownerId: string, rest: seq<Value>, m: Message, now: Time)
    ensures Eval(Compared(FOwnerId, Eq, 1), [Text(ownerId)] + rest, m, now) == Truly(m.ownerId == ownerId)
  {
    hide Parse, Show;
    assert Param([Text(ownerId)] + rest, 1) == Some(Text(ownerId));
  }

  lemma FlagConditions(params: seq<Value>, m: Message, now: Time)
    ensures Eval(NotDraft, params, m, now) == Truly(!m.isDraft) && Eval(Available, params, m, now) == Truly(IsAvailable(m, now))
  {
  }

  /** The clause of a bulk update fails exactly when an ID is compared with a text that is no UUID. Otherwise it
      selects what the memory store selects with IDs in their canonical spelling, whatever is appended to its
      arguments. */
  lemma WhereAgrees(ownerId: string, filters: seq<Filter>, extra: seq<Value>, m: Message, now: Time)
    requires AllSupported(filters) && IsRow(m)
    ensures var t := EvalAll(OWNED + Conds(filters, 2), [Text(ownerId)] + Args(filters) + extra, m, now);
            && (t.Fault? <==> !AllReadable(filters))
            && (AllReadable(filters) ==> (t.True? <==> SelectedBy(m, ownerId, NormalizedAll(filters), now)))
  {
    hide Supported, Conds, Args, MatchesFilters, EvalAll, AllReadable, NormalizedAll, CanonicalIds, IsRow;
    ClauseAgrees(filters, m, [Text(ownerId)], extra, now);
    OwnedIs(ownerId, Args(filters) + extra, m, now);
    var params := [Text(ownerId)] + Args(filters) + extra;
    assert params == [Text(ownerId)] + (Args(filters) + extra);
    EvalAllConcat(OWNED, Conds(filters, 2), params, m, now);
  }

  // ---------------------------------------------------------------------
  // The four updates
  // ---------------------------------------------------------------------

  function MoveStatement(ownerId: string, filters: seq<Filter>, folderId: string, now: Time): Statement {
    var args := [Text(ownerId)] + Args(filters);
    Statement([FolderTo(|args| + 1), UpdatedAtTo(|args| + 2)], OWNED + Conds(filters, 2), args + [Text(folderId), Instant(now)])
  }

  function MarkReadStatement(ownerId: string, filters: seq<Filter>, read: bool, now: Time): Statement {
    var args := [Text(ownerId)] + Args(filters);
    var n := |args|;
    if read then
      Statement([IsReadTo(n + 1), ReadAtTo(n + 2), UpdatedAtTo(n + 3)], OWNED + Conds(filters, 2), args + [Bool(true), Instant(now), Instant(now)])
    else
      Statement([IsReadTo(n + 1), ReadAtNull, UpdatedAtTo(n + 2)], OWNED + Conds(filters, 2), args + [Bool(false), Instant(now)])
  }

  function AddTagStatement(ownerId: string, filters: seq<Filter>, tagId: string, now: Time): Statement {
    var args := [Text(ownerId)] + Args(filters);
    var n := |args|;
    Statement([TagsAppend(n + 1), UpdatedAtTo(n + 2)], OWNED + Conds(filters, 2) + [HasNot(FTags, n + 3)],
              args + [Text(tagId), Instant(now), Text(tagId)])
  }

  function RemoveTagStatement(ownerId: string, filters: seq<Filter>, tagId: string, now: Time): Statement {
    var args := [Text(ownerId)] + Args(filters);
    Statement([TagsRemove(|args| + 1), UpdatedAtTo(|args| + 2)], OWNED + Conds(filters, 2), args + [Text(tagId), Instant(now)])
  }

  // ---------------------------------------------------------------------
  // What the statements do
  // ---------------------------------------------------------------------

  function Relocated(folderId: string): Message -> Message {
    (m: Message) => m.(folderId := folderId)
  }

  function Flagged(read: bool, now: Time): Message -> Message {
    (m: Message) => m.(isRead := read, readAt := if read then Some(now) else None)
  }

  function Tagged(tagId: string): Message -> Message {
    (m: Message) => if tagId in m.tags then m else m.(tags := m.tags + [tagId])
  }

  function Untagged(tagId: string): Message -> Message {
    (m: Message) => m.(tags := WithoutFirst(m.tags, tagId))
  }

  /** Appended arguments are found under the numbers given to them. */
  lemma Appended(args: seq<Value>, extra: seq<Value>, j: int)
    requires 0 <= j < |extra|
    ensures Param(args + extra, |args| + 1 + j) == Some(Bound(extra[j]))
  {
  }

  lemma MoveRow(ownerId: string, filters: seq<Filter>, folderId: string, m: Message, now: Time)
    requires AllSupported(filters) && IsRow(m)
    ensures Row(MoveStatement(ownerId, filters, folderId, now), m, now) ==
            if !AllReadable(filters) then None
            else Some(if SelectedBy(m, ownerId, NormalizedAll(filters), now) then m.(folderId := folderId, updatedAt := now) else m)
    ensures Hits(MoveStatement(ownerId, filters, folderId, now), m, now) <==> AllReadable(filters) && SelectedBy(m, ownerId, NormalizedAll(filters), now)
  {
    hide AllSupported, AllReadable, NormalizedAll, IsRow, Conds, Args, SelectedBy, EvalAll, Param, AssignAll;
    var args, extra := [Text(ownerId)] + Args(filters), [Text(folderId), Instant(now)];
    WhereAgrees(ownerId, filters, extra, m, now);
    Appended(args, extra, 0);
    Appended(args, extra, 1);
    AssignTwo(m, FolderTo(|args| + 1), UpdatedAtTo(|args| + 2), args + extra);
  }

  lemma AssignTwo(m: Message, a: Assign, b: Assign, params: seq<Value>)
    ensures AssignAll(m, [a, b], params) ==
            if Assigned(m, a, params).None? then None else Assigned(Assigned(m, a, params).value, b, params)
  {
    hide Assigned;
    assert [a, b][1..] == [b];
    assert [b][1..] == [];
    if Assigned(m, a, params).Some? {
      assert AssignAll(Assigned(m, a, params).value, [b], params) == Assigned(Assigned(m, a, params).value, b, params);
    }
  }

  lemma AssignThree(m: Message, a: Assign, b: Assign, c: Assign, params: seq<Value>)
    ensures AssignAll(m, [a, b, c], params) ==
            if Assigned(m, a, params).None? then None else AssignAll(Assigned(m, a, params).value, [b, c], params)
  {
    hide Assigned;
    assert [a, b, c][1..] == [b, c];
  }

  lemma MarkReadRow(ownerId: string, filters: seq<Filter>, read: bool, m: Message, now: Time)
    requires AllSupported(filters) && IsRow(m)
    ensures Row(MarkReadStatement(ownerId, filters, read, now), m, now) ==
            if !AllReadable(filters) then None
            else Some(if SelectedBy(m, ownerId, NormalizedAll(filters), now) then Touched(Flagged(read, now), m, now) else m)
    ensures Hits(MarkReadStatement(ownerId, filters, read, now), m, now) <==> AllReadable(filters) && SelectedBy(m, ownerId, NormalizedAll(filters), now)
  {
    hide AllSupported, AllReadable, NormalizedAll, IsRow, Conds, Args, SelectedBy, EvalAll, Param, AssignAll;
    var args := [Text(ownerId)] + Args(filters);
    var n := |args|;
    var extra := if read then [Bool(true), Instant(now), Instant(now)] else [Bool(false), Instant(now)];
    WhereAgrees(ownerId, filters, extra, m, now);
    Appended(args, extra, 0);
    Appended(args, extra, 1);
    if read {
      Appended(args, extra, 2);
      AssignThree(m, IsReadTo(n + 1), ReadAtTo(n + 2), UpdatedAtTo(n + 3), args + extra);
      AssignTwo(m.(isRead := true), ReadAtTo(n + 2), UpdatedAtTo(n + 3), args + extra);
    } else {
      AssignThree(m, IsReadTo(n + 1), ReadAtNull, UpdatedAtTo(n + 2), args + extra);
      AssignTwo(m.(isRead := false), ReadAtNull, UpdatedAtTo(n + 2), args + extra);
    }
  }

  lemma RemoveTagRow(ownerId: string, filters: seq<Filter>, tagId: string, m: Message, now: Time)
    requires AllSupported(filters) && IsRow(m)
    ensures Row(RemoveTagStatement(ownerId, filters, tagId, now), m, now) ==
            if !AllReadable(filters) then None
            else Some(if SelectedBy(m, ownerId, NormalizedAll(filters), now) then m.(tags := RemoveAll(m.tags, tagId), updatedAt := now) else m)
    ensures Hits(RemoveTagStatement(ownerId, filters, tagId, now), m, now) <==> AllReadable(filters) && SelectedBy(m, ownerId, NormalizedAll(filters), now)
  {
    hide AllSupported, AllReadable, NormalizedAll, IsRow, Conds, Args, SelectedBy, EvalAll, Param, AssignAll;
    var args, extra := [Text(ownerId)] + Args(filters), [Text(tagId), Instant(now)];
    WhereAgrees(ownerId, filters, extra, m, now);
    Appended(args, extra, 0);
    Appended(args, extra, 1);
    AssignTwo(m, TagsRemove(|args| + 1), UpdatedAtTo(|args| + 2), args + extra);
  }

  /** The condition added for a new tag. */
  lemma HasNotIs(args: seq<Value>, extra: seq<Value>, tagId: string, m: Message, now: Time)
    requires |extra| == 3 && extra[2] == Text(tagId)
    ensures EvalAll([HasNot(FTags, |args| + 3)], args + extra, m, now) == Truly(tagId !in m.tags)
  {
    Appended(args, extra, 2);
    EqAnyIsMember(Text(tagId), Items(m.tags));
    ItemsMember(tagId, m.tags);
    assert [HasNot(FTags, |args| + 3)][..0] == [];
  }

  lemma AddTagRow(ownerId: string, filters: seq<Filter>, tagId: string, m: Message, now: Time)
    requires AllSupported(filters) && IsRow(m)
    ensures Row(AddTagStatement(ownerId, filters, tagId, now), m, now) ==
            if !AllReadable(filters) then None
            else Some(if SelectedBy(m, ownerId, NormalizedAll(filters), now) && tagId !in m.tags then m.(tags := m.tags + [tagId], updatedAt := now) else m)
    ensures Hits(AddTagStatement(ownerId, filters, tagId, now), m, now) <==> AllReadable(filters) && SelectedBy(m, ownerId, NormalizedAll(filters), now) && tagId !in m.tags
  {
    hide AllSupported, AllReadable, NormalizedAll, IsRow, Conds, Args, SelectedBy, EvalAll, Param, AssignAll;
    var args, extra := [Text(ownerId)] + Args(filters), [Text(tagId), Instant(now), Text(tagId)];
    WhereAgrees(ownerId, filters, extra, m, now);
    HasNotIs(args, extra, tagId, m, now);
    EvalAllConcat(OWNED + Conds(filters, 2), [HasNot(FTags, |args| + 3)], args + extra, m, now);
    Appended(args, extra, 0);
    Appended(args, extra, 1);
    AssignTwo(m, TagsAppend(|args| + 1), UpdatedAtTo(|args| + 2), args + extra);
  }

  lemma ExecIs(st: Statement, rows: map<Id, Message>, target: map<Id, Message>, now: Time)
    requires IsTable(rows) && forall m :: IsRow(m) ==> Row(st, m, now).Some?
    requires rows.Keys == target.Keys && forall id :: id in rows ==> Row(st, rows[id], now) == Some(target[id])
    ensures Exec(st, rows, now) == Some(target)
  {
    hide Row, IsRow;
    assert Exec(st, rows, now).Some?;
    assert Exec(st, rows, now).value == target;
  }

  lemma ExecFails(st: Statement, rows: map<Id, Message>, now: Time)
    requires IsTable(rows) && forall m :: IsRow(m) ==> Row(st, m, now).None?
    ensures Exec(st, rows, now) == None
  {
    hide Row, IsRow;
    var m := SomeRow();
    assert Row(st, m, now).None?;
  }

  /** What a statement does when IDs are readable: each selected row is changed, and no other. */
  predicate DoesTo(st: Statement, m: Message, ownerId: string, filters: seq<Filter>, fn: Message -> Message, now: Time) {
    && Row(st, m, now) == (if !AllReadable(filters) then None
                           else Some(if SelectedBy(m, ownerId, NormalizedAll(filters), now) then Touched(fn, m, now) else m))
    && (Hits(st, m, now) <==> AllReadable(filters) && SelectedBy(m, ownerId, NormalizedAll(filters), now))
  }

  /** The rows and the count a bulk update leaves on a table: it fails when an ID is compared with a text that is
      no UUID, and otherwise does what the memory store does with IDs in their canonical spelling. */
  ghost predicate Updates(st: Statement, rows: map<Id, Message>, ownerId: string, filters: seq<Filter>, fn: Message -> Message, now: Time)
    requires IsTable(rows)
  {
    var fs := NormalizedAll(filters);
    && Exec(st, rows, now) == (if AllReadable(filters) then Some(UpdateFiltered(rows, ownerId, fs, fn, now)) else None)
    && Affected(st, rows, now) == (if AllReadable(filters) then SelectedIds(rows, ownerId, fs, now) else {})
  }

  lemma UpdateIs(st: Statement, rows: map<Id, Message>, ownerId: string, filters: seq<Filter>, fn: Message -> Message, now: Time)
    requires IsTable(rows) && forall m :: IsRow(m) ==> DoesTo(st, m, ownerId, filters, fn, now)
    ensures Updates(st, rows, ownerId, filters, fn, now)
  {
    hide Row, Hits, IsRow, SelectedBy, AllReadable, NormalizedAll, Touched, Exec;
    assert forall id :: id in rows ==> DoesTo(st, rows[id], ownerId, filters, fn, now);
    if AllReadable(filters) {
      ExecIs(st, rows, UpdateFiltered(rows, ownerId, NormalizedAll(filters), fn, now), now);
    } else {
      ExecFails(st, rows, now);
    }
  }

  /** On every table a compiled move does what the memory store does, with IDs in their canonical spelling. */
  lemma MoveAgrees(ownerId: string, filters: seq<Filter>, folderId: string, rows: map<Id, Message>, now: Time)
    requires AllSupported(filters) && IsTable(rows)
    ensures Updates(MoveStatement(ownerId, filters, folderId, now), rows, ownerId, filters, Relocated(folderId), now)
  {
    hide Row, Hits, MoveStatement, SelectedBy, AllSupported, AllReadable, NormalizedAll, IsRow;
    var st := MoveStatement(ownerId, filters, folderId, now);
    forall m | IsRow(m) ensures DoesTo(st, m, ownerId, filters, Relocated(folderId), now) {
      MoveRow(ownerId, filters, folderId, m, now);
    }
    hide *;
    UpdateIs(st, rows, ownerId, filters, Relocated(folderId), now);
  }

  /** On every table a compiled marking does what the memory store does, with IDs in their canonical spelling. */
  lemma MarkReadAgrees(ownerId: string, filters: seq<Filter>, read: bool, rows: map<Id, Message>, now: Time)
    requires AllSupported(filters) && IsTable(rows)
    ensures Updates(MarkReadStatement(ownerId, filters, read, now), rows, ownerId, filters, Flagged(read, now), now)
  {
    hide Row, Hits, MarkReadStatement, SelectedBy, AllSupported, AllReadable, NormalizedAll, IsRow, Touched, Flagged;
    var st := MarkReadStatement(ownerId, filters, read, now);
    forall m | IsRow(m) ensures DoesTo(st, m, ownerId, filters, Flagged(read, now), now) {
      MarkReadRow(ownerId, filters, read, m, now);
    }
    hide *;
    UpdateIs(st, rows, ownerId, filters, Flagged(read, now), now);
  }

  /** The selected messages that hold the tag already. */
  function HoldTag(rows: map<Id, Message>, ownerId: string, filters: seq<Filter>, tagId: string, now: Time): set<Id> {
    set id | id in SelectedIds(rows, ownerId, filters, now) && tagId in rows[id].tags
  }

  /** The memory store's update, but for the selected messages that hold the tag, which stay as they are. */
  function AddTagRows(rows: map<Id, Message>, ownerId: string, filters: seq<Filter>, tagId: string, now: Time): map<Id, Message> {
    map id | id in rows ::
      if id in HoldTag(rows, ownerId, filters, tagId, now) then rows[id]
      else UpdateFiltered(rows, ownerId, filters, Tagged(tagId), now)[id]
  }

  ghost predicate AddsTag(st: Statement, rows: map<Id, Message>, ownerId: string, filters: seq<Filter>, tagId: string, now: Time)
    requires IsTable(rows)
  {
    var fs := NormalizedAll(filters);
    && Exec(st, rows, now) == (if AllReadable(filters) then Some(AddTagRows(rows, ownerId, fs, tagId, now)) else None)
    && Affected(st, rows, now) ==
       (if AllReadable(filters) then SelectedIds(rows, ownerId, fs, now) - HoldTag(rows, ownerId, fs, tagId, now) else {})
  }

  /** The statement leaves alone the selected messages that hold the tag; everything else is as in memory. */
  lemma AddTagIs(ownerId: string, filters: seq<Filter>, tagId: string, rows: map<Id, Message>, now: Time)
    requires AllSupported(filters) && IsTable(rows)
    ensures AddsTag(AddTagStatement(ownerId, filters, tagId, now), rows, ownerId, filters, tagId, now)
  {
    hide Row, Hits, AddTagStatement, SelectedBy, AllSupported, AllReadable, NormalizedAll, IsRow, Exec;
    var st, fs := AddTagStatement(ownerId, filters, tagId, now), NormalizedAll(filters);
    forall m | IsRow(m)
      ensures Row(st, m, now) ==
              if !AllReadable(filters) then None
              else Some(if SelectedBy(m, ownerId, fs, now) && tagId !in m.tags then m.(tags := m.tags + [tagId], updatedAt := now) else m)
      ensures Hits(st, m, now) <==> AllReadable(filters) && SelectedBy(m, ownerId, fs, now) && tagId !in m.tags
    {
      AddTagRow(ownerId, filters, tagId, m, now);
    }
    if AllReadable(filters) {
      ExecIs(st, rows, AddTagRows(rows, ownerId, fs, tagId, now), now);
    } else {
      ExecFails(st, rows, now);
    }
  }

  /** With IDs in their canonical spelling, the stores end up the same exactly when the statement can be executed
      and each message that holds the tag was last updated at this very time, and the counts are the same
      exactly when there is none. */
  ghost predicate AddsTagAlike(st: Statement, rows: map<Id, Message>, ownerId: string, filters: seq<Filter>, tagId: string, now: Time)
    requires IsTable(rows)
  {
    var fs := NormalizedAll(filters);
    && (Exec(st, rows, now) == Some(UpdateFiltered(rows, ownerId, fs, Tagged(tagId), now)) <==>
          AllReadable(filters) && forall id :: id in HoldTag(rows, ownerId, fs, tagId, now) ==> rows[id].updatedAt == now)
    && (AllReadable(filters) ==>
          (|Affected(st, rows, now)| == |SelectedIds(rows, ownerId, fs, now)| <==> HoldTag(rows, ownerId, fs, tagId, now) == {}))
  }

  /** The memory store also touches and counts the messages that hold the tag. */
  lemma AddTagAgreesIff(ownerId: string, filters: seq<Filter>, tagId: string, rows: map<Id, Message>, now: Time)
    requires AllSupported(filters) && IsTable(rows)
    ensures AddsTagAlike(AddTagStatement(ownerId, filters, tagId, now), rows, ownerId, filters, tagId, now)
  {
    hide AddTagStatement, Exec, Affected, AllSupported, AllReadable, NormalizedAll, IsTable, SelectedIds, HoldTag, UpdateFiltered, AddTagRows;
    var fs := NormalizedAll(filters);
    AddTagIs(ownerId, filters, tagId, rows, now);
    AddTagRowsIff(ownerId, fs, tagId, rows, now);
    TaggedAgain(ownerId, fs, tagId, rows, now);
    FewerWithout(SelectedIds(rows, ownerId, fs, now), HoldTag(rows, ownerId, fs, tagId, now));
  }

  lemma FewerWithout<T>(all: set<T>, some: set<T>)
    requires some <= all
    ensures |all - some| == |all| <==> some == {}
  {
    assert all == (all - some) + some;
    assert |all| == |all - some| + |some|;
  }

  lemma AddTagRowsIff(ownerId: string, filters: seq<Filter>, tagId: string, rows: map<Id, Message>, now: Time)
    ensures AddTagRows(rows, ownerId, filters, tagId, now) == UpdateFiltered(rows, ownerId, filters, Tagged(tagId), now) <==>
            forall id :: id in HoldTag(rows, ownerId, filters, tagId, now) ==> rows[id].updatedAt == now
  {
    hide SelectedIds, HoldTag, UpdateFiltered;
    var wanted, held := UpdateFiltered(rows, ownerId, filters, Tagged(tagId), now), HoldTag(rows, ownerId, filters, tagId, now);
    TaggedAgain(ownerId, filters, tagId, rows, now);
    if AddTagRows(rows, ownerId, filters, tagId, now) == wanted {
      forall id | id in held ensures rows[id].updatedAt == now {
        assert AddTagRows(rows, ownerId, filters, tagId, now)[id] == rows[id];
      }
    }
  }

  /** In memory a message that holds the tag is only touched. */
  lemma TaggedAgain(ownerId: string, filters: seq<Filter>, tagId: string, rows: map<Id, Message>, now: Time)
    ensures var wanted := UpdateFiltered(rows, ownerId, filters, Tagged(tagId), now);
            var held := HoldTag(rows, ownerId, filters, tagId, now);
            && wanted.Keys == rows.Keys && held <= SelectedIds(rows, ownerId, filters, now)
            && forall id :: id in held ==> id in rows && wanted[id] == rows[id].(updatedAt := now)
  {
    hide SelectedBy;
  }

  /** One tagged message, updated earlier: the table keeps its time and returns 0, the memory store touches
      it and returns 1. */
  lemma AddTagDiffers(m: Message, tagId: string, now: Time)
    requires IsRow(m) && !m.isDraft && IsAvailable(m, now) && tagId in m.tags && m.updatedAt < now
    ensures var rows := map[m.id := m];
            && Exec(AddTagStatement(m.ownerId, [], tagId, now), rows, now) == Some(rows)
            && Affected(AddTagStatement(m.ownerId, [], tagId, now), rows, now) == {}
            && UpdateFiltered(rows, m.ownerId, [], Tagged(tagId), now) == map[m.id := m.(updatedAt := now)]
            && |SelectedIds(rows, m.ownerId, [], now)| == 1
  {
    hide AddTagStatement, Exec, Affected, IsRow;
    var rows := map[m.id := m];
    assert NormalizedAll([]) == [];
    assert SelectedBy(m, m.ownerId, [], now);
    AddTagIs(m.ownerId, [], tagId, rows, now);
    assert SelectedIds(rows, m.ownerId, [], now) == {m.id};
    assert HoldTag(rows, m.ownerId, [], tagId, now) == {m.id};
    assert AddTagRows(rows, m.ownerId, [], tagId, now) == rows;
  }

  /** Removing every occurrence is removing the first one exactly when the tag occurs at most once. */
  lemma {:induction false} RemoveAllIff(tags: seq<string>, tag: string)
    ensures RemoveAll(tags, tag) == WithoutFirst(tags, tag) <==> multiset(tags)[tag] <= 1
    ensures |RemoveAll(tags, tag)| == |tags| - multiset(tags)[tag]
  {
    if tags != [] {
      assert tags == [tags[0]] + tags[1..];
      RemoveAllIff(tags[1..], tag);
      if tags[0] == tag {
        if multiset(tags)[tag] <= 1 {
          KeepAll(tags[1..], tag);
        }
      } else {
        assert RemoveAll(tags, tag)[1..] == RemoveAll(tags[1..], tag);
        assert WithoutFirst(tags, tag)[1..] == WithoutFirst(tags[1..], tag);
      }
    }
  }

  lemma {:induction false} KeepAll(tags: seq<string>, tag: string)
    requires tag !in tags
    ensures RemoveAll(tags, tag) == tags
  {
    if tags != [] {
      KeepAll(tags[1..], tag);
    }
  }

  function RemoveAllTag(tagId: string): Message -> Message {
    (m: Message) => m.(tags := RemoveAll(m.tags, tagId))
  }

  /** Removing every occurrence and removing the first give the same rows exactly when no selected message holds
      the tag twice. */
  lemma UntaggedSameIff(ownerId: string, filters: seq<Filter>, tagId: string, rows: map<Id, Message>, now: Time)
    ensures UpdateFiltered(rows, ownerId, filters, RemoveAllTag(tagId), now) == UpdateFiltered(rows, ownerId, filters, Untagged(tagId), now)
            <==> forall id :: id in SelectedIds(rows, ownerId, filters, now) ==> multiset(rows[id].tags)[tagId] <= 1
  {
    hide SelectedBy, RemoveAll, WithoutFirst;
    var result, wanted := UpdateFiltered(rows, ownerId, filters, RemoveAllTag(tagId), now), UpdateFiltered(rows, ownerId, filters, Untagged(tagId), now);
    forall id | id in SelectedIds(rows, ownerId, filters, now)
      ensures result[id] == wanted[id] <==> multiset(rows[id].tags)[tagId] <= 1
    {
      RemoveAllIff(rows[id].tags, tagId);
      assert result[id].tags == RemoveAll(rows[id].tags, tagId);
      assert wanted[id].tags == WithoutFirst(rows[id].tags, tagId);
    }
    if forall id :: id in SelectedIds(rows, ownerId, filters, now) ==> multiset(rows[id].tags)[tagId] <= 1 {
      assert result == wanted;
    }
  }

  /** With IDs in their canonical spelling, the stores end up the same exactly when the statement can be executed
      and no selected message holds the tag twice. */
  ghost predicate UntagsAlike(st: Statement, rows: map<Id, Message>, ownerId: string, filters: seq<Filter>, tagId: string, now: Time)
    requires IsTable(rows)
  {
    var fs := NormalizedAll(filters);
    Exec(st, rows, now) == Some(UpdateFiltered(rows, ownerId, fs, Untagged(tagId), now)) <==>
      AllReadable(filters) && forall id :: id in SelectedIds(rows, ownerId, fs, now) ==> multiset(rows[id].tags)[tagId] <= 1
  }

  /** The statement removes every occurrence of the tag, the memory store the first one. */
  lemma RemoveTagAgreesIff(ownerId: string, filters: seq<Filter>, tagId: string, rows: map<Id, Message>, now: Time)
    requires AllSupported(filters) && IsTable(rows)
    ensures UntagsAlike(RemoveTagStatement(ownerId, filters, tagId, now), rows, ownerId, filters, tagId, now)
    ensures Updates(RemoveTagStatement(ownerId, filters, tagId, now), rows, ownerId, filters, RemoveAllTag(tagId), now)
  {
    hide Row, Hits, RemoveTagStatement, SelectedBy, AllSupported, AllReadable, NormalizedAll, IsRow, Exec, Affected, SelectedIds, UpdateFiltered;
    var st := RemoveTagStatement(ownerId, filters, tagId, now);
    forall m | IsRow(m) ensures DoesTo(st, m, ownerId, filters, RemoveAllTag(tagId), now) {
      RemoveTagRow(ownerId, filters, tagId, m, now);
    }
    UpdateIs(st, rows, ownerId, filters, RemoveAllTag(tagId), now);
    UntaggedSameIff(ownerId, NormalizedAll(filters), tagId, rows, now);
  }

  // ---------------------------------------------------------------------
  // Building the statements
  // ---------------------------------------------------------------------

  /** The statement moves and counts what the memory store would move and count, with IDs in their canonical
      spelling; it fails exactly on an ID that is no UUID. */
  method MoveByFilter(ownerId: string, filters: seq<Filter>, folderId: string, now: Time) returns (st: Statement)
    ensures st == MoveStatement(ownerId, filters, folderId, now)
    ensures AllSupported(filters) ==> forall rows :: IsTable(rows) ==>
              Updates(st, rows, ownerId, filters, Relocated(folderId), now)
  {
    hide AllSupported, Updates, UntagsAlike, IsTable;
    var where, args := BulkWhere(ownerId, filters);
    var n := |args|;
    st := Statement([FolderTo(n + 1), UpdatedAtTo(n + 2)], where, args + [Text(folderId), Instant(now)]);
    if AllSupported(filters) {
      forall rows | IsTable(rows)
        ensures Updates(st, rows, ownerId, filters, Relocated(folderId), now)
      {
        MoveAgrees(ownerId, filters, folderId, rows, now);
      }
    }
  }

  /** The statement marks and counts what the memory store would mark and count, likewise. */
  method MarkReadByFilter(ownerId: string, filters: seq<Filter>, read: bool, now: Time) returns (st: Statement)
    ensures st == MarkReadStatement(ownerId, filters, read, now)
    ensures AllSupported(filters) ==> forall rows :: IsTable(rows) ==>
              Updates(st, rows, ownerId, filters, Flagged(read, now), now)
  {
    hide AllSupported, Updates, IsTable, Flagged;
    var where, args := BulkWhere(ownerId, filters);
    var n := |args|;
    if read {
      st := Statement([IsReadTo(n + 1), ReadAtTo(n + 2), UpdatedAtTo(n + 3)], where, args + [Bool(true), Instant(now), Instant(now)]);
    } else {
      st := Statement([IsReadTo(n + 1), ReadAtNull, UpdatedAtTo(n + 2)], where, args + [Bool(false), Instant(now)]);
    }
    if AllSupported(filters) {
      forall rows | IsTable(rows)
        ensures Updates(st, rows, ownerId, filters, Flagged(read, now), now)
      {
        MarkReadAgrees(ownerId, filters, read, rows, now);
      }
    }
  }

  /** The statement gives the tags the memory store would give, likewise, but neither touches nor counts the
      messages that hold the tag already. */
  method AddTagByFilter(ownerId: string, filters: seq<Filter>, tagId: string, now: Time) returns (st: Statement)
    ensures st == AddTagStatement(ownerId, filters, tagId, now)
    ensures AllSupported(filters) ==> forall rows :: IsTable(rows) ==>
              AddsTag(st, rows, ownerId, filters, tagId, now) && AddsTagAlike(st, rows, ownerId, filters, tagId, now)
  {
    hide AllSupported, AddsTag, AddsTagAlike, IsTable;
    var where, args := BulkWhere(ownerId, filters);
    var n := |args|;
    st := Statement([TagsAppend(n + 1), UpdatedAtTo(n + 2)], where + [HasNot(FTags, n + 3)],
                    args + [Text(tagId), Instant(now), Text(tagId)]);
    if AllSupported(filters) {
      forall rows | IsTable(rows)
        ensures AddsTag(st, rows, ownerId, filters, tagId, now) && AddsTagAlike(st, rows, ownerId, filters, tagId, now)
      {
        AddTagIs(ownerId, filters, tagId, rows, now);
        AddTagAgreesIff(ownerId, filters, tagId, rows, now);
      }
    }
  }

  /** The statement takes the tags the memory store would take, likewise, exactly when no selected message holds
      the tag twice, and always returns the same count. */
  method RemoveTagByFilter(ownerId: string, filters: seq<Filter>, tagId: string, now: Time) returns (st: Statement)
    ensures st == RemoveTagStatement(ownerId, filters, tagId, now)
    ensures AllSupported(filters) ==> forall rows :: IsTable(rows) ==>
              UntagsAlike(st, rows, ownerId, filters, tagId, now) && Updates(st, rows, ownerId, filters, RemoveAllTag(tagId), now)
  {
    hide AllSupported, Updates, UntagsAlike, IsTable;
    var where, args := BulkWhere(ownerId, filters);
    var n := |args|;
    st := Statement([TagsRemove(n + 1), UpdatedAtTo(n + 2)], where, args + [Text(tagId), Instant(now)]);
    if AllSupported(filters) {
      forall rows | IsTable(rows)
        ensures UntagsAlike(st, rows, ownerId, filters, tagId, now) && Updates(st, rows, ownerId, filters, RemoveAllTag(tagId), now)
      {
        RemoveTagAgreesIff(ownerId, filters, tagId, rows, now);
      }
    }
  }
}
