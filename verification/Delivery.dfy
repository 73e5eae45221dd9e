/**
Delivery: idempotent creation of inbox copies and the send of a draft
(send.go, store/memory/create.go).
*/
module Delivery {
  import opened Messages

  // ---------------------------------------------------------------------
  // Idempotency keys
  // ---------------------------------------------------------------------

  /** The key of the copy of a sender's message for one recipient. */
  function DeliveryKey(base: string, recipientId: string): (key: string)
    ensures key != ""
  {
    base + ":" + recipientId
  }

  /** The index key: owner and idempotency key in one string. */
  function IndexKey(ownerId: string, key: string): string {
    ownerId + ":" + key
  }

  function CopyKey(base: string, recipientId: string): string {
    IndexKey(recipientId, DeliveryKey(base, recipientId))
  }

  /** Keys of different copies differ when sender message IDs have the same length, whatever characters
      the recipient IDs contain. */
  lemma KeysDiffer(base: string, r: string, base': string, r': string)
    requires |base| == |base'|
    ensures DeliveryKey(base, r) == DeliveryKey(base', r') ==> base == base' && r == r'
    ensures CopyKey(base, r) == CopyKey(base', r') ==> base == base' && r == r'
    ensures CopyKey(base, r) == r + ":" + base + ":" + r
  {
    var n := |base|;
    assert CopyKey(base, r) == r + ":" + base + ":" + r;
    if DeliveryKey(base, r) == DeliveryKey(base', r') {
      assert base == DeliveryKey(base, r)[..n] == base';
      assert r == DeliveryKey(base, r)[n + 1..] == r';
    }
    if CopyKey(base, r) == CopyKey(base', r') {
      assert |CopyKey(base, r)| == 2 * |r| + n + 2 && |CopyKey(base', r')| == 2 * |r'| + n + 2;
      assert |r| == |r'|;
      assert r == CopyKey(base, r)[..|r|] == r';
      assert base == CopyKey(base, r)[|r| + 1..|r| + 1 + n] == base';
    }
  }

  // ---------------------------------------------------------------------
  // Messages to be created
  // ---------------------------------------------------------------------

  datatype MessageData = MessageData(
    ownerId: string,
    senderId: string,
    recipientIds: seq<string>,
    subject: string,
    body: string,
    status: string,
    folderId: string,
    attachments: seq<string>,
    threadId: string,
    replyToId: string,
    externalId: string,
    expiresAt: Option<Time>,
    availableAt: Option<Time>)

  function NewMessage(data: MessageData, id: Id, now: Time): Message {
    Message(id, data.ownerId, data.senderId, data.recipientIds, data.subject, data.body, data.status, false, None,
            data.folderId, [], data.attachments, data.threadId, data.replyToId, data.externalId, false, now, now,
            data.expiresAt, data.availableAt)
  }

  function InboxData(letter: MessageData, recipientId: string): MessageData {
    letter.(ownerId := recipientId, status := "delivered", folderId := FOLDER_INBOX)
  }

  function SenderData(letter: MessageData): MessageData {
    letter.(ownerId := letter.senderId, status := "queued", folderId := FOLDER_OUTBOX)
  }

  // ---------------------------------------------------------------------
  // Lists of recipients
  // ---------------------------------------------------------------------

  predicate Distinct(list: seq<string>) {
    forall i, j :: 0 <= i < j < |list| ==> list[i] != list[j]
  }

  function Elements(list: seq<string>): set<string> {
    set r | r in list
  }

  /** The members that satisfy p, in order. */
  function Filter(list: seq<string>, p: string -> bool): seq<string> {
    if list == [] then []
    else
      var n := |list| - 1;
      Filter(list[..n], p) + (if p(list[n]) then [list[n]] else [])
  }

  lemma FilterEmpty(p: string -> bool)
    ensures Filter([], p) == []
  {
  }

  lemma FilterMore(list: seq<string>, r: string, p: string -> bool)
    ensures Filter(list + [r], p) == Filter(list, p) + (if p(r) then [r] else [])
  {
    assert (list + [r])[..|list|] == list;
  }

  lemma {:induction false} FilterMembers(list: seq<string>, p: string -> bool)
    ensures forall r :: r in Filter(list, p) <==> r in list && p(r)
    ensures Distinct(list) ==> Distinct(Filter(list, p))
  {
    if list != [] {
      var n := |list| - 1;
      FilterMembers(list[..n], p);
      assert list == list[..n] + [list[n]];
    }
  }

  /** First occurrences only. */
  method DeduplicateRecipients(ids: seq<string>) returns (unique: seq<string>)
    ensures Distinct(unique) && Elements(unique) == Elements(ids)
    ensures AreFirsts(unique, ids)
    ensures unique == FirstOccurrences(ids)
  {
    hide FirstOccurrences, Elements, Distinct, AreFirsts;
    unique := [];
    var seen: set<string> := {};
    NoRecipients();
    for i := 0 to |ids|
      invariant unique == FirstOccurrences(ids[..i]) && seen == Elements(ids[..i])
    {
      OneMoreRecipient(ids, i);
      if ids[i] !in seen {
        seen := seen + {ids[i]};
        unique := unique + [ids[i]];
      }
    }
    assert ids[..|ids|] == ids;
    FirstOccurrencesAre(ids);
    FirstOccurrencesPlaced(ids);
  }

  /** The k-th recipient of the list is the one at this place, which is its first, and places go up. */
  ghost predicate FirstsAt(unique: seq<string>, ids: seq<string>, at: seq<nat>) {
    && |at| == |unique|
    && (forall k :: 0 <= k < |at| ==> at[k] < |ids| && unique[k] == ids[at[k]] && ids[at[k]] !in ids[..at[k]])
    && (forall k, l :: 0 <= k < l < |at| ==> at[k] < at[l])
  }

  ghost predicate AreFirsts(unique: seq<string>, ids: seq<string>) {
    exists at: seq<nat> :: FirstsAt(unique, ids, at)
  }

  lemma FirstsMore(unique: seq<string>, ids: seq<string>, at: seq<nat>, r: string)
    requires FirstsAt(unique, ids, at)
    ensures FirstsAt(unique, ids + [r], at)
    ensures r !in ids ==> FirstsAt(unique + [r], ids + [r], at + [|ids|])
  {
    assert (ids + [r])[..|ids|] == ids;
    forall k | 0 <= k < |at| ensures (ids + [r])[at[k]] == ids[at[k]] && (ids + [r])[..at[k]] == ids[..at[k]] {
    }
  }

  lemma NoFirsts()
    ensures AreFirsts([], [])
  {
    assert FirstsAt([], [], []);
  }

  lemma {:induction false} FirstOccurrencesPlaced(ids: seq<string>)
    ensures AreFirsts(FirstOccurrences(ids), ids)
  {
    hide AreFirsts;
    if ids == [] {
      NoFirsts();
    } else {
      var n := |ids| - 1;
      FirstOccurrencesPlaced(ids[..n]);
      PlacedMore(FirstOccurrences(ids[..n]), ids[..n], ids[n]);
      assert ids == ids[..n] + [ids[n]];
      assert FirstOccurrences(ids) == if ids[n] in ids[..n] then FirstOccurrences(ids[..n]) else FirstOccurrences(ids[..n]) + [ids[n]];
    }
  }

  lemma PlacedMore(unique: seq<string>, ids: seq<string>, r: string)
    requires AreFirsts(unique, ids)
    ensures AreFirsts(if r in ids then unique else unique + [r], ids + [r])
  {
    hide FirstsAt;
    var at: seq<nat> :| FirstsAt(unique, ids, at);
    FirstsMore(unique, ids, at, r);
    if r in ids {
      assert FirstsAt(unique, ids + [r], at);
    } else {
      assert FirstsAt(unique + [r], ids + [r], at + [|ids|]);
    }
  }

  lemma NoRecipients()
    ensures FirstOccurrences([]) == [] && Elements([]) == {}
  {
  }

  lemma OneMoreRecipient(ids: seq<string>, i: nat)
    requires i < |ids|
    ensures FirstOccurrences(ids[..i + 1]) == if ids[i] in Elements(ids[..i]) then FirstOccurrences(ids[..i]) else FirstOccurrences(ids[..i]) + [ids[i]]
    ensures Elements(ids[..i + 1]) == if ids[i] in Elements(ids[..i]) then Elements(ids[..i]) else Elements(ids[..i]) + {ids[i]}
  {
    assert ids[..i + 1][..i] == ids[..i];
    assert ids[..i + 1] == ids[..i] + [ids[i]];
  }

  /** Each recipient once, and the same recipients. */
  lemma {:induction false} FirstOccurrencesAre(ids: seq<string>)
    ensures Distinct(FirstOccurrences(ids)) && Elements(FirstOccurrences(ids)) == Elements(ids)
  {
    if ids != [] {
      var n := |ids| - 1;
      FirstOccurrencesAre(ids[..n]);
      var front := FirstOccurrences(ids[..n]);
      assert ids == ids[..n] + [ids[n]];
      assert forall r :: r in front <==> r in Elements(front);
      assert forall r :: r in ids[..n] <==> r in Elements(ids[..n]);
    }
  }

  function FirstOccurrences(ids: seq<string>): seq<string> {
    if ids == [] then []
    else
      var n := |ids| - 1;
      FirstOccurrences(ids[..n]) + (if ids[n] in ids[..n] then [] else [ids[n]])
  }

  // ---------------------------------------------------------------------
  // What a delivery may run into
  // ---------------------------------------------------------------------

  /** Failures injected by quota checks, the store and the attachment manager. */
  datatype Faults = Faults(quota: set<string>, batch: bool, create: set<string>, refs: set<string>)

  /** The recipient already has the copy of this sender message. */
  predicate Has(ms: map<Id, Message>, index: map<string, Id>, base: string, r: string) {
    CopyKey(base, r) in index && index[CopyKey(base, r)] in ms
  }

  predicate Fails(ms: map<Id, Message>, index: map<string, Id>, base: string, faults: Faults, r: string) {
    r in faults.quota || faults.batch || r in faults.create || (!Has(ms, index, base, r) && r in faults.refs)
  }

  predicate IsNewCopy(ms: map<Id, Message>, ms': map<Id, Message>, index': map<string, Id>, base: string, letter: MessageData, now: Time, r: string) {
    && Has(ms', index', base, r)
    && index'[CopyKey(base, r)] !in ms
    && ms'[index'[CopyKey(base, r)]] == NewMessage(InboxData(letter, r), index'[CopyKey(base, r)], now)
  }

  /** The store grew by exactly one inbox copy for each of these recipients. */
  ghost predicate Grew(ms: map<Id, Message>, ms': map<Id, Message>, index': map<string, Id>, rs: set<string>, base: string, letter: MessageData, now: Time) {
    && (forall id :: id in ms ==> id in ms' && ms'[id] == ms[id])
    && (forall r :: r in rs ==> IsNewCopy(ms, ms', index', base, letter, now, r))
    && (forall id :: id in ms' && id !in ms ==> ms'[id].ownerId in rs && index'[CopyKey(base, ms'[id].ownerId)] == id)
  }

  /** Index entries that lead to a message stay as they are. */
  ghost predicate Kept(ms: map<Id, Message>, index: map<string, Id>, index': map<string, Id>) {
    forall k :: k in index && index[k] in ms ==> k in index' && index'[k] == index[k]
  }

  /** Every index entry that leads to a message did so before, or leads to a new copy. */
  ghost predicate Traceable(ms: map<Id, Message>, index: map<string, Id>, ms': map<Id, Message>, index': map<string, Id>, rs: set<string>, base: string) {
    forall k :: k in index' && index'[k] in ms' ==>
      (k in index && index[k] == index'[k] && index[k] in ms) || exists r :: r in rs && k == CopyKey(base, r)
  }

  lemma TraceableAll(ms: map<Id, Message>, index: map<string, Id>, base: string)
    ensures Traceable(ms, index, ms, index, {}, base)
  {
  }

  lemma TraceableMore(ms: map<Id, Message>, index: map<string, Id>, ms1: map<Id, Message>, index1: map<string, Id>, rs: set<string>, base: string,
                      r: string, id: Id, m: Message)
    requires Traceable(ms, index, ms1, index1, rs, base) && forall k :: k in index1 ==> index1[k] != id
    ensures Traceable(ms, index, ms1[id := m], index1[CopyKey(base, r) := id], rs + {r}, base)
  {
    hide CopyKey;
    forall k | k in index1 && k != CopyKey(base, r) && index1[k] in ms1
      ensures (k in index && index[k] == index1[k] && index[k] in ms) || exists r' :: r' in rs + {r} && k == CopyKey(base, r')
    {
      if exists r' :: r' in rs && k == CopyKey(base, r') {
        var r' :| r' in rs && k == CopyKey(base, r');
        assert r' in rs + {r};
      }
    }
    assert r in rs + {r};
  }

  lemma TraceableLess(ms: map<Id, Message>, index: map<string, Id>, ms1: map<Id, Message>, index1: map<string, Id>, rs: set<string>, base: string, r: string)
    requires Traceable(ms, index, ms1, index1, rs, base) && CopyKey(base, r) in index1
    ensures Traceable(ms, index, ms1 - {index1[CopyKey(base, r)]}, index1, rs - {r}, base)
  {
    hide CopyKey;
    forall k | k in index1 && index1[k] in ms1 && index1[k] != index1[CopyKey(base, r)]
      ensures (k in index && index[k] == index1[k] && index[k] in ms) || exists r' :: r' in rs - {r} && k == CopyKey(base, r')
    {
      if exists r' :: r' in rs && k == CopyKey(base, r') {
        var r' :| r' in rs && k == CopyKey(base, r');
        assert r' in rs - {r};
      }
    }
  }

  lemma KeptAll(ms: map<Id, Message>, index: map<string, Id>)
    ensures Kept(ms, index, index)
  {
  }

  lemma KeptMore(ms: map<Id, Message>, index: map<string, Id>, index1: map<string, Id>, k: string, id: Id)
    requires Kept(ms, index, index1) && !(k in index && index[k] in ms)
    ensures Kept(ms, index, index1[k := id])
  {
  }

  lemma GrewNone(ms: map<Id, Message>, index: map<string, Id>, base: string, letter: MessageData, now: Time)
    ensures Grew(ms, ms, index, {}, base, letter, now)
  {
  }

  lemma GrewMore(ms: map<Id, Message>, ms1: map<Id, Message>, index1: map<string, Id>, rs: set<string>, base: string, letter: MessageData, now: Time, r: string, id: Id)
    requires Grew(ms, ms1, index1, rs, base, letter, now) && r !in rs && id !in ms1
    ensures Grew(ms, ms1[id := NewMessage(InboxData(letter, r), id, now)], index1[CopyKey(base, r) := id], rs + {r}, base, letter, now)
  {
    hide CopyKey;
    forall r' | r' in rs ensures CopyKey(base, r') != CopyKey(base, r) {
      KeysDiffer(base, r', base, r);
    }
  }

  function Succeeds(ms: map<Id, Message>, index: map<string, Id>, base: string, faults: Faults): string -> bool {
    (r: string) => !Fails(ms, index, base, faults, r)
  }

  function NewlySucceeds(ms: map<Id, Message>, index: map<string, Id>, base: string, faults: Faults): string -> bool {
    (r: string) => !Fails(ms, index, base, faults, r) && !Has(ms, index, base, r)
  }

  lemma GrewLess(ms: map<Id, Message>, ms1: map<Id, Message>, index: map<string, Id>, rs: set<string>, base: string, letter: MessageData, now: Time, r: string)
    requires Grew(ms, ms1, index, rs, base, letter, now) && r in rs
    ensures CopyKey(base, r) in index && Grew(ms, ms1 - {index[CopyKey(base, r)]}, index, rs - {r}, base, letter, now)
  {
    hide CopyKey;
    assert IsNewCopy(ms, ms1, index, base, letter, now, r);
    forall r' | r' in rs && r' != r ensures IsNewCopy(ms, ms1 - {index[CopyKey(base, r)]}, index, base, letter, now, r') {
      assert IsNewCopy(ms, ms1, index, base, letter, now, r');
    }
  }

  datatype CreateResult = Rejected | Existing(id: Id) | Created(id: Id)

  /** Identifiers never used before. */
  ghost predicate Unused(supply: seq<Id>, ms: map<Id, Message>, index: map<string, Id>) {
    && Distinct(supply)
    && forall i :: 0 <= i < |supply| ==> supply[i] !in ms && forall k :: k in index ==> index[k] != supply[i]
  }

  class Mailbox {
    var messages: map<Id, Message>
    var index: map<string, Id>

    constructor (ms: map<Id, Message>)
      ensures messages == ms && index == map[]
    {
      messages, index := ms, map[];
    }

    /** Creates the message or finds the one created under the same key; an index entry whose message
        is gone is removed and the creation tried again. */
    method CreateMessageIdempotent(data: MessageData, key: string, first: Id, second: Id, now: Time) returns (r: CreateResult)
      modifies this
      ensures r.Rejected? <==> key == ""
      ensures var k := IndexKey(data.ownerId, key);
              if key == "" then messages == old(messages) && index == old(index)
              else if k in old(index) && old(index)[k] in old(messages) then
                r == Existing(old(index)[k]) && messages == old(messages) && index == old(index)
              else
                && r == Created(if k in old(index) then second else first)
                && messages == old(messages)[r.id := NewMessage(data, r.id, now)]
                && index == old(index)[k := r.id]
    {
      if key == "" {
        return Rejected;
      }
      var k := IndexKey(data.ownerId, key);
      var id := first;
      var attempt := 0;
      while attempt < 2
        invariant 0 <= attempt <= 2 && messages == old(messages)
        invariant attempt == 0 ==> index == old(index) && id == first
        invariant attempt == 1 ==> k in old(index) && old(index)[k] !in old(messages) && index == old(index) - {k}
        invariant attempt < 2
      {
        id := if attempt == 0 then first else second;
        if k !in index {
          index := index[k := id];
          break;
        }
        if index[k] in messages {
          return Existing(index[k]);
        }
        index := index - {k};
        attempt := attempt + 1;
      }
      messages := messages[id := NewMessage(data, id, now)];
      assert index == old(index)[k := id];
      return Created(id);
    }

    /** The copy of one recipient. */
    method CreateCopy(base: string, letter: MessageData, r: string, first: Id, second: Id, now: Time) returns (result: CreateResult)
      modifies this
      ensures if Has(old(messages), old(index), base, r) then
                result == Existing(old(index)[CopyKey(base, r)]) && messages == old(messages) && index == old(index)
              else
                && result.Created? && result.id in {first, second}
                && messages == old(messages)[result.id := NewMessage(InboxData(letter, r), result.id, now)]
                && index == old(index)[CopyKey(base, r) := result.id]
    {
      result := CreateMessageIdempotent(InboxData(letter, r), DeliveryKey(base, r), first, second, now);
    }

    /** One idempotent creation per recipient; the store may refuse some. */
    method CreateCopies(base: string, letter: MessageData, rs: seq<string>, refused: set<string>, supply: seq<Id>, now: Time)
      returns (results: seq<CreateResult>)
      requires Distinct(rs) && |supply| == 2 * |rs| && Unused(supply, messages, index)
      modifies this
      ensures |results| == |rs|
      ensures forall i :: 0 <= i < |rs| ==> ResultOk(results[i], old(messages), old(index), index, base, refused, rs[i])
      ensures Grew(old(messages), messages, index, Missing(rs, old(messages), old(index), base, refused), base, letter, now)
      ensures Kept(old(messages), old(index), index)
      ensures Traceable(old(messages), old(index), messages, index, Missing(rs, old(messages), old(index), base, refused), base)
    {
      hide CopyKey, Grew, NewMessage, InboxData, Missing, Kept, Traceable, Has, ResultOk, SupplyLeft;
      results := [];
      ghost var ms, index0 := messages, index;
      NoProgress(ms, index0, base, letter, now, refused);
      SupplyFull(supply, ms, index0);
      for i := 0 to |rs|
        invariant |results| == i
        invariant forall j :: 0 <= j < i ==> ResultOk(results[j], ms, index0, index, base, refused, rs[j])
        invariant Progress(ms, index0, messages, index, Missing(rs[..i], ms, index0, base, refused), base, letter, now)
        invariant SupplyLeft(supply, 2 * i, messages, index)
      {
        var r := rs[i];
        ghost var before, indexBefore, done := messages, index, Missing(rs[..i], ms, index0, base, refused);
        MissingMore(rs, i, ms, index0, base, refused);
        SameHas(ms, index0, messages, index, done, base, letter, now, r);
        if r in refused {
          results := results + [Rejected];
        } else {
          var result := CreateCopy(base, letter, r, supply[2 * i], supply[2 * i + 1], now);
          results := results + [result];
          if !Has(ms, index0, base, r) {
            SupplyUsed(supply, i, before, indexBefore, CopyKey(base, r), result.id, NewMessage(InboxData(letter, r), result.id, now));
            ProgressMore(ms, index0, before, indexBefore, done, base, letter, now, r, result.id);
            ResultsKept(results[..i], rs, ms, index0, indexBefore, base, refused, i, result.id);
          }
        }
        assert forall j :: 0 <= j < i ==> ResultOk(results[j], ms, index0, index, base, refused, rs[j]) by {
          assert forall j :: 0 <= j < i ==> results[..i][j] == results[j];
        }
        ResultIs(results[i], ms, index0, index, base, refused, r);
        SupplyLater(supply, 2 * i, messages, index);
      }
      assert rs[..|rs|] == rs;
    }

    /** Attachment references of the new copies; a copy whose references cannot be added is deleted again. */
    method SettleCopies(base: string, ghost letter: MessageData, rs: seq<string>, results: seq<CreateResult>, ghost refused: set<string>, refs: set<string>,
                        ghost ms: map<Id, Message>, ghost index0: map<string, Id>, ghost now: Time)
      returns (deliveredTo: seq<string>, newlyDelivered: seq<string>, failed: set<string>)
      requires Distinct(rs) && |results| == |rs|
      requires forall i :: 0 <= i < |rs| ==> ResultOk(results[i], ms, index0, index, base, refused, rs[i])
      requires Grew(ms, messages, index, Missing(rs, ms, index0, base, refused), base, letter, now)
      requires Traceable(ms, index0, messages, index, Missing(rs, ms, index0, base, refused), base)
      modifies this`messages
      ensures deliveredTo == Filter(rs, Settles(ms, index0, base, refused, refs))
      ensures newlyDelivered == Filter(rs, NewlySettles(ms, index0, base, refused, refs))
      ensures failed == Elements(rs) - Elements(deliveredTo)
      ensures Grew(ms, messages, index, Elements(newlyDelivered), base, letter, now)
      ensures Traceable(ms, index0, messages, index, Elements(newlyDelivered), base)
    {
      hide CopyKey, Grew, Missing, Remaining, Has, Traceable, Filter;
      deliveredTo, newlyDelivered, failed := [], [], {};
      FilterEmpty(Settles(ms, index0, base, refused, refs));
      FilterEmpty(NewlySettles(ms, index0, base, refused, refs));
      RemainingEnds(rs, ms, index0, base, refused, refs);
      for i := 0 to |rs|
        invariant deliveredTo == Filter(rs[..i], Settles(ms, index0, base, refused, refs))
        invariant newlyDelivered == Filter(rs[..i], NewlySettles(ms, index0, base, refused, refs))
        invariant forall r :: r in failed <==> r in rs[..i] && !Settles(ms, index0, base, refused, refs)(r)
        invariant Grew(ms, messages, index, Remaining(rs, i, ms, index0, base, refused, refs), base, letter, now)
        invariant Traceable(ms, index0, messages, index, Remaining(rs, i, ms, index0, base, refused, refs), base)
      {
        var r, result := rs[i], results[i];
        assert rs[..i + 1] == rs[..i] + [r];
        FilterMore(rs[..i], r, Settles(ms, index0, base, refused, refs));
        FilterMore(rs[..i], r, NewlySettles(ms, index0, base, refused, refs));
        RemainingMore(rs, i, ms, index0, base, refused, refs);
        IsMissing(rs, i, ms, index0, base, refused);
        if result.Rejected? {
          failed := failed + {r};
        } else if result.Existing? {
          deliveredTo := deliveredTo + [r];
        } else if r in refs {
          GrewLess(ms, messages, index, Remaining(rs, i, ms, index0, base, refused, refs), base, letter, now, r);
          TraceableLess(ms, index0, messages, index, Remaining(rs, i, ms, index0, base, refused, refs), base, r);
          messages := messages - {result.id};
          failed := failed + {r};
        } else {
          deliveredTo := deliveredTo + [r];
          newlyDelivered := newlyDelivered + [r];
        }
      }
      assert rs[..|rs|] == rs;
      FilterMembers(rs, Settles(ms, index0, base, refused, refs));
    }

    /** The targets that may receive, and those that may not. */
    method CheckQuotas(ts: seq<string>, faults: Faults) returns (eligible: seq<string>, failed: set<string>)
      ensures eligible == Filter(ts, Within(faults)) && failed == (set r | r in ts && r in faults.quota)
      ensures failed + Elements(eligible) == Elements(ts) && (Distinct(ts) ==> Distinct(eligible))
    {
      eligible, failed := [], {};
      for i := 0 to |ts|
        invariant eligible == Filter(ts[..i], Within(faults))
        invariant forall r :: r in failed <==> r in ts[..i] && r in faults.quota
      {
        assert ts[..i + 1][..i] == ts[..i];
        assert ts[..i + 1] == ts[..i] + [ts[i]];
        if ts[i] in faults.quota {
          failed := failed + {ts[i]};
          continue;
        }
        eligible := eligible + [ts[i]];
      }
      assert ts[..|ts|] == ts;
      FilterMembers(ts, Within(faults));
    }

    /** Quota checks, creation and references for every target; failures are collected, not raised. */
    method DeliverToRecipients(base: string, letter: MessageData, targets: seq<string>, faults: Faults, supply: seq<Id>, now: Time)
      returns (deliveredTo: seq<string>, newlyDelivered: seq<string>, failed: set<string>)
      requires var ts := Targets(letter, targets); Distinct(ts) && |supply| == 2 * |ts| && Unused(supply, messages, index)
      modifies this
      ensures var ts := Targets(letter, targets);
              Delivers(old(messages), old(index), messages, index, base, letter, ts, faults, deliveredTo, newlyDelivered, failed, now)
      ensures forall r :: r in deliveredTo <==>
                && r in Targets(letter, targets) && !faults.batch && r !in faults.quota && r !in faults.create
                && (r in faults.refs ==> Has(old(messages), old(index), base, r))
      ensures forall r :: r in newlyDelivered <==> r in deliveredTo && !Has(old(messages), old(index), base, r)
    {
      hide Grew, Has, Missing, Filter, Unused, Traceable, Kept;
      ghost var ms, index0 := messages, index;
      var ts := targets;
      if |targets| == 0 {
        ts := letter.recipientIds;
      }
      var eligible, overQuota := CheckQuotas(ts, faults);
      if |eligible| == 0 || faults.batch {
        failed := overQuota + set r | r in eligible;
        NothingDelivered(ms, index0, base, letter, ts, faults, failed, now);
        WhoGets(ms, index0, base, ts, faults);
        return [], [], failed;
      }
      FilterShorter(ts, Within(faults));
      UnusedFront(supply, 2 * |eligible|, messages, index);
      var results := CreateCopies(base, letter, eligible, faults.create, supply[..2 * |eligible|], now);
      var more: set<string>;
      deliveredTo, newlyDelivered, more := SettleCopies(base, letter, eligible, results, faults.create, faults.refs, ms, index0, now);
      failed := overQuota + more;
      DeliveredAre(ms, index0, base, ts, faults, deliveredTo, newlyDelivered, failed);
      WhoGets(ms, index0, base, ts, faults);
    }

    /** The sender's copy in the outbox, rolled back when its references cannot be added. */
    method CreateSenderMessage(letter: MessageData, id: Id, faults: SendFaults, now: Time) returns (ok: bool)
      requires id !in messages
      modifies this`messages
      ensures ok == (!faults.createSender && !faults.senderRefs)
      ensures messages == if ok then old(messages)[id := NewMessage(SenderData(letter), id, now)] else old(messages)
      ensures ok ==>
                var m := messages[id];
                && m.ownerId == m.senderId == letter.senderId && m.folderId == FOLDER_OUTBOX && m.status == "queued"
                && m.recipientIds == letter.recipientIds && m.subject == letter.subject && m.body == letter.body
                && !m.isDraft && !m.isRead && m.createdAt == m.updatedAt == now
    {
      if faults.createSender {
        return false;
      }
      messages := messages[id := NewMessage(SenderData(letter), id, now)];
      if faults.senderRefs {
        messages := messages - {id};
        return false;
      }
      return true;
    }

    /** The sender's copy goes to Sent, and a saved draft is removed. */
    method FinalizeDelivery(id: Id, draftId: Id, faults: SendFaults, now: Time)
      requires id in messages && id != draftId
      modifies this`messages
      ensures var moved := old(messages)[id := old(messages)[id].(folderId := FOLDER_SENT, updatedAt := now)];
              messages == if draftId in moved && moved[draftId].isDraft && !faults.draftDelete then moved - {draftId} else moved
    {
      messages := messages[id := messages[id].(folderId := FOLDER_SENT, updatedAt := now)];
      if draftId in messages && messages[draftId].isDraft && !faults.draftDelete {
        messages := messages - {draftId};
      }
    }

    /** Sends a draft: if no message comes back nothing was stored; otherwise the store holds one sent
        copy, one inbox copy for each recipient delivered to, and nothing for the failed ones. */
    method SendDraft(letter: MessageData, draftId: Id, deliverTo: seq<string>, faults: SendFaults, supply: seq<Id>, now: Time)
      returns (sent: Option<Id>, deliveredTo: seq<string>, failed: set<string>)
      requires Unused(supply, messages, index) && |supply| == 1 + 2 * (|letter.recipientIds| + |deliverTo|)
      requires draftId !in supply && forall r: string :: CopyKey(supply[0], r) !in index
      modifies this
      ensures sent.None? ==> messages == old(messages) && deliveredTo == []
      ensures sent.Some? ==>
                && Sent(old(messages), messages, index, sent.value, Addressed(letter), deliveredTo, draftId, now)
                && deliveredTo != [] && Distinct(deliveredTo)
                && Elements(deliveredTo) !! failed && Elements(deliveredTo) + failed == AllTargets(letter, deliverTo)
      ensures var targets := if deliverTo == [] then letter.recipientIds else deliverTo;
              var reached := set r | r in targets && r !in faults.delivery.quota && r !in faults.delivery.create && r !in faults.delivery.refs;
              && (sent.Some? <==>
                    && faults.valid && (forall r :: r in deliverTo ==> r in letter.recipientIds)
                    && !faults.createSender && !faults.senderRefs && !faults.delivery.batch && reached != {})
              && (sent.Some? ==> (set r | r in deliveredTo) == reached)
      ensures sent.Some? && draftId in old(messages) && old(messages)[draftId].isDraft ==> (draftId in messages <==> faults.draftDelete)
    {
      hide Sent, Grew;
      sent, deliveredTo, failed := None, [], {};
      var recipients := DeduplicateRecipients(letter.recipientIds);
      var targets := [];
      if |deliverTo| > 0 {
        targets := DeduplicateRecipients(deliverTo);
      }
      SameTargets(letter, deliverTo, targets, recipients);
      if exists r :: r in targets && r !in recipients {
        return;
      }
      if !faults.valid {
        return;
      }
      TargetsFit(letter, deliverTo, targets);
      sent, deliveredTo, failed := SendCopies(letter.(recipientIds := recipients), draftId, targets, faults, supply, now);
    }

    /** The part of a send that stores: sender's copy, deliveries, and rollback or completion. */
    method SendCopies(letter: MessageData, draftId: Id, targets: seq<string>, faults: SendFaults, supply: seq<Id>, now: Time)
      returns (sent: Option<Id>, deliveredTo: seq<string>, failed: set<string>)
      requires Distinct(Targets(letter, targets)) && Unused(supply, messages, index) && |supply| >= 1 + 2 * |Targets(letter, targets)|
      requires draftId !in supply && forall r: string :: CopyKey(supply[0], r) !in index
      modifies this
      ensures sent.None? ==> messages == old(messages) && deliveredTo == []
      ensures sent.Some? ==>
                && Sent(old(messages), messages, index, sent.value, letter, deliveredTo, draftId, now)
                && deliveredTo != [] && Distinct(deliveredTo)
                && Elements(deliveredTo) !! failed && Elements(deliveredTo) + failed == Elements(Targets(letter, targets))
      ensures var reached := Reachable(Elements(Targets(letter, targets)), faults.delivery);
              && (sent.Some? <==> !faults.createSender && !faults.senderRefs && !faults.delivery.batch && reached != {})
              && (sent.Some? ==> Elements(deliveredTo) == reached)
      ensures sent.Some? && draftId in old(messages) && old(messages)[draftId].isDraft ==> (draftId in messages <==> faults.draftDelete)
    {
      hide Grew, Has, NewMessage, SenderData, Sent, Filter, Reachable;
      sent, deliveredTo, failed := None, [], {};
      var id := supply[0];
      var ok := CreateSenderMessage(letter, id, faults, now);
      if !ok {
        return;
      }
      ghost var ms1, index1, ts := messages, index, Targets(letter, targets);
      var n := 2 * |Targets(letter, targets)|;
      UnusedRest(supply, n, old(messages), index, ms1);
      var newlyDelivered: seq<string>;
      deliveredTo, newlyDelivered, failed := DeliverToRecipients(id, letter, targets, faults.delivery, supply[1..1 + n], now);
      AllNew(ms1, index1, id, ts, faults.delivery);
      DeliveredMembers(ts, Succeeds(ms1, index1, id, faults.delivery), deliveredTo);
      ReachedAre(ms1, index1, id, ts, faults.delivery, deliveredTo);
      if |deliveredTo| == 0 {
        assert Elements(newlyDelivered) == {};
        NothingGrew(ms1, messages, index, id, letter, now);
        messages := messages - {id};
        assert messages == old(messages);
        return;
      }
      ghost var ms2 := messages;
      SenderStays(ms1, ms2, index, Elements(deliveredTo), id, letter, now, id);
      if draftId in old(messages) {
        SenderStays(ms1, ms2, index, Elements(deliveredTo), id, letter, now, draftId);
      }
      FinalizeDelivery(id, draftId, faults, now);
      sent := Some(id);
      SentAre(old(messages), ms2, messages, index, id, letter, deliveredTo, draftId, now);
    }
  }

  lemma IsMissing(rs: seq<string>, i: nat, ms: map<Id, Message>, index: map<string, Id>, base: string, refused: set<string>)
    requires i < |rs|
    ensures rs[i] in Missing(rs, ms, index, base, refused) <==> rs[i] !in refused && !Has(ms, index, base, rs[i])
  {
  }

  /** Failures of a send besides those of the delivery; `valid` stands for the checks and hooks before it. */
  datatype SendFaults = SendFaults(valid: bool, createSender: bool, senderRefs: bool, draftDelete: bool, delivery: Faults)

  function Addressed(letter: MessageData): MessageData {
    letter.(recipientIds := FirstOccurrences(letter.recipientIds))
  }

  function AllTargets(letter: MessageData, deliverTo: seq<string>): set<string> {
    Elements(if deliverTo == [] then letter.recipientIds else deliverTo)
  }

  ghost predicate Sent(ms: map<Id, Message>, ms': map<Id, Message>, index': map<string, Id>, id: Id, letter: MessageData, deliveredTo: seq<string>, draftId: Id, now: Time) {
    && id !in ms && id in ms'
    && ms'[id] == NewMessage(SenderData(letter), id, now).(folderId := FOLDER_SENT, updatedAt := now)
    && (forall r :: r in deliveredTo ==> IsNewCopy(ms, ms', index', id, letter, now, r) && index'[CopyKey(id, r)] != id)
    && (forall x :: x in ms' && x !in ms && x != id ==> ms'[x].ownerId in deliveredTo && index'[CopyKey(id, ms'[x].ownerId)] == x)
    && (forall x :: x in ms ==> (x in ms' && ms'[x] == ms[x]) || (x !in ms' && x == draftId && ms[x].isDraft))
  }

  /** The new messages of a user in one folder. */
  function NewIn(ms: map<Id, Message>, ms': map<Id, Message>, ownerId: string, folderId: string): set<Id> {
    set x | x in ms' && x !in ms && ms'[x].ownerId == ownerId && ms'[x].folderId == folderId
  }

  /** A send adds one message to the sender's Sent folder, one unread message with the letter's text to the
      inbox of each recipient delivered to, and none to any other inbox. */
  lemma OneCopyEach(ms: map<Id, Message>, ms': map<Id, Message>, index': map<string, Id>, id: Id, letter: MessageData, deliveredTo: seq<string>, draftId: Id, now: Time)
    requires Sent(ms, ms', index', id, letter, deliveredTo, draftId, now)
    ensures forall u :: NewIn(ms, ms', u, FOLDER_SENT) == if u == letter.senderId then {id} else {}
    ensures forall u :: NewIn(ms, ms', u, FOLDER_INBOX) == if u in deliveredTo then {index'[CopyKey(id, u)]} else {}
    ensures forall x :: x in ms' && x !in ms ==>
              !ms'[x].isDraft && !ms'[x].isRead && ms'[x].senderId == letter.senderId && ms'[x].subject == letter.subject &&
              ms'[x].body == letter.body && ms'[x].attachments == letter.attachments && ms'[x].recipientIds == letter.recipientIds &&
              ms'[x].threadId == letter.threadId && ms'[x].replyToId == letter.replyToId && ms'[x].externalId == letter.externalId &&
              ms'[x].expiresAt == letter.expiresAt && ms'[x].availableAt == letter.availableAt &&
              ms'[x].createdAt == ms'[x].updatedAt == now && ms'[x].readAt == None && ms'[x].tags == [] && ms'[x].id == x &&
              ms'[x].status == (if x == id then "queued" else "delivered")
  {
    hide CopyKey;
    forall x | x in ms' && x !in ms && x != id
      ensures ms'[x] == NewMessage(InboxData(letter, ms'[x].ownerId), x, now) && ms'[x].ownerId in deliveredTo
    {
      assert IsNewCopy(ms, ms', index', id, letter, now, ms'[x].ownerId);
    }
    forall u | u in deliveredTo ensures IsNewCopy(ms, ms', index', id, letter, now, u) && index'[CopyKey(id, u)] != id {
    }
  }

  lemma TargetsFit(letter: MessageData, deliverTo: seq<string>, targets: seq<string>)
    requires targets == FirstOccurrences(deliverTo)
    ensures |Targets(Addressed(letter), targets)| <= |letter.recipientIds| + |deliverTo|
    ensures targets == [] <==> deliverTo == []
  {
    FirstShorter(deliverTo);
    FirstShorter(letter.recipientIds);
  }

  lemma SameTargets(letter: MessageData, deliverTo: seq<string>, targets: seq<string>, recipients: seq<string>)
    requires targets == FirstOccurrences(deliverTo) && recipients == FirstOccurrences(letter.recipientIds)
    ensures (forall r :: r in targets <==> r in deliverTo) && (forall r :: r in recipients <==> r in letter.recipientIds)
    ensures Elements(Targets(letter.(recipientIds := recipients), targets)) == AllTargets(letter, deliverTo)
  {
    FirstOccurrencesAre(deliverTo);
    FirstOccurrencesAre(letter.recipientIds);
    FirstShorter(deliverTo);
    assert forall r :: r in targets <==> r in Elements(targets);
    assert forall r :: r in recipients <==> r in Elements(recipients);
    assert forall r :: r in deliverTo <==> r in Elements(deliverTo);
    assert forall r :: r in letter.recipientIds <==> r in Elements(letter.recipientIds);
  }

  lemma {:induction false} FirstShorter(ids: seq<string>)
    ensures |FirstOccurrences(ids)| <= |ids| && (FirstOccurrences(ids) == [] <==> ids == [])
  {
    if ids != [] {
      FirstShorter(ids[..|ids| - 1]);
    }
  }

  lemma UnusedRest(supply: seq<Id>, n: nat, ms: map<Id, Message>, index: map<string, Id>, ms1: map<Id, Message>)
    requires 1 + n <= |supply| && Unused(supply, ms, index) && ms1.Keys == ms.Keys + {supply[0]}
    ensures Unused(supply[1..1 + n], ms1, index)
  {
  }

  /** For a new sender message every delivery is a new one. */
  lemma AllNew(ms: map<Id, Message>, index: map<string, Id>, base: string, ts: seq<string>, faults: Faults)
    requires forall r: string :: CopyKey(base, r) !in index
    ensures Filter(ts, NewlySucceeds(ms, index, base, faults)) == Filter(ts, Succeeds(ms, index, base, faults))
  {
    FilterTwice(ts, Succeeds(ms, index, base, faults), NewlySucceeds(ms, index, base, faults), NewlySucceeds(ms, index, base, faults));
    FilterMembers(ts, Succeeds(ms, index, base, faults));
    FilterAll(Filter(ts, Succeeds(ms, index, base, faults)), NewlySucceeds(ms, index, base, faults));
  }

  lemma {:induction false} FilterAll(list: seq<string>, p: string -> bool)
    requires forall r :: r in list ==> p(r)
    ensures Filter(list, p) == list
  {
    if list != [] {
      assert list[|list| - 1] in list;
      FilterAll(list[..|list| - 1], p);
    }
  }

  lemma DeliveredMembers(ts: seq<string>, p: string -> bool, deliveredTo: seq<string>)
    requires Distinct(ts) && deliveredTo == Filter(ts, p)
    ensures Distinct(deliveredTo) && Elements(deliveredTo) <= Elements(ts)
  {
    FilterMembers(ts, p);
  }

  /** For a new sender message exactly the reachable targets are delivered to. */
  lemma ReachedAre(ms: map<Id, Message>, index: map<string, Id>, base: string, ts: seq<string>, faults: Faults, deliveredTo: seq<string>)
    requires forall r: string :: CopyKey(base, r) !in index
    requires deliveredTo == Filter(ts, Succeeds(ms, index, base, faults))
    ensures Elements(deliveredTo) == if faults.batch then {} else Reachable(Elements(ts), faults)
    ensures deliveredTo == [] <==> Elements(deliveredTo) == {}
  {
    hide CopyKey;
    WhoGets(ms, index, base, ts, faults);
    if deliveredTo != [] {
      assert deliveredTo[0] in Elements(deliveredTo);
    }
  }

  lemma NothingGrew(ms: map<Id, Message>, ms': map<Id, Message>, index': map<string, Id>, base: string, letter: MessageData, now: Time)
    requires Grew(ms, ms', index', {}, base, letter, now)
    ensures ms' == ms
  {
    assert ms'.Keys == ms.Keys;
  }

  lemma SenderStays(ms: map<Id, Message>, ms': map<Id, Message>, index': map<string, Id>, rs: set<string>, base: string, letter: MessageData, now: Time, id: Id)
    requires Grew(ms, ms', index', rs, base, letter, now) && id in ms
    ensures id in ms' && ms'[id] == ms[id]
  {
  }

  /** All messages stay but for one draft, and this one is replaced. */
  ghost predicate Carried(ms: map<Id, Message>, ms': map<Id, Message>, id: Id, m: Message, draftId: Id) {
    && id in ms' && ms'[id] == m
    && (forall x :: x in ms' ==> x == id || (x in ms && ms'[x] == ms[x]))
    && (forall x :: x in ms && x != id ==> x in ms' || (x == draftId && ms[x].isDraft))
  }

  lemma NewCopyKept(ms: map<Id, Message>, ms1: map<Id, Message>, ms2: map<Id, Message>, ms': map<Id, Message>, index': map<string, Id>,
                    id: Id, letter: MessageData, m: Message, draftId: Id, now: Time, r: string)
    requires IsNewCopy(ms1, ms2, index', id, letter, now, r) && ms1.Keys == ms.Keys + {id} && Carried(ms2, ms', id, m, draftId)
    ensures IsNewCopy(ms, ms', index', id, letter, now, r) && CopyKey(id, r) in index' && index'[CopyKey(id, r)] != id
  {
    hide CopyKey;
  }

  lemma OthersKept(ms: map<Id, Message>, ms1: map<Id, Message>, ms2: map<Id, Message>, ms': map<Id, Message>, index': map<string, Id>,
                   id: Id, letter: MessageData, m: Message, deliveredTo: seq<string>, draftId: Id, now: Time)
    requires Grew(ms1, ms2, index', Elements(deliveredTo), id, letter, now) && Carried(ms2, ms', id, m, draftId)
    requires id !in ms && ms1.Keys == ms.Keys + {id} && forall x :: x in ms ==> ms1[x] == ms[x]
    ensures forall x :: x in ms' && x !in ms && x != id ==> ms'[x].ownerId in deliveredTo
    ensures forall x :: x in ms' && x !in ms && x != id ==>
              CopyKey(id, ms'[x].ownerId) in index' && index'[CopyKey(id, ms'[x].ownerId)] == x
    ensures forall x :: x in ms ==> (x in ms' && ms'[x] == ms[x]) || (x !in ms' && x == draftId && ms[x].isDraft)
  {
    hide CopyKey;
  }

  lemma SentAre(ms: map<Id, Message>, ms2: map<Id, Message>, ms': map<Id, Message>, index': map<string, Id>, id: Id, letter: MessageData, deliveredTo: seq<string>, draftId: Id, now: Time)
    requires id !in ms && id != draftId
    requires Grew(ms[id := NewMessage(SenderData(letter), id, now)], ms2, index', Elements(deliveredTo), id, letter, now)
    requires var moved := ms2[id := NewMessage(SenderData(letter), id, now).(folderId := FOLDER_SENT, updatedAt := now)];
             ms' == moved || (draftId in moved && moved[draftId].isDraft && ms' == moved - {draftId})
    ensures Sent(ms, ms', index', id, letter, deliveredTo, draftId, now)
  {
    hide CopyKey, IsNewCopy, NewMessage;
    var ms1 := ms[id := NewMessage(SenderData(letter), id, now)];
    var m := NewMessage(SenderData(letter), id, now).(folderId := FOLDER_SENT, updatedAt := now);
    assert Carried(ms2, ms', id, m, draftId);
    hide Carried;
    OthersKept(ms, ms1, ms2, ms', index', id, letter, m, deliveredTo, draftId, now);
    forall r | r in deliveredTo ensures IsNewCopy(ms, ms', index', id, letter, now, r) && CopyKey(id, r) in index' && index'[CopyKey(id, r)] != id {
      NewCopyKept(ms, ms1, ms2, ms', index', id, letter, m, draftId, now, r);
    }
  }

  /** Without explicit targets every recipient is one. */
  function Targets(letter: MessageData, targets: seq<string>): seq<string> {
    if targets == [] then letter.recipientIds else targets
  }

  function Within(faults: Faults): string -> bool {
    (r: string) => r !in faults.quota
  }

  /** The outcome of a delivery: who has the copy, who got it just now, who has none; and the store grew
      by the new copies only. */
  ghost predicate Delivers(ms: map<Id, Message>, index: map<string, Id>, ms': map<Id, Message>, index': map<string, Id>,
                           base: string, letter: MessageData, ts: seq<string>, faults: Faults,
                           deliveredTo: seq<string>, newlyDelivered: seq<string>, failed: set<string>, now: Time) {
    && deliveredTo == Filter(ts, Succeeds(ms, index, base, faults))
    && newlyDelivered == Filter(ts, NewlySucceeds(ms, index, base, faults))
    && failed == Elements(ts) - Elements(deliveredTo)
    && Grew(ms, ms', index', Elements(newlyDelivered), base, letter, now)
    && Kept(ms, index, index')
    && Traceable(ms, index, ms', index', Elements(newlyDelivered), base)
  }

  lemma {:induction false} FilterShorter(list: seq<string>, p: string -> bool)
    ensures |Filter(list, p)| <= |list|
  {
    if list != [] {
      FilterShorter(list[..|list| - 1], p);
    }
  }

  lemma UnusedFront(supply: seq<Id>, n: nat, ms: map<Id, Message>, index: map<string, Id>)
    requires n <= |supply| && Unused(supply, ms, index)
    ensures Unused(supply[..n], ms, index)
  {
  }

  /** Filtering twice is filtering by both. */
  lemma {:induction false} FilterTwice(list: seq<string>, p: string -> bool, q: string -> bool, both: string -> bool)
    requires forall r :: r in list ==> both(r) == (p(r) && q(r))
    ensures Filter(Filter(list, p), q) == Filter(list, both)
  {
    if list != [] {
      var n := |list| - 1;
      assert list[n] in list;
      FilterTwice(list[..n], p, q, both);
      if p(list[n]) {
        assert Filter(list, p)[..|Filter(list, p)| - 1] == Filter(list[..n], p);
      } else {
        assert Filter(list, p) == Filter(list[..n], p);
      }
    }
  }

  lemma {:induction false} FilterNone(list: seq<string>, p: string -> bool)
    requires forall r :: r in list ==> !p(r)
    ensures Filter(list, p) == []
  {
    if list != [] {
      assert list[|list| - 1] in list;
      FilterNone(list[..|list| - 1], p);
    }
  }

  lemma NothingDelivered(ms: map<Id, Message>, index: map<string, Id>, base: string, letter: MessageData, ts: seq<string>, faults: Faults, failed: set<string>, now: Time)
    requires faults.batch || Filter(ts, Within(faults)) == []
    requires failed == Elements(ts)
    ensures Delivers(ms, index, ms, index, base, letter, ts, faults, [], [], failed, now)
  {
    FilterMembers(ts, Within(faults));
    forall r | r in ts ensures Fails(ms, index, base, faults, r) {
      assert faults.batch || r !in Filter(ts, Within(faults));
    }
    FilterNone(ts, Succeeds(ms, index, base, faults));
    FilterNone(ts, NewlySucceeds(ms, index, base, faults));
    TraceableAll(ms, index, base);
    assert Elements([]) == {};
  }

  lemma WhoGets(ms: map<Id, Message>, index: map<string, Id>, base: string, ts: seq<string>, faults: Faults)
    ensures forall r :: r in Filter(ts, Succeeds(ms, index, base, faults)) <==>
              && r in ts && !faults.batch && r !in faults.quota && r !in faults.create
              && (r in faults.refs ==> Has(ms, index, base, r))
    ensures forall r :: r in Filter(ts, NewlySucceeds(ms, index, base, faults)) <==>
              r in Filter(ts, Succeeds(ms, index, base, faults)) && !Has(ms, index, base, r)
  {
    FilterMembers(ts, Succeeds(ms, index, base, faults));
    FilterMembers(ts, NewlySucceeds(ms, index, base, faults));
  }

  /** The recipients that neither a quota check, the store nor the attachment manager refuses. */
  function Reachable(targets: set<string>, faults: Faults): set<string> {
    set r | r in targets && r !in faults.quota && r !in faults.create && r !in faults.refs
  }

  lemma DeliveredAre(ms: map<Id, Message>, index: map<string, Id>, base: string, ts: seq<string>, faults: Faults,
                     deliveredTo: seq<string>, newlyDelivered: seq<string>, failed: set<string>)
    requires !faults.batch
    requires var eligible := Filter(ts, Within(faults));
             && deliveredTo == Filter(eligible, Settles(ms, index, base, faults.create, faults.refs))
             && newlyDelivered == Filter(eligible, NewlySettles(ms, index, base, faults.create, faults.refs))
             && failed == (set r | r in ts && r in faults.quota) + (Elements(eligible) - Elements(deliveredTo))
    ensures deliveredTo == Filter(ts, Succeeds(ms, index, base, faults))
    ensures newlyDelivered == Filter(ts, NewlySucceeds(ms, index, base, faults))
    ensures failed == Elements(ts) - Elements(deliveredTo)
  {
    hide Has;
    FilterTwice(ts, Within(faults), Settles(ms, index, base, faults.create, faults.refs), Succeeds(ms, index, base, faults));
    FilterTwice(ts, Within(faults), NewlySettles(ms, index, base, faults.create, faults.refs), NewlySucceeds(ms, index, base, faults));
    FilterMembers(ts, Within(faults));
    FilterMembers(ts, Succeeds(ms, index, base, faults));
  }

  /** The copy is there in the end: it was before, or its attachment references could be added. */
  function Settles(ms: map<Id, Message>, index: map<string, Id>, base: string, refused: set<string>, refs: set<string>): string -> bool {
    (r: string) => r !in refused && (Has(ms, index, base, r) || r !in refs)
  }

  function NewlySettles(ms: map<Id, Message>, index: map<string, Id>, base: string, refused: set<string>, refs: set<string>): string -> bool {
    (r: string) => r !in refused && !Has(ms, index, base, r) && r !in refs
  }

  /** The recipients whose new copy has not been rolled back after i results. */
  function Remaining(rs: seq<string>, i: nat, ms: map<Id, Message>, index: map<string, Id>, base: string, refused: set<string>, refs: set<string>): set<string>
    requires i <= |rs|
  {
    set r | r in Missing(rs, ms, index, base, refused) && !(r in rs[..i] && r in refs)
  }

  lemma RemainingMore(rs: seq<string>, i: nat, ms: map<Id, Message>, index: map<string, Id>, base: string, refused: set<string>, refs: set<string>)
    requires i < |rs| && Distinct(rs)
    ensures Remaining(rs, i + 1, ms, index, base, refused, refs) ==
            if rs[i] in refs && rs[i] in Missing(rs, ms, index, base, refused)
            then Remaining(rs, i, ms, index, base, refused, refs) - {rs[i]} else Remaining(rs, i, ms, index, base, refused, refs)
    ensures rs[i] in Missing(rs, ms, index, base, refused) ==> rs[i] in Remaining(rs, i, ms, index, base, refused, refs)
  {
    hide Missing;
    assert rs[..i + 1] == rs[..i] + [rs[i]];
  }

  lemma RemainingEnds(rs: seq<string>, ms: map<Id, Message>, index: map<string, Id>, base: string, refused: set<string>, refs: set<string>)
    ensures Remaining(rs, 0, ms, index, base, refused, refs) == Missing(rs, ms, index, base, refused)
    ensures Remaining(rs, |rs|, ms, index, base, refused, refs) == Elements(Filter(rs, NewlySettles(ms, index, base, refused, refs)))
  {
    FilterMembers(rs, NewlySettles(ms, index, base, refused, refs));
    assert rs[..|rs|] == rs;
  }

  /** The recipients who get a new copy. */
  function Missing(rs: seq<string>, ms: map<Id, Message>, index: map<string, Id>, base: string, refused: set<string>): set<string> {
    set r | r in rs && r !in refused && !Has(ms, index, base, r)
  }

  /** What creating copies has done so far. */
  ghost predicate Progress(ms: map<Id, Message>, index: map<string, Id>, ms1: map<Id, Message>, index1: map<string, Id>, rs: set<string>,
                           base: string, letter: MessageData, now: Time) {
    Grew(ms, ms1, index1, rs, base, letter, now) && Kept(ms, index, index1) && Traceable(ms, index, ms1, index1, rs, base)
  }

  lemma NoProgress(ms: map<Id, Message>, index: map<string, Id>, base: string, letter: MessageData, now: Time, refused: set<string>)
    ensures Progress(ms, index, ms, index, Missing([], ms, index, base, refused), base, letter, now)
  {
    GrewNone(ms, index, base, letter, now);
    KeptAll(ms, index);
    TraceableAll(ms, index, base);
    NoneMissing(ms, index, base, refused);
  }

  lemma ProgressMore(ms: map<Id, Message>, index: map<string, Id>, ms1: map<Id, Message>, index1: map<string, Id>, rs: set<string>,
                     base: string, letter: MessageData, now: Time, r: string, id: Id)
    requires Progress(ms, index, ms1, index1, rs, base, letter, now) && r !in rs && !Has(ms, index, base, r)
    requires id !in ms1 && forall k :: k in index1 ==> index1[k] != id
    ensures Progress(ms, index, ms1[id := NewMessage(InboxData(letter, r), id, now)], index1[CopyKey(base, r) := id], rs + {r}, base, letter, now)
  {
    hide Grew, Kept, Traceable, CopyKey, NewMessage;
    GrewMore(ms, ms1, index1, rs, base, letter, now, r, id);
    KeptMore(ms, index, index1, CopyKey(base, r), id);
    TraceableMore(ms, index, ms1, index1, rs, base, r, id, NewMessage(InboxData(letter, r), id, now));
  }

  /** A recipient not yet served has the copy exactly when it had it at the start. */
  lemma SameHas(ms: map<Id, Message>, index: map<string, Id>, ms1: map<Id, Message>, index1: map<string, Id>, rs: set<string>,
                base: string, letter: MessageData, now: Time, r: string)
    requires Progress(ms, index, ms1, index1, rs, base, letter, now) && r !in rs
    ensures Has(ms1, index1, base, r) == Has(ms, index, base, r)
    ensures Has(ms, index, base, r) ==> CopyKey(base, r) in index1 && index1[CopyKey(base, r)] == index[CopyKey(base, r)]
  {
    hide CopyKey, NewMessage;
    forall r' | r' in rs ensures CopyKey(base, r') != CopyKey(base, r) {
      KeysDiffer(base, r', base, r);
    }
  }

  /** From this position on the supply is unused. */
  ghost predicate SupplyLeft(supply: seq<Id>, from: nat, ms: map<Id, Message>, index: map<string, Id>) {
    forall j :: from <= j < |supply| ==> supply[j] !in ms && forall k :: k in index ==> index[k] != supply[j]
  }

  lemma SupplyFull(supply: seq<Id>, ms: map<Id, Message>, index: map<string, Id>)
    requires Unused(supply, ms, index)
    ensures SupplyLeft(supply, 0, ms, index)
  {
  }

  lemma SupplyUsed(supply: seq<Id>, i: nat, ms: map<Id, Message>, index: map<string, Id>, key: string, id: Id, m: Message)
    requires Distinct(supply) && 2 * i + 2 <= |supply| && SupplyLeft(supply, 2 * i, ms, index) && id in {supply[2 * i], supply[2 * i + 1]}
    ensures id !in ms && forall k :: k in index ==> index[k] != id
    ensures SupplyLeft(supply, 2 * i + 2, ms[id := m], index[key := id])
  {
  }

  lemma SupplyLater(supply: seq<Id>, from: nat, ms: map<Id, Message>, index: map<string, Id>)
    ensures SupplyLeft(supply, from, ms, index) ==> SupplyLeft(supply, from + 2, ms, index)
  {
  }

  lemma ResultIs(result: CreateResult, ms: map<Id, Message>, index: map<string, Id>, index': map<string, Id>, base: string, refused: set<string>, r: string)
    requires if r in refused then result.Rejected?
             else CopyKey(base, r) in index' && result == if Has(ms, index, base, r) then Existing(index'[CopyKey(base, r)]) else Created(index'[CopyKey(base, r)])
    ensures ResultOk(result, ms, index, index', base, refused, r)
  {
  }

  /** Earlier results are not affected by the next copy. */
  lemma ResultsKept(results: seq<CreateResult>, rs: seq<string>, ms: map<Id, Message>, index: map<string, Id>, index1: map<string, Id>, base: string,
                    refused: set<string>, i: nat, id: Id)
    requires |results| == i < |rs| && Distinct(rs)
    requires forall j :: 0 <= j < i ==> ResultOk(results[j], ms, index, index1, base, refused, rs[j])
    ensures forall j :: 0 <= j < i ==> ResultOk(results[j], ms, index, index1[CopyKey(base, rs[i]) := id], base, refused, rs[j])
  {
    hide CopyKey, Has;
    forall j | 0 <= j < i ensures CopyKey(base, rs[j]) != CopyKey(base, rs[i]) {
      KeysDiffer(base, rs[j], base, rs[i]);
    }
  }

  lemma NoneMissing(ms: map<Id, Message>, index: map<string, Id>, base: string, refused: set<string>)
    ensures Missing([], ms, index, base, refused) == {}
  {
  }

  lemma MissingMore(rs: seq<string>, i: nat, ms: map<Id, Message>, index: map<string, Id>, base: string, refused: set<string>)
    requires i < |rs| && Distinct(rs)
    ensures Missing(rs[..i + 1], ms, index, base, refused) ==
            if rs[i] !in refused && !Has(ms, index, base, rs[i]) then Missing(rs[..i], ms, index, base, refused) + {rs[i]}
            else Missing(rs[..i], ms, index, base, refused)
    ensures rs[i] !in Missing(rs[..i], ms, index, base, refused)
  {
    hide Has;
    assert rs[..i + 1] == rs[..i] + [rs[i]];
  }

  predicate ResultOk(result: CreateResult, ms: map<Id, Message>, index: map<string, Id>, index': map<string, Id>, base: string, refused: set<string>, r: string) {
    if r in refused then result.Rejected?
    else
      && CopyKey(base, r) in index'
      && result == (if Has(ms, index, base, r) then Existing(index'[CopyKey(base, r)]) else Created(index'[CopyKey(base, r)]))
  }
}
