/**
Concurrent callers of the atomic store operations: idempotent creation by upsert
with a candidate ID per call, and deletion by ID (store/mongo/create.go).
*/
module Upserts {
  import opened Messages
  import opened Tally

  /** Owner and idempotency key. */
  type Key = (string, string)

  type Documents = map<Key, Id>

  /** The calls of all callers, in the order in which their atomic steps take effect. */
  datatype Call =
    | Create(key: Key, candidate: Id)
    | Delete(id: Id)

  datatype Answer =
    | Returned(id: Id, created: bool)
    | Deleted(won: bool)

  /** Inserts the candidate if the key is free and returns what is then stored; a caller takes itself for
      the creator when it gets its own candidate back. */
  function Upsert(docs: Documents, key: Key, candidate: Id): (Documents, Answer) {
    var docs' := if key in docs then docs else docs[key := candidate];
    (docs', Returned(docs'[key], docs'[key] == candidate))
  }

  function Stored(docs: Documents): set<Id> {
    set k | k in docs :: docs[k]
  }

  function Step(docs: Documents, call: Call): (Documents, Answer) {
    match call
    case Create(key, candidate) => Upsert(docs, key, candidate)
    case Delete(id) => (map k | k in docs && docs[k] != id :: docs[k], Deleted(id in Stored(docs)))
  }

  function After(docs: Documents, calls: seq<Call>): Documents {
    if calls == [] then docs else Step(After(docs, calls[..|calls| - 1]), calls[|calls| - 1]).0
  }

  /** What the i-th call returned. */
  function AnswerTo(docs: Documents, calls: seq<Call>, i: nat): Answer
    requires i < |calls|
  {
    Step(After(docs, calls[..i]), calls[i]).1
  }

  ghost predicate Injective(docs: Documents) {
    forall k, k' :: k in docs && k' in docs && docs[k] == docs[k'] ==> k == k'
  }

  lemma StepKeeps(docs: Documents, call: Call)
    requires Injective(docs) && (call.Create? ==> call.candidate !in Stored(docs))
    ensures Injective(Step(docs, call).0)
    ensures forall id :: id in Stored(Step(docs, call).0) ==> id in Stored(docs) || (call.Create? && id == call.candidate)
  {
    var docs' := Step(docs, call).0;
    forall k | k in docs && call.Create? ensures docs[k] != call.candidate {
      assert docs[k] in Stored(docs);
    }
    forall k, k' | k in docs' && k' in docs' && docs'[k] == docs'[k'] ensures k == k' {
      assert k in docs ==> docs'[k] == docs[k];
      assert k' in docs ==> docs'[k'] == docs[k'];
    }
    forall id | id in Stored(docs') ensures id in Stored(docs) || (call.Create? && id == call.candidate) {
      var k :| k in docs' && docs'[k] == id;
      assert k in docs ==> docs[k] in Stored(docs);
    }
  }

  /** An ID is stored only by the call that has it as its candidate. */
  lemma StepAdds(docs: Documents, call: Call, id: Id)
    requires id !in Stored(docs) && (call.Create? ==> call.candidate != id)
    ensures id !in Stored(Step(docs, call).0)
  {
    var docs' := Step(docs, call).0;
    forall k | k in docs' ensures docs'[k] != id {
      assert k in docs ==> docs[k] in Stored(docs);
    }
  }

  /** Every call generates its own candidate, and none is an ID in use. */
  ghost predicate FreshCandidates(docs: Documents, calls: seq<Call>) {
    && Injective(docs)
    && (forall i :: 0 <= i < |calls| && calls[i].Create? ==> calls[i].candidate !in Stored(docs))
    && (forall i, j :: 0 <= i < j < |calls| && calls[i].Create? && calls[j].Create? ==> calls[i].candidate != calls[j].candidate)
  }

  /** IDs that may be stored after some calls: those at the start and the candidates used so far. */
  ghost predicate Issued(docs: Documents, calls: seq<Call>, id: Id) {
    id in Stored(docs) || exists i :: 0 <= i < |calls| && calls[i].Create? && calls[i].candidate == id
  }

  lemma {:induction false} AfterFacts(docs: Documents, calls: seq<Call>)
    requires FreshCandidates(docs, calls)
    ensures var d := After(docs, calls);
            && Injective(d)
            && (forall id :: id in Stored(d) ==> Issued(docs, calls, id))
  {
    if calls != [] {
      hide Stored, Step, Injective;
      var n := |calls| - 1;
      var front := calls[..n];
      assert FreshCandidates(docs, front);
      AfterFacts(docs, front);
      forall id | Issued(docs, front, id) ensures Issued(docs, calls, id) {
        if id !in Stored(docs) {
          var i :| 0 <= i < |front| && front[i].Create? && front[i].candidate == id;
          assert calls[i] == front[i];
        }
      }
      if calls[n].Create? {
        assert Issued(docs, calls, calls[n].candidate);
        CandidateUnused(docs, calls);
      }
      StepKeeps(After(docs, front), calls[n]);
    }
  }

  lemma CandidateUnused(docs: Documents, calls: seq<Call>)
    requires calls != [] && FreshCandidates(docs, calls) && calls[|calls| - 1].Create?
    ensures !Issued(docs, calls[..|calls| - 1], calls[|calls| - 1].candidate)
  {
    var n := |calls| - 1;
    forall i | 0 <= i < n && calls[..n][i].Create? ensures calls[..n][i].candidate != calls[n].candidate {
      assert calls[..n][i] == calls[i];
    }
  }

  /** A caller is told it created the message exactly when the key was free. */
  lemma CreatedIff(docs: Documents, calls: seq<Call>, i: nat)
    requires FreshCandidates(docs, calls) && i < |calls| && calls[i].Create?
    ensures AnswerTo(docs, calls, i).created <==> calls[i].key !in After(docs, calls[..i])
  {
    var d := After(docs, calls[..i]);
    assert calls[..i + 1][..i] == calls[..i];
    assert FreshCandidates(docs, calls[..i + 1]);
    assert FreshCandidates(docs, calls[..i]);
    AfterFacts(docs, calls[..i]);
    CandidateUnused(docs, calls[..i + 1]);
    if calls[i].key in d {
      assert d[calls[i].key] in Stored(d);
    }
  }

  // ---------------------------------------------------------------------
  // One creator
  // ---------------------------------------------------------------------

  /** How many callers were told they created the message of this key. */
  function Creators(docs: Documents, calls: seq<Call>, key: Key): nat {
    if calls == [] then 0
    else
      var n := |calls| - 1;
      Creators(docs, calls[..n], key) +
      One(calls[n].Create? && calls[n].key == key && AnswerTo(docs, calls, n).created)
  }

  /** How many calls deleted the message then stored under this key. */
  function Removals(docs: Documents, calls: seq<Call>, key: Key): nat {
    if calls == [] then 0
    else
      var n := |calls| - 1;
      var d := After(docs, calls[..n]);
      Removals(docs, calls[..n], key) + One(calls[n].Delete? && key in d && d[key] == calls[n].id)
  }

  /** Creations and removals of a key alternate: their difference is whether it is stored. */
  lemma {:induction false} CreatorsBalance(docs: Documents, calls: seq<Call>, key: Key)
    requires FreshCandidates(docs, calls)
    ensures Creators(docs, calls, key) + One(key in docs) == Removals(docs, calls, key) + One(key in After(docs, calls))
  {
    if calls != [] {
      var n := |calls| - 1;
      assert FreshCandidates(docs, calls[..n]);
      CreatorsBalance(docs, calls[..n], key);
      if calls[n].Create? {
        CreatedIff(docs, calls, n);
      }
    }
  }

  /** While nobody deletes the message, later callers get the ID it has. */
  lemma {:induction false} KeepsId(docs: Documents, calls: seq<Call>, key: Key, i: nat, j: nat)
    requires i <= j <= |calls| && key in After(docs, calls[..i])
    requires forall k :: i <= k < j && calls[k].Delete? ==> calls[k].id != After(docs, calls[..i])[key]
    ensures key in After(docs, calls[..j]) && After(docs, calls[..j])[key] == After(docs, calls[..i])[key]
    decreases j
  {
    if i < j {
      KeepsId(docs, calls, key, i, j - 1);
      assert calls[..j][..j - 1] == calls[..j - 1];
    }
  }

  lemma {:induction false} NoCreate(docs: Documents, calls: seq<Call>, key: Key)
    requires key !in docs && forall i :: 0 <= i < |calls| && calls[i].Create? ==> calls[i].key != key
    ensures key !in After(docs, calls)
  {
    if calls != [] {
      NoCreate(docs, calls[..|calls| - 1], key);
    }
  }

  /** Any number of concurrent creations for a free key, among any deletions but that of the message first
      created: exactly one caller is told it created the message, and all callers get the same message. */
  lemma ExactlyOneCreator(docs: Documents, calls: seq<Call>, key: Key, first: nat)
    requires FreshCandidates(docs, calls) && key !in docs
    requires first < |calls| && calls[first].Create? && calls[first].key == key
    requires forall k :: 0 <= k < first && calls[k].Create? ==> calls[k].key != key
    requires Delete(calls[first].candidate) !in calls
    ensures Creators(docs, calls, key) == 1
    ensures forall i :: 0 <= i < |calls| && calls[i].Create? && calls[i].key == key ==>
              AnswerTo(docs, calls, i) == Returned(calls[first].candidate, i == first)
  {
    forall i | 0 <= i <= |calls|
      ensures if i <= first then key !in After(docs, calls[..i])
              else key in After(docs, calls[..i]) && After(docs, calls[..i])[key] == calls[first].candidate
    {
      StoredOnce(docs, calls, key, first, i);
    }
    CreatorsBalance(docs, calls, key);
    NoRemovals(docs, calls, key);
    assert calls[..|calls|] == calls;
    forall i | 0 <= i < |calls| && calls[i].Create? && calls[i].key == key
      ensures AnswerTo(docs, calls, i) == Returned(calls[first].candidate, i == first)
    {
      CreatedIff(docs, calls, i);
    }
  }

  /** Two callers at once: the first one is told it created the message, both get its ID. */
  lemma TwoCallers(key: Key, a: Id, b: Id)
    requires a != b
    ensures var calls := [Create(key, a), Create(key, b)];
            && FreshCandidates(map[], calls)
            && AnswerTo(map[], calls, 0) == Returned(a, true) && AnswerTo(map[], calls, 1) == Returned(a, false)
  {
    var calls := [Create(key, a), Create(key, b)];
    assert FreshCandidates(map[], calls);
    ExactlyOneCreator(map[], calls, key, 0);
  }

  lemma StoredOnce(docs: Documents, calls: seq<Call>, key: Key, first: nat, i: nat)
    requires key !in docs && first < |calls| && calls[first].Create? && calls[first].key == key
    requires forall k :: 0 <= k < first && calls[k].Create? ==> calls[k].key != key
    requires Delete(calls[first].candidate) !in calls && i <= |calls|
    ensures if i <= first then key !in After(docs, calls[..i])
            else key in After(docs, calls[..i]) && After(docs, calls[..i])[key] == calls[first].candidate
  {
    if i <= first {
      NoCreate(docs, calls[..i], key);
    } else {
      NoCreate(docs, calls[..first], key);
      assert calls[..first + 1][..first] == calls[..first];
      forall k | first + 1 <= k < i && calls[k].Delete? ensures calls[k].id != calls[first].candidate {
        assert calls[k] in calls;
      }
      KeepsId(docs, calls, key, first + 1, i);
    }
  }

  lemma {:induction false} NoRemovals(docs: Documents, calls: seq<Call>, key: Key)
    requires forall k :: 0 <= k < |calls| && calls[k].Delete? && key in After(docs, calls[..k]) ==>
               After(docs, calls[..k])[key] != calls[k].id
    ensures Removals(docs, calls, key) == 0
  {
    if calls != [] {
      var n := |calls| - 1;
      forall k | 0 <= k < n ensures calls[..n][..k] == calls[..k] && calls[..n][k] == calls[k] {
      }
      NoRemovals(docs, calls[..n], key);
    }
  }

  // ---------------------------------------------------------------------
  // One winner
  // ---------------------------------------------------------------------

  /** An ID that is gone does not come back. */
  lemma {:induction false} StaysGone(docs: Documents, calls: seq<Call>, id: Id, i: nat, j: nat)
    requires FreshCandidates(docs, calls) && i <= j <= |calls|
    requires Issued(docs, calls[..i], id) && id !in Stored(After(docs, calls[..i]))
    ensures id !in Stored(After(docs, calls[..j]))
    decreases j
  {
    hide Stored, Step;
    if i < j {
      StaysGone(docs, calls, id, i, j - 1);
      assert calls[..j][..j - 1] == calls[..j - 1];
      if calls[j - 1].Create? && id !in Stored(docs) {
        var k :| 0 <= k < i && calls[..i][k].Create? && calls[..i][k].candidate == id;
        assert calls[k].candidate != calls[j - 1].candidate;
      }
      StepAdds(After(docs, calls[..j - 1]), calls[j - 1], id);
    }
  }

  /** Of any number of deletions of the same ID at most one is reported as done. */
  lemma AtMostOneWinner(docs: Documents, calls: seq<Call>, id: Id, i: nat, j: nat)
    requires FreshCandidates(docs, calls) && i < j < |calls| && calls[i] == calls[j] == Delete(id)
    ensures !(AnswerTo(docs, calls, i).won && AnswerTo(docs, calls, j).won)
  {
    if AnswerTo(docs, calls, i).won {
      assert FreshCandidates(docs, calls[..i]);
      AfterFacts(docs, calls[..i]);
      assert Issued(docs, calls[..i], id);
      assert calls[..i + 1][..i] == calls[..i];
      assert Issued(docs, calls[..i + 1], id) by {
        if id !in Stored(docs) {
          var k :| 0 <= k < i && calls[..i][k].Create? && calls[..i][k].candidate == id;
          assert calls[..i + 1][k] == calls[..i][k];
        }
      }
      StaysGone(docs, calls, id, i + 1, j);
    }
  }
}
