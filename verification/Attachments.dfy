/**
Reference-counted attachments (attachment.go). A ledger holds the metadata
store's reference counts and the set of attachments whose file still exists;
an attachment's file is identified by the attachment's own ID.
*/
module Attachments {
  import opened Messages
  import opened Tally

  type AttachmentId = string

  datatype Ledger = Ledger(counts: map<AttachmentId, nat>, files: set<AttachmentId>) {
    /** The reference count, zero for an attachment without metadata. */
    function Count(a: AttachmentId): nat {
      if a in counts then counts[a] else 0
    }
  }

  /** How a release may go wrong: the metadata store or the file store reports an error. */
  datatype Fault = NoFault | MetadataFault | FileFault

  function Increment(l: Ledger, a: AttachmentId): Ledger
    requires a in l.counts
  {
    l.(counts := l.counts[a := l.counts[a] + 1])
  }

  /** Atomic decrement-and-delete-if-zero followed by the deletion of the file. */
  function Decrement(l: Ledger, a: AttachmentId, fault: Fault): Ledger {
    if fault.MetadataFault? || a !in l.counts then l
    else if l.counts[a] <= 1 then
      Ledger(l.counts - {a}, if fault.FileFault? then l.files else l.files - {a})
    else
      l.(counts := l.counts[a := l.counts[a] - 1])
  }

  /** True when the release reports no error to its caller. */
  predicate Releases(l: Ledger, a: AttachmentId, fault: Fault) {
    a in l.counts && !fault.MetadataFault? && !(fault.FileFault? && l.counts[a] <= 1)
  }

  /** One added reference per listed attachment, in order. */
  function AddAll(l: Ledger, xs: seq<AttachmentId>): (r: Ledger)
    requires forall a :: a in xs ==> a in l.counts
    ensures r.counts.Keys == l.counts.Keys && r.files == l.files
  {
    if xs == [] then l
    else
      var n := |xs| - 1;
      assert forall a :: a in xs[..n] ==> a in xs;
      Increment(AddAll(l, xs[..n]), xs[n])
  }

  /** One release per listed attachment, in order, each with its own fault. */
  function ReleaseAll(l: Ledger, xs: seq<AttachmentId>, faults: seq<Fault>): Ledger
    requires |xs| <= |faults|
  {
    if xs == [] then l
    else
      var n := |xs| - 1;
      Decrement(ReleaseAll(l, xs[..n], faults), xs[n], faults[n])
  }

  /** Some release of the attachment among the first n reports an error. */
  predicate FailsToRelease(l: Ledger, xs: seq<AttachmentId>, faults: seq<Fault>, n: nat, a: AttachmentId)
    requires n <= |xs| <= |faults|
  {
    exists i :: 0 <= i < n && xs[i] == a && !Releases(ReleaseAll(l, xs[..i], faults), a, faults[i])
  }

  lemma ReleaseTake(l: Ledger, xs: seq<AttachmentId>, faults: seq<Fault>, n: nat)
    requires n <= |xs| <= |faults|
    ensures ReleaseAll(l, xs[..n], faults) ==
            if n == 0 then l else Decrement(ReleaseAll(l, xs[..n - 1], faults), xs[n - 1], faults[n - 1])
  {
    if n > 0 {
      assert xs[..n][..n - 1] == xs[..n - 1];
    }
  }

  function NoFaults(n: nat): (fs: seq<Fault>)
    ensures |fs| == n
  {
    seq(n, _ => NoFault)
  }

  /** Release without any fault. */
  function Release(l: Ledger, xs: seq<AttachmentId>): Ledger {
    ReleaseAll(l, xs, NoFaults(|xs|))
  }

  /** Index of the first attachment whose reference cannot be added, or the length. */
  function FirstFailure(l: Ledger, xs: seq<AttachmentId>, faults: seq<bool>): (k: nat)
    requires |xs| == |faults|
    ensures k <= |xs|
    ensures forall i :: 0 <= i < k ==> xs[i] in l.counts && !faults[i]
    ensures k < |xs| ==> xs[k] !in l.counts || faults[k]
  {
    if xs == [] then 0
    else
      var k := FirstFailure(l, xs[..|xs| - 1], faults[..|xs| - 1]);
      if k == |xs| - 1 && xs[k] in l.counts && !faults[k] then |xs| else k
  }

  // ---------------------------------------------------------------------
  // What the counts become
  // ---------------------------------------------------------------------

  lemma CountLast<T>(xs: seq<T>, a: T)
    requires xs != []
    ensures multiset(xs)[a] == multiset(xs[..|xs| - 1])[a] + (if xs[|xs| - 1] == a then 1 else 0)
  {
    assert xs == xs[..|xs| - 1] + [xs[|xs| - 1]];
  }

  lemma {:induction false} AddAllCount(l: Ledger, xs: seq<AttachmentId>, a: AttachmentId)
    requires forall x :: x in xs ==> x in l.counts
    ensures AddAll(l, xs).Count(a) == l.Count(a) + multiset(xs)[a]
  {
    if xs != [] {
      var n := |xs| - 1;
      assert forall x :: x in xs[..n] ==> x in xs;
      AddAllCount(l, xs[..n], a);
      CountLast(xs, a);
    }
  }

  /** Faultless releases subtract, never go below zero, and drop an attachment that reaches zero. */
  lemma {:induction false} ReleaseCount(l: Ledger, xs: seq<AttachmentId>, faults: seq<Fault>, a: AttachmentId)
    requires |xs| <= |faults| && forall i :: 0 <= i < |xs| ==> faults[i] == NoFault
    ensures var r, n := ReleaseAll(l, xs, faults), multiset(xs)[a];
            && r.Count(a) == (if l.Count(a) > n then l.Count(a) - n else 0)
            && (a in r.counts <==> a in l.counts && (n == 0 || l.Count(a) > n))
            && (a in r.files <==> a in l.files && (a in l.counts ==> a in r.counts))
  {
    if xs != [] {
      ReleaseCount(l, xs[..|xs| - 1], faults, a);
      CountLast(xs, a);
    }
  }

  /** Two ledgers that agree on every attachment are equal. */
  lemma SameLedger(l: Ledger, r: Ledger)
    requires forall a :: (a in l.counts <==> a in r.counts) && l.Count(a) == r.Count(a)
    requires forall a :: a in l.files <==> a in r.files
    ensures l == r
  {
    assert l.counts.Keys == r.counts.Keys;
    forall a | a in l.counts ensures l.counts[a] == r.counts[a] {
      assert l.Count(a) == r.Count(a);
    }
    assert l.counts == r.counts;
  }

  /** Releasing what was added restores the ledger exactly when nothing was at zero before. */
  lemma RollbackRestoresIff(l: Ledger, xs: seq<AttachmentId>)
    requires forall a :: a in xs ==> a in l.counts
    ensures Release(AddAll(l, xs), xs) == l <==> forall a :: a in xs ==> l.counts[a] > 0
  {
    var added := AddAll(l, xs);
    var r := Release(added, xs);
    forall a ensures added.Count(a) == l.Count(a) + multiset(xs)[a] {
      AddAllCount(l, xs, a);
    }
    forall a
      ensures a in r.counts <==> a in l.counts && (a !in xs || l.Count(a) > 0)
      ensures r.Count(a) == l.Count(a)
      ensures a in r.files <==> a in l.files && (a in l.counts ==> a in r.counts)
    {
      ReleaseCount(added, xs, NoFaults(|xs|), a);
      assert a in xs <==> multiset(xs)[a] > 0;
    }
    if forall a :: a in xs ==> l.counts[a] > 0 {
      SameLedger(r, l);
    } else {
      var a :| a in xs && l.counts[a] == 0;
      assert a !in r.counts;
    }
  }

  /** A send whose `k`-th reference cannot be added rolls back its first `k` references and its
      caller then releases the whole message once more. */
  function FailedAdd(l: Ledger, xs: seq<AttachmentId>, k: nat): Ledger
    requires k <= |xs| && forall a :: a in xs[..k] ==> a in l.counts
  {
    Release(Release(AddAll(l, xs[..k]), xs[..k]), xs)
  }

  /** The failed send leaves the ledger alone exactly when it knows none of the attachments. */
  lemma FailedAddNeutralIff(l: Ledger, xs: seq<AttachmentId>, k: nat)
    requires k <= |xs| && forall a :: a in xs[..k] ==> a in l.counts
    ensures FailedAdd(l, xs, k) == l <==> forall a :: a in xs ==> a !in l.counts
  {
    var added := AddAll(l, xs[..k]);
    var undone := Release(added, xs[..k]);
    var r := FailedAdd(l, xs, k);
    forall a
      ensures a in xs && a in l.counts ==> a !in r.counts || r.Count(a) < l.Count(a)
      ensures a !in xs ==> (a in r.counts <==> a in l.counts) && r.Count(a) == l.Count(a)
      ensures a !in l.counts ==> a !in r.counts
      ensures a !in xs || a !in l.counts ==> (a in r.files <==> a in l.files)
    {
      AddAllCount(l, xs[..k], a);
      ReleaseCount(added, xs[..k], NoFaults(k), a);
      ReleaseCount(undone, xs, NoFaults(|xs|), a);
      assert a in xs <==> multiset(xs)[a] > 0;
      assert a !in xs ==> a !in xs[..k];
      assert a in xs[..k] <==> multiset(xs[..k])[a] > 0;
    }
    if forall a :: a in xs ==> a !in l.counts {
      SameLedger(r, l);
    } else {
      var a :| a in xs && a in l.counts;
      assert r != l;
    }
  }

  /** A message sent with one attachment, referred to by one other message, loses that other
      message's file when adding the second reference fails. */
  lemma FailedAddCanDropAFileInUse()
    ensures var l := Ledger(map["a" := 1], {"a"});
            FailedAdd(l, ["a", "b"], 1) == Ledger(map[], {})
  {
    var l := Ledger(map["a" := 1], {"a"});
    var xs := ["a", "b"];
    assert xs[..1] == ["a"];
    assert ["a"][..0] == [] && ["a", "b"][..1] == ["a"];
    assert AddAll(l, ["a"]) == Increment(AddAll(l, []), "a");
    var added := AddAll(l, ["a"]);
    assert added.counts == map["a" := 2];
    var undone := Release(added, ["a"]);
    assert undone == Decrement(ReleaseAll(added, [], NoFaults(1)), "a", NoFault);
    assert undone.counts == map["a" := 1];
    var first := ReleaseAll(undone, ["a"], NoFaults(2));
    assert first == Decrement(ReleaseAll(undone, [], NoFaults(2)), "a", NoFault);
    assert first.counts == map[];
    assert Release(undone, xs) == Decrement(first, "b", NoFault);
  }

  // ---------------------------------------------------------------------
  // Counts against stored messages
  // ---------------------------------------------------------------------

  function Uses(a: AttachmentId): Message -> nat {
    (m: Message) => multiset(m.attachments)[a]
  }

  /** Every reference count is the number of references in stored messages. */
  ghost predicate Balanced(ms: map<Id, Message>, l: Ledger) {
    forall a :: l.Count(a) == Total(ms, Uses(a))
  }

  // ---------------------------------------------------------------------
  // The operations
  // ---------------------------------------------------------------------

  class AttachmentManager {
    var counts: map<AttachmentId, nat>
    var files: set<AttachmentId>

    constructor (counts: map<AttachmentId, nat>, files: set<AttachmentId>)
      ensures Books() == Ledger(counts, files)
    {
      this.counts, this.files := counts, files;
    }

    function Books(): Ledger
      reads this
    {
      Ledger(counts, files)
    }

    /** Increments the count of a known attachment; `fault` stands for a store error. */
    method AddRef(a: AttachmentId, fault: bool) returns (ok: bool)
      modifies this
      ensures ok <==> a in old(counts) && !fault
      ensures Books() == if ok then Increment(old(Books()), a) else old(Books())
      ensures files == old(files) && counts == if ok then old(counts)[a := old(counts)[a] + 1] else old(counts)
    {
      ok := a in counts && !fault;
      if ok {
        counts := counts[a := counts[a] + 1];
      }
    }

    method RemoveRef(a: AttachmentId, fault: Fault) returns (ok: bool)
      modifies this
      ensures Books() == Decrement(old(Books()), a, fault)
      ensures ok <==> Releases(old(Books()), a, fault)
      ensures if a !in old(counts) || fault.MetadataFault? then !ok && counts == old(counts) && files == old(files)
              else if old(counts)[a] > 1 then ok && counts == old(counts)[a := old(counts)[a] - 1] && files == old(files)
              else
                && counts == old(counts) - {a} && (ok <==> !fault.FileFault?)
                && files == if fault.FileFault? then old(files) else old(files) - {a}
    {
      if fault.MetadataFault? || a !in counts {
        return false;
      }
      var c := if counts[a] > 0 then counts[a] - 1 else 0;
      if c <= 0 {
        counts := counts - {a};
        if fault.FileFault? {
          return false;
        }
        files := files - {a};
      } else {
        counts := counts[a := c];
      }
      ok := true;
    }

    /** Releases every attachment of a message, carrying on after a failure. */
    method ReleaseAttachmentRefs(xs: seq<AttachmentId>, faults: seq<Fault>) returns (failed: set<AttachmentId>)
      requires |xs| <= |faults|
      modifies this
      ensures Books() == ReleaseAll(old(Books()), xs, faults)
      ensures forall a :: a in failed <==> FailsToRelease(old(Books()), xs, faults, |xs|, a)
    {
      hide ReleaseAll, Decrement, Releases;
      ghost var l := Books();
      failed := {};
      ReleaseTake(l, xs, faults, 0);
      for i := 0 to |xs|
        invariant Books() == ReleaseAll(l, xs[..i], faults)
        invariant forall a :: a in failed <==> FailsToRelease(l, xs, faults, i, a)
      {
        ReleaseTake(l, xs, faults, i + 1);
        var ok := RemoveRef(xs[i], faults[i]);
        if !ok {
          failed := failed + {xs[i]};
        }
      }
      assert xs[..|xs|] == xs;
    }

    /** Adds one reference per attachment; the first failure rolls back those already added, and is reported
        together with the rollbacks that failed. */
    method AddAttachmentRefs(xs: seq<AttachmentId>, addFaults: seq<bool>, undoFaults: seq<Fault>)
      returns (failed: Option<AttachmentId>, rollbackFailed: set<AttachmentId>)
      requires |addFaults| == |undoFaults| == |xs|
      modifies this
      ensures var l := old(Books()); var k := FirstFailure(l, xs, addFaults);
              && failed == (if k == |xs| then None else Some(xs[k]))
              && Books() == (if k == |xs| then AddAll(l, xs) else ReleaseAll(AddAll(l, xs[..k]), xs[..k], undoFaults))
              && (forall a :: a in rollbackFailed <==> k < |xs| && FailsToRelease(AddAll(l, xs[..k]), xs[..k], undoFaults, k, a))
    {
      hide ReleaseAll, FailsToRelease;
      ghost var l := Books();
      var added: seq<AttachmentId> := [];
      for i := 0 to |xs|
        invariant added == xs[..i]
        invariant i <= FirstFailure(l, xs, addFaults)
        invariant forall a :: a in xs[..i] ==> a in l.counts
        invariant Books() == AddAll(l, xs[..i])
      {
        var did := AddRef(xs[i], addFaults[i]);
        if !did {
          assert FirstFailure(l, xs, addFaults) == i;
          rollbackFailed := ReleaseAttachmentRefs(added, undoFaults);
          return Some(xs[i]), rollbackFailed;
        }
        assert xs[..i + 1][..i] == xs[..i];
        added := added + [xs[i]];
      }
      assert xs[..|xs|] == xs;
      return None, {};
    }
  }
}
