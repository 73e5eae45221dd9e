/**
Sends, permanent deletes and any number of cleanup instances racing on the same
messages (cleanup.go, mutate.go). Scanning a page, deleting one ID, and
releasing one reference are separate steps of separate workers; only the worker
whose delete removed a message owes the release of that message's references.

`PermanentlyDelete` is a worker that scans the single message it was asked for.
*/
module CleanupRaces {
  import opened Tally
  import opened Attachments
  import opened Messages

  type WorkerId = nat

  datatype Worker =
    | Scanning(found: seq<Id>, atts: map<Id, seq<AttachmentId>>)
    | Deleting(todo: seq<Id>, won: seq<Id>, atts: map<Id, seq<AttachmentId>>)
    | Releasing(due: seq<AttachmentId>)

  datatype System = System(
    live: map<Id, seq<AttachmentId>>,     // stored messages and their attachments
    used: set<Id>,                        // message IDs ever generated
    uploads: set<AttachmentId>,           // attachment IDs ever generated
    referenced: set<AttachmentId>,        // attachments some message has referred to
    ledger: Ledger,
    workers: map<WorkerId, Worker>,
    lost: multiset<AttachmentId>,         // references whose release failed or was never tried
    orphans: set<AttachmentId>)           // files whose deletion failed

  datatype Step =
    | Upload(a: AttachmentId)
    | Send(id: Id, xs: seq<AttachmentId>)
    | Start(w: WorkerId)
    | ScanPage(w: WorkerId, page: seq<Id>)
    | EndScan(w: WorkerId)
    | DeleteNext(w: WorkerId)
    | EndDelete(w: WorkerId)
    | ReleaseNext(w: WorkerId, fault: Fault)
    | Finish(w: WorkerId)
    | Stop(w: WorkerId)                   // crash, cancelled context or failed store call

  function Init(): System {
    System(map[], {}, {}, {}, Ledger(map[], {}), map[], multiset{}, {})
  }

  // ---------------------------------------------------------------------
  // The steps
  // ---------------------------------------------------------------------

  function AttachmentsOf(atts: map<Id, seq<AttachmentId>>, id: Id): seq<AttachmentId> {
    if id in atts then atts[id] else []
  }

  /** The references of all deleted messages, in the order in which they are released. */
  function Due(won: seq<Id>, atts: map<Id, seq<AttachmentId>>): seq<AttachmentId> {
    if won == [] then [] else Due(won[..|won| - 1], atts) + AttachmentsOf(atts, won[|won| - 1])
  }

  /** The attachment lists a scan records for a page; a message without attachments is not recorded. */
  function Record(atts: map<Id, seq<AttachmentId>>, page: seq<Id>, live: map<Id, seq<AttachmentId>>): map<Id, seq<AttachmentId>>
    requires forall id :: id in page ==> id in live
  {
    atts + map id | id in page && live[id] != [] :: live[id]
  }

  predicate Enabled(s: System, step: Step) {
    match step
    case Upload(a) => a !in s.uploads
    case Send(id, xs) => id !in s.used && forall a :: a in xs ==> a in s.ledger.counts
    case Start(w) => w !in s.workers
    case ScanPage(w, page) => w in s.workers && s.workers[w].Scanning? && forall id :: id in page ==> id in s.live
    case EndScan(w) => w in s.workers && s.workers[w].Scanning?
    case DeleteNext(w) => w in s.workers && s.workers[w].Deleting? && s.workers[w].todo != []
    case EndDelete(w) => w in s.workers && s.workers[w].Deleting? && s.workers[w].todo == []
    case ReleaseNext(w, _) => w in s.workers && s.workers[w].Releasing? && s.workers[w].due != []
    case Finish(w) => w in s.workers && s.workers[w] == Releasing([])
    case Stop(w) => w in s.workers
  }

  function Do(s: System, step: Step): System
    requires Enabled(s, step)
  {
    match step
    case Upload(a) =>
      s.(uploads := s.uploads + {a},
         ledger := Ledger(s.ledger.counts[a := 0], s.ledger.files + {a}))
    case Send(id, xs) =>
      s.(live := s.live[id := xs], used := s.used + {id},
         referenced := s.referenced + (set a | a in xs),
         ledger := AddAll(s.ledger, xs))
    case Start(w) =>
      s.(workers := s.workers[w := Scanning([], map[])])
    case ScanPage(w, page) =>
      var Scanning(found, atts) := s.workers[w];
      s.(workers := s.workers[w := Scanning(found + page, Record(atts, page, s.live))])
    case EndScan(w) =>
      var Scanning(found, atts) := s.workers[w];
      s.(workers := s.workers[w := Deleting(found, [], atts)])
    case DeleteNext(w) =>
      var Deleting(todo, won, atts) := s.workers[w];
      var id := todo[0];
      if id in s.live then
        s.(live := s.live - {id}, workers := s.workers[w := Deleting(todo[1..], won + [id], atts)])
      else
        s.(workers := s.workers[w := Deleting(todo[1..], won, atts)])
    case EndDelete(w) =>
      var Deleting(_, won, atts) := s.workers[w];
      s.(workers := s.workers[w := Releasing(Due(won, atts))])
    case ReleaseNext(w, fault) =>
      var due := s.workers[w].due;
      var a := due[0];
      s.(ledger := Decrement(s.ledger, a, fault),
         workers := s.workers[w := Releasing(due[1..])],
         lost := if fault.MetadataFault? then s.lost + multiset{a} else s.lost,
         orphans := if fault.FileFault? then s.orphans + {a} else s.orphans)
    case Finish(w) =>
      s.(workers := s.workers - {w})
    case Stop(w) =>
      s.(workers := s.workers - {w}, lost := s.lost + multiset(Owed(s.workers[w])))
  }

  /** `s'` is reached from `s` by performing the given steps, each of them enabled in its turn. */
  ghost predicate Run(s: System, steps: seq<Step>, s': System)
    decreases |steps|
  {
    if steps == [] then s' == s
    else Enabled(s, steps[0]) && Run(Do(s, steps[0]), steps[1..], s')
  }

  /** A step at which some release is given up. */
  predicate Fails(s: System, step: Step)
    requires Enabled(s, step)
  {
    match step
    case ReleaseNext(_, fault) => !fault.NoFault?
    case Stop(w) => Owed(s.workers[w]) != []
    case _ => false
  }

  ghost predicate FaultlessRun(s: System, steps: seq<Step>, s': System)
    decreases |steps|
  {
    if steps == [] then s' == s
    else Enabled(s, steps[0]) && !Fails(s, steps[0]) && FaultlessRun(Do(s, steps[0]), steps[1..], s')
  }

  /** A run without failing releases and without a worker that stops half-way is faultless. */
  lemma {:induction false} FaultlessWithoutFaults(s: System, steps: seq<Step>, s': System)
    requires Run(s, steps, s')
    requires forall i :: 0 <= i < |steps| ==> !steps[i].Stop? && (steps[i].ReleaseNext? ==> steps[i].fault == NoFault)
    ensures FaultlessRun(s, steps, s')
    decreases |steps|
  {
    if steps != [] {
      assert forall i :: 0 <= i < |steps[1..]| ==> steps[1..][i] == steps[i + 1];
      FaultlessWithoutFaults(Do(s, steps[0]), steps[1..], s');
    }
  }

  // ---------------------------------------------------------------------
  // Accounting
  // ---------------------------------------------------------------------

  /** The references a worker has taken over by deleting their messages. */
  function Owed(w: Worker): seq<AttachmentId> {
    match w
    case Scanning(_, _) => []
    case Deleting(_, won, atts) => Due(won, atts)
    case Releasing(due) => due
  }

  function Holds(a: AttachmentId): seq<AttachmentId> -> nat {
    (xs: seq<AttachmentId>) => multiset(xs)[a]
  }

  function Owes(a: AttachmentId): Worker -> nat {
    (w: Worker) => multiset(Owed(w))[a]
  }

  /** The references to `a` in stored messages. */
  ghost function LiveRefs(s: System, a: AttachmentId): nat {
    Total(s.live, Holds(a))
  }

  /** The references to `a` of messages already deleted but not yet released by the winner. */
  ghost function OwedRefs(s: System, a: AttachmentId): nat {
    Total(s.workers, Owes(a))
  }

  ghost predicate Balanced(s: System, a: AttachmentId) {
    s.ledger.Count(a) == LiveRefs(s, a) + OwedRefs(s, a) + s.lost[a]
  }

  /** What a worker has seen of a message is what the store still holds of it. */
  predicate Seen(s: System, id: Id, atts: map<Id, seq<AttachmentId>>) {
    id in s.used && (id in s.live ==> AttachmentsOf(atts, id) == s.live[id])
  }

  predicate WorkerOk(s: System, w: Worker) {
    match w
    case Scanning(found, atts) => (forall id :: id in found ==> Seen(s, id, atts)) && (forall id :: id in atts ==> Seen(s, id, atts))
    case Deleting(todo, won, atts) => forall id :: id in todo ==> Seen(s, id, atts)
    case Releasing(_) => true
  }

  ghost predicate Inv(s: System) {
    && (forall a :: Balanced(s, a))
    && s.live.Keys <= s.used
    && (forall w :: w in s.workers ==> WorkerOk(s, s.workers[w]))
    && s.ledger.counts.Keys <= s.ledger.files <= s.uploads
    && s.ledger.files <= s.ledger.counts.Keys + s.orphans
    && (forall a :: a in s.referenced && a in s.ledger.counts ==> s.ledger.counts[a] > 0)
    && s.referenced <= s.uploads
  }

  lemma InitInv()
    ensures Inv(Init())
  {
  }

  /** Replacing a worker by one that owes the same leaves what is owed in total. */
  lemma SameOwed(s: System, w: WorkerId, v: Worker, a: AttachmentId)
    requires w in s.workers && Owed(v) == Owed(s.workers[w])
    ensures Total(s.workers[w := v], Owes(a)) == OwedRefs(s, a)
  {
    TotalUpdate(s.workers, Owes(a), w, v);
  }

  lemma UploadInv(s: System, a: AttachmentId)
    requires Inv(s) && Enabled(s, Upload(a))
    ensures Inv(Do(s, Upload(a)))
  {
    var s' := Do(s, Upload(a));
    forall b ensures Balanced(s', b) {
      assert Balanced(s, b);
    }
    assert forall w :: w in s'.workers ==> WorkerOk(s, s.workers[w]);
  }

  lemma SendInv(s: System, id: Id, xs: seq<AttachmentId>)
    requires Inv(s) && Enabled(s, Send(id, xs))
    ensures Inv(Do(s, Send(id, xs)))
  {
    var s' := Do(s, Send(id, xs));
    forall a ensures Balanced(s', a) {
      assert Balanced(s, a);
      AddAllCount(s.ledger, xs, a);
      TotalInsert(s.live, Holds(a), id, xs);
    }
    forall w | w in s'.workers ensures WorkerOk(s', s'.workers[w]) {
      assert WorkerOk(s, s.workers[w]);
    }
    forall a | a in s'.referenced && a in s'.ledger.counts ensures s'.ledger.counts[a] > 0 {
      AddAllCount(s.ledger, xs, a);
      assert s'.ledger.Count(a) == s'.ledger.counts[a];
      assert a in xs <==> multiset(xs)[a] > 0;
    }
  }

  lemma WorkerOnlyInv(s: System, w: WorkerId, v: Worker)
    requires Inv(s) && w in s.workers && Owed(v) == Owed(s.workers[w]) && WorkerOk(s, v)
    ensures Inv(s.(workers := s.workers[w := v]))
  {
    var s' := s.(workers := s.workers[w := v]);
    forall a ensures Balanced(s', a) {
      assert Balanced(s, a);
      SameOwed(s, w, v, a);
    }
    forall x | x in s'.workers ensures WorkerOk(s', s'.workers[x]) {
      assert x != w ==> WorkerOk(s, s.workers[x]);
    }
  }

  lemma ScanInv(s: System, w: WorkerId, page: seq<Id>)
    requires Inv(s) && Enabled(s, ScanPage(w, page))
    ensures Inv(Do(s, ScanPage(w, page)))
  {
    var Scanning(found, atts) := s.workers[w];
    var v := Scanning(found + page, Record(atts, page, s.live));
    assert WorkerOk(s, s.workers[w]);
    forall id | id in v.found ensures Seen(s, id, v.atts) {
      assert id in found || id in atts ==> Seen(s, id, atts);
    }
    assert forall id :: id in atts ==> Seen(s, id, atts);
    WorkerOnlyInv(s, w, v);
  }

  lemma DueAppend(won: seq<Id>, id: Id, atts: map<Id, seq<AttachmentId>>)
    ensures Due(won + [id], atts) == Due(won, atts) + AttachmentsOf(atts, id)
  {
    assert (won + [id])[..|won|] == won;
  }

  /** The winner of a delete takes over exactly the references the message held. */
  lemma DeleteInv(s: System, w: WorkerId)
    requires Inv(s) && Enabled(s, DeleteNext(w))
    ensures Inv(Do(s, DeleteNext(w)))
  {
    var Deleting(todo, won, atts) := s.workers[w];
    var id := todo[0];
    assert WorkerOk(s, s.workers[w]);
    if id !in s.live {
      WorkerOnlyInv(s, w, Deleting(todo[1..], won, atts));
    } else {
      var v := Deleting(todo[1..], won + [id], atts);
      var s' := Do(s, DeleteNext(w));
      assert Seen(s, id, atts);
      DueAppend(won, id, atts);
      forall a ensures Balanced(s', a) {
        assert Balanced(s, a);
        TotalRemove(s.live, Holds(a), id);
        TotalUpdate(s.workers, Owes(a), w, v);
        assert multiset(Owed(v)) == multiset(Due(won, atts)) + multiset(s.live[id]);
      }
      forall x | x in s'.workers ensures WorkerOk(s', s'.workers[x]) {
        assert WorkerOk(s, s.workers[x]);
        if x == w {
          assert forall y :: y in todo[1..] ==> y in todo;
        }
      }
    }
  }

  /** A release that reaches the metadata store takes one reference off a counted attachment. */
  lemma DecrementCount(l: Ledger, a: AttachmentId, fault: Fault)
    requires l.Count(a) > 0 && !fault.MetadataFault?
    ensures forall b :: Decrement(l, a, fault).Count(b) + (if b == a then 1 else 0) == l.Count(b)
  {
  }

  lemma ReleaseOwed(s: System, w: WorkerId, b: AttachmentId)
    requires w in s.workers && s.workers[w].Releasing? && s.workers[w].due != []
    ensures var due := s.workers[w].due;
            Total(s.workers[w := Releasing(due[1..])], Owes(b)) + (if b == due[0] then 1 else 0) == OwedRefs(s, b)
  {
    var due := s.workers[w].due;
    TotalUpdate(s.workers, Owes(b), w, Releasing(due[1..]));
    assert due == [due[0]] + due[1..];
    assert multiset(due) == multiset{due[0]} + multiset(due[1..]);
  }

  lemma ReleaseBalanced(s: System, w: WorkerId, fault: Fault, b: AttachmentId)
    requires Inv(s) && Enabled(s, ReleaseNext(w, fault))
    ensures Balanced(Do(s, ReleaseNext(w, fault)), b)
  {
    hide Total, Owes, Holds, WorkerOk;
    var a := s.workers[w].due[0];
    ReleaseOwed(s, w, a);
    ReleaseOwed(s, w, b);
    assert Balanced(s, a) && Balanced(s, b);
    if !fault.MetadataFault? {
      DecrementCount(s.ledger, a, fault);
    }
  }

  lemma ReleaseInv(s: System, w: WorkerId, fault: Fault)
    requires Inv(s) && Enabled(s, ReleaseNext(w, fault))
    ensures Inv(Do(s, ReleaseNext(w, fault)))
  {
    hide Balanced, WorkerOk;
    forall b ensures Balanced(Do(s, ReleaseNext(w, fault)), b) {
      ReleaseBalanced(s, w, fault, b);
    }
    ReleaseWorkers(s, w, fault);
  }

  lemma ReleaseWorkers(s: System, w: WorkerId, fault: Fault)
    requires Inv(s) && Enabled(s, ReleaseNext(w, fault))
    ensures var s' := Do(s, ReleaseNext(w, fault));
            forall x :: x in s'.workers ==> WorkerOk(s', s'.workers[x])
  {
    var s' := Do(s, ReleaseNext(w, fault));
    forall x | x in s'.workers ensures WorkerOk(s', s'.workers[x]) {
      assert x != w ==> WorkerOk(s, s.workers[x]);
    }
  }

  lemma StopInv(s: System, w: WorkerId)
    requires Inv(s) && Enabled(s, Stop(w))
    ensures Inv(Do(s, Stop(w)))
  {
    var s' := Do(s, Stop(w));
    forall a ensures Balanced(s', a) {
      assert Balanced(s, a);
      TotalRemove(s.workers, Owes(a), w);
    }
    forall x | x in s'.workers ensures WorkerOk(s', s'.workers[x]) {
      assert WorkerOk(s, s.workers[x]);
    }
  }

  /** Every step keeps the invariant. */
  lemma StepInv(s: System, step: Step)
    requires Inv(s) && Enabled(s, step)
    ensures Inv(Do(s, step))
  {
    match step
    case Upload(a) => UploadInv(s, a);
    case Send(id, xs) => SendInv(s, id, xs);
    case Start(w) =>
      var v := Scanning([], map[]);
      var s' := Do(s, step);
      forall a ensures Balanced(s', a) {
        assert Balanced(s, a);
        TotalInsert(s.workers, Owes(a), w, v);
      }
      forall x | x in s'.workers ensures WorkerOk(s', s'.workers[x]) {
        assert x != w ==> WorkerOk(s, s.workers[x]);
      }
    case ScanPage(w, page) => ScanInv(s, w, page);
    case EndScan(w) =>
      assert WorkerOk(s, s.workers[w]);
      WorkerOnlyInv(s, w, Deleting(s.workers[w].found, [], s.workers[w].atts));
    case DeleteNext(w) => DeleteInv(s, w);
    case EndDelete(w) =>
      WorkerOnlyInv(s, w, Releasing(Due(s.workers[w].won, s.workers[w].atts)));
    case ReleaseNext(w, fault) => ReleaseInv(s, w, fault);
    case Finish(w) =>
      StopInv(s, w);
      assert s.lost + multiset(Owed(s.workers[w])) == s.lost;
    case Stop(w) => StopInv(s, w);
  }

  lemma {:induction false} RunInv(s: System, steps: seq<Step>, s': System)
    requires Inv(s) && Run(s, steps, s')
    ensures Inv(s')
    decreases |steps|
  {
    if steps != [] {
      StepInv(s, steps[0]);
      RunInv(Do(s, steps[0]), steps[1..], s');
    }
  }

  // ---------------------------------------------------------------------
  // The theorems
  // ---------------------------------------------------------------------

  /** In every interleaving, with any failures, each count covers the live references, the
      references still owed and the lost ones exactly; so whatever a stored message refers to still
      has its metadata and its file. */
  lemma CountsCoverReferences(steps: seq<Step>, s: System)
    requires Run(Init(), steps, s)
    ensures forall a :: s.ledger.Count(a) == LiveRefs(s, a) + OwedRefs(s, a) + s.lost[a]
    ensures forall id, a :: id in s.live && a in s.live[id] ==> a in s.ledger.counts && a in s.ledger.files
  {
    InitInv();
    RunInv(Init(), steps, s);
    forall a ensures s.ledger.Count(a) == LiveRefs(s, a) + OwedRefs(s, a) + s.lost[a] {
      assert Balanced(s, a);
    }
    forall id, a | id in s.live && a in s.live[id] ensures a in s.ledger.counts && a in s.ledger.files {
      assert Balanced(s, a);
      TotalRemove(s.live, Holds(a), id);
      assert multiset(s.live[id])[a] > 0;
    }
  }

  lemma {:induction false} FaultlessRunIsRun(s: System, steps: seq<Step>, s': System)
    requires FaultlessRun(s, steps, s')
    ensures Run(s, steps, s')
    ensures s'.lost == s.lost && s'.orphans == s.orphans
    decreases |steps|
  {
    if steps != [] {
      FaultlessRunIsRun(Do(s, steps[0]), steps[1..], s');
      match steps[0]
      case Stop(w) => assert multiset(Owed(s.workers[w])) == multiset{};
      case _ =>
    }
  }

  /** When nothing fails nothing leaks: the counts are exactly the live and owed references, and an
      attachment that was in use and no longer is has neither metadata nor a file. */
  lemma FaultlessCountsAreExact(steps: seq<Step>, s: System)
    requires FaultlessRun(Init(), steps, s)
    ensures forall a :: s.ledger.Count(a) == LiveRefs(s, a) + OwedRefs(s, a)
    ensures forall a :: a in s.referenced && LiveRefs(s, a) + OwedRefs(s, a) == 0 ==>
                          a !in s.ledger.counts && a !in s.ledger.files
  {
    FaultlessRunIsRun(Init(), steps, s);
    CountsCoverReferences(steps, s);
    InitInv();
    RunInv(Init(), steps, s);
  }

  // ---------------------------------------------------------------------
  // Winners
  // ---------------------------------------------------------------------

  /** The worker that wins a delete, if the step is one. */
  predicate Wins(s: System, step: Step, id: Id)
    requires Enabled(s, step)
  {
    step.DeleteNext? && s.workers[step.w].todo[0] == id && id in s.live
  }

  /** How many steps of the run win the delete of `id`. */
  ghost function WinCount(s: System, steps: seq<Step>, s': System, id: Id): nat
    requires Run(s, steps, s')
    decreases |steps|
  {
    if steps == [] then 0
    else (if Wins(s, steps[0], id) then 1 else 0) + WinCount(Do(s, steps[0]), steps[1..], s', id)
  }

  /** A message ID that has been used is deleted at most once more, and only if it is live. */
  lemma {:induction false} WinsAtMostOnce(s: System, steps: seq<Step>, s': System, id: Id)
    requires Run(s, steps, s') && s.live.Keys <= s.used && id in s.used
    ensures WinCount(s, steps, s', id) + (if id in s'.live then 1 else 0) == (if id in s.live then 1 else 0)
    decreases |steps|
  {
    if steps != [] {
      WinsAtMostOnce(Do(s, steps[0]), steps[1..], s', id);
    }
  }

  /** In every interleaving each message is reported deleted to at most one worker: exactly one if it
      was sent and is gone, none otherwise. */
  lemma {:induction false} ExactlyOneWinner(s: System, steps: seq<Step>, s': System, id: Id)
    requires Run(s, steps, s') && s.live.Keys <= s.used && id !in s.used
    ensures WinCount(s, steps, s', id) == (if id in s'.used && id !in s'.live then 1 else 0)
    decreases |steps|
  {
    if steps != [] {
      var t := Do(s, steps[0]);
      if id in t.used {
        WinsAtMostOnce(t, steps[1..], s', id);
        UsedGrows(t, steps[1..], s');
      } else {
        ExactlyOneWinner(t, steps[1..], s', id);
      }
    }
  }

  lemma {:induction false} UsedGrows(s: System, steps: seq<Step>, s': System)
    requires Run(s, steps, s')
    ensures s.used <= s'.used
    decreases |steps|
  {
    if steps != [] {
      UsedGrows(Do(s, steps[0]), steps[1..], s');
    }
  }
}
