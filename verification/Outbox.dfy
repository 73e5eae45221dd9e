/**
Mutations and their events (outbox_helpers.go, store/postgres/outbox.go): with an
outbox both are written in one transaction, without one the event is published
after the mutation.
*/
module Outbox {
  import opened Messages
  import L = Locks

  // ---------------------------------------------------------------------
  // One call
  // ---------------------------------------------------------------------

  /** How a commit may end: done, refused, or done although its acknowledgement is lost. */
  datatype CommitEnd = Acknowledged | Refused | Unacknowledged

  /** Where a call fails, if it does: the transaction cannot begin, publishing fails, the commit fails. */
  datatype Faults = Faults(begin: bool, publish: bool, commit: CommitEnd)

  datatype Reply = Success | OpFailed | BeginFailed | PublishFailed | CommitFailed

  /** Everything before the commit goes well. */
  predicate ReachesCommit(ms: map<Id, Message>, id: Id, op: L.Op, faults: Faults) {
    !faults.begin && L.Apply(op, L.CellOf(ms, id)).result.Done? && !faults.publish
  }

  class Service {
    const outboxEnabled: bool
    const eventErrorsFatal: bool
    var messages: map<Id, Message>
    var outbox: seq<string>          // events waiting in the database
    var sent: seq<string>            // events handed to the transport directly

    constructor (outboxEnabled: bool, eventErrorsFatal: bool, ms: map<Id, Message>)
      ensures messages == ms && outbox == [] && sent == []
      ensures this.outboxEnabled == outboxEnabled && this.eventErrorsFatal == eventErrorsFatal
    {
      this.outboxEnabled, this.eventErrorsFatal := outboxEnabled, eventErrorsFatal;
      messages, outbox, sent := ms, [], [];
    }

    /** The mutation and its event, both stored or neither. */
    ghost predicate BothOrNeither(ms: map<Id, Message>, events: seq<string>, id: Id, op: L.Op, event: string, both: bool)
      reads this
    {
      if both then messages == L.ApplyTo(ms, id, op) && outbox == events + [event] else messages == ms && outbox == events
    }

    /** With an outbox the mutation and its event are stored together or not at all. A success means stored, an
        error means not stored, unless it comes from the commit, which may have taken effect. Without an
        outbox a mutation whose event could not be published stays, and it is reported only where event
        errors are fatal. */
    method OpAndPublish(id: Id, op: L.Op, event: string, faults: Faults) returns (reply: Reply)
      modifies this
      ensures outboxEnabled ==>
                && sent == old(sent)
                && BothOrNeither(old(messages), old(outbox), id, op, event, ReachesCommit(old(messages), id, op, faults) && !faults.commit.Refused?)
                && (reply.Success? <==> ReachesCommit(old(messages), id, op, faults) && faults.commit.Acknowledged?)
                && (reply.CommitFailed? <==> ReachesCommit(old(messages), id, op, faults) && !faults.commit.Acknowledged?)
      ensures !outboxEnabled ==>
                && outbox == old(outbox)
                && messages == L.ApplyTo(old(messages), id, op)
                && (reply.OpFailed? <==> !L.Apply(op, L.CellOf(old(messages), id)).result.Done?)
                && sent == (if reply.OpFailed? || faults.publish then old(sent) else old(sent) + [event])
                && (reply.PublishFailed? <==> !reply.OpFailed? && faults.publish && eventErrorsFatal)
    {
      if outboxEnabled {
        reply := WithOutboxCtx(id, op, event, faults);
        return;
      }
      var out := L.Apply(op, L.CellOf(messages, id));
      if !out.result.Done? {
        FailedOpKeeps(messages, id, op);
        return OpFailed;
      }
      messages := L.Put(messages, id, out.cell);
      if faults.publish {
        if eventErrorsFatal {
          return PublishFailed;
        }
        return Success;
      }
      sent := sent + [event];
      return Success;
    }

    /** The work is done on a copy that replaces the stored state only at the commit. */
    method WithOutboxCtx(id: Id, op: L.Op, event: string, faults: Faults) returns (reply: Reply)
      modifies this`messages, this`outbox
      ensures BothOrNeither(old(messages), old(outbox), id, op, event, ReachesCommit(old(messages), id, op, faults) && !faults.commit.Refused?)
      ensures reply.Success? <==> ReachesCommit(old(messages), id, op, faults) && faults.commit.Acknowledged?
      ensures reply.CommitFailed? <==> ReachesCommit(old(messages), id, op, faults) && !faults.commit.Acknowledged?
    {
      if faults.begin {
        return BeginFailed;
      }
      var txMessages, txOutbox := messages, outbox;
      var out := L.Apply(op, L.CellOf(txMessages, id));
      if !out.result.Done? {
        return OpFailed;
      }
      txMessages := L.Put(txMessages, id, out.cell);
      if faults.publish {
        return PublishFailed;
      }
      txOutbox := txOutbox + [event];
      if faults.commit.Refused? {
        return CommitFailed;
      }
      messages, outbox := txMessages, txOutbox;
      return if faults.commit.Acknowledged? then Success else CommitFailed;
    }
  }

  lemma FailedOpKeeps(ms: map<Id, Message>, id: Id, op: L.Op)
    requires !L.Apply(op, L.CellOf(ms, id)).result.Done?
    ensures L.ApplyTo(ms, id, op) == ms
  {
  }

  // ---------------------------------------------------------------------
  // Any number of concurrent transactions
  // ---------------------------------------------------------------------

  datatype Phase =
    | Idle
    | Begun
    | Applied(cell: L.Cell)      // the row is changed inside the transaction, and locked
    | Logged(cell: L.Cell)       // the event is in the transaction too
    | Committed(told: bool)      // whether the caller has learned of it
    | Aborted

  /** The committed state, the row locks, and the callers. The outbox names the callers whose events it
      holds. */
  datatype System = System(ms: map<Id, Message>, outbox: seq<nat>, locks: map<Id, nat>, calls: seq<L.Call>, phases: seq<Phase>)

  datatype Step =
    | Begin(t: nat)
    | Operate(t: nat)     // waits for the row; an operation that fails aborts
    | Publish(t: nat)
    | Commit(t: nat, told: bool)   // takes effect even if the acknowledgement is lost
    | Abort(t: nat)       // an error, a crash or a lost connection, at any point before the commit

  predicate HoldsRow(p: Phase) {
    p.Applied? || p.Logged?
  }

  predicate Enabled(x: System, step: Step) {
    step.t < |x.phases| == |x.calls| &&
    match step
    case Begin(t) => x.phases[t].Idle?
    case Operate(t) => x.phases[t].Begun? && x.calls[t].id !in x.locks
    case Publish(t) => x.phases[t].Applied?
    case Commit(t, _) => x.phases[t].Logged?
    case Abort(t) => !x.phases[t].Committed? && !x.phases[t].Aborted?
  }

  function Do(x: System, step: Step): System
    requires Enabled(x, step)
  {
    var t := step.t;
    var call := x.calls[t];
    match step
    case Begin(_) => x.(phases := x.phases[t := Begun])
    case Operate(_) =>
      var out := L.Apply(call.op, L.CellOf(x.ms, call.id));
      if out.result.Done? then x.(locks := x.locks[call.id := t], phases := x.phases[t := Applied(out.cell)])
      else x.(phases := x.phases[t := Aborted])
    case Publish(_) => x.(phases := x.phases[t := Logged(x.phases[t].cell)])
    case Commit(_, told) =>
      x.(ms := L.Put(x.ms, call.id, x.phases[t].cell), outbox := x.outbox + [t], locks := x.locks - {call.id},
         phases := x.phases[t := Committed(told)])
    case Abort(_) =>
      x.(locks := if HoldsRow(x.phases[t]) then x.locks - {call.id} else x.locks, phases := x.phases[t := Aborted])
  }

  ghost predicate Run(x: System, steps: seq<Step>, x': System)
    decreases |steps|
  {
    if steps == [] then x' == x else Enabled(x, steps[0]) && Run(Do(x, steps[0]), steps[1..], x')
  }

  ghost predicate Held(locks: map<Id, nat>, calls: seq<L.Call>, phases: seq<Phase>) {
    && |phases| == |calls|
    && (forall t :: 0 <= t < |phases| && HoldsRow(phases[t]) ==> calls[t].id in locks && locks[calls[t].id] == t)
    && (forall id :: id in locks ==> locks[id] < |phases| && calls[locks[id]].id == id && HoldsRow(phases[locks[id]]))
  }

  /** Changed rows are computed from the committed state, which cannot change under the lock. */
  ghost predicate Current(ms: map<Id, Message>, calls: seq<L.Call>, phases: seq<Phase>)
    requires |phases| == |calls|
  {
    forall t :: 0 <= t < |phases| && HoldsRow(phases[t]) ==>
      L.Apply(calls[t].op, L.CellOf(ms, calls[t].id)) == L.Outcome(phases[t].cell, L.Done)
  }

  /** The events in the outbox are those of the committed callers, each once. */
  ghost predicate Recorded(outbox: seq<nat>, phases: seq<Phase>) {
    && L.InRange(outbox, |phases|)
    && (forall k :: 0 <= k < |outbox| ==> phases[outbox[k]].Committed?)
    && (forall t :: 0 <= t < |phases| && phases[t].Committed? ==> t in outbox)
    && (forall i, j :: 0 <= i < j < |outbox| ==> outbox[i] != outbox[j])
  }

  ghost predicate Inv(x: System, ms: map<Id, Message>) {
    && |x.phases| == |x.calls|
    && Held(x.locks, x.calls, x.phases) && Current(x.ms, x.calls, x.phases) && Recorded(x.outbox, x.phases)
    && x.ms == L.Serial(ms, x.calls, x.outbox)
    && (forall k :: 0 <= k < |x.outbox| ==> L.SerialResult(ms, x.calls, x.outbox, k).Done?)
  }

  /** One more call in the serial run. */
  lemma SerialNext(ms: map<Id, Message>, calls: seq<L.Call>, outbox: seq<nat>, t: nat)
    requires L.InRange(outbox, |calls|) && t < |calls|
    ensures L.InRange(outbox + [t], |calls|)
    ensures L.Serial(ms, calls, outbox + [t]) == L.ApplyTo(L.Serial(ms, calls, outbox), calls[t].id, calls[t].op)
    ensures L.SerialResult(ms, calls, outbox + [t], |outbox|) == L.Apply(calls[t].op, L.CellOf(L.Serial(ms, calls, outbox), calls[t].id)).result
  {
    hide L.Apply, L.ApplyTo;
    assert (outbox + [t])[..|outbox|] == outbox;
  }

  /** A committed row is the next step of the serial run. */
  lemma CommitSerial(x: System, ms: map<Id, Message>, t: nat, told: bool)
    requires Enabled(x, Commit(t, told)) && Current(x.ms, x.calls, x.phases)
    requires L.InRange(x.outbox, |x.calls|) && x.ms == L.Serial(ms, x.calls, x.outbox)
    ensures L.InRange(x.outbox + [t], |x.calls|) && Do(x, Commit(t, told)).ms == L.Serial(ms, x.calls, x.outbox + [t])
    ensures L.SerialResult(ms, x.calls, x.outbox + [t], |x.outbox|).Done?
  {
    hide L.Apply, L.Serial, L.SerialResult, L.Put, L.InRange;
    SerialNext(ms, x.calls, x.outbox, t);
    assert HoldsRow(x.phases[t]);
  }

  /** Earlier results do not change. */
  lemma EarlierResult(ms: map<Id, Message>, calls: seq<L.Call>, outbox: seq<nat>, t: nat, k: nat)
    requires L.InRange(outbox, |calls|) && t < |calls| && k < |outbox|
    ensures L.InRange(outbox + [t], |calls|) && L.SerialResult(ms, calls, outbox + [t], k) == L.SerialResult(ms, calls, outbox, k)
  {
    hide L.Apply, L.CellAt;
    L.CellEarlier(ms, calls, outbox, t, k, calls[outbox[k]].id);
  }

  lemma CommitInv(x: System, ms: map<Id, Message>, t: nat, told: bool)
    requires Inv(x, ms) && Enabled(x, Commit(t, told))
    ensures Inv(Do(x, Commit(t, told)), ms)
  {
    hide L.Apply, L.Serial, L.SerialResult, Held, Current, Recorded, L.Put;
    var x' := Do(x, Commit(t, told));
    InRangeOf(x.outbox, x.phases);
    RecordedMore(x.outbox, x.phases, t, told);
    CurrentAfterCommit(x, t, told);
    CommitSerial(x, ms, t, told);
    forall k | 0 <= k < |x'.outbox| ensures L.SerialResult(ms, x.calls, x'.outbox, k).Done? {
      if k < |x.outbox| {
        EarlierResult(ms, x.calls, x.outbox, t, k);
      }
    }
  }

  lemma RecordedMore(outbox: seq<nat>, phases: seq<Phase>, t: nat, told: bool)
    requires Recorded(outbox, phases) && t < |phases| && !phases[t].Committed?
    ensures Recorded(outbox + [t], phases[t := Committed(told)])
  {
    forall s | 0 <= s < |phases| && phases[t := Committed(told)][s].Committed? ensures s in outbox + [t] {
      if s != t {
        assert s in outbox;
      }
    }
  }

  lemma CurrentAfterCommit(x: System, t: nat, told: bool)
    requires Enabled(x, Commit(t, told)) && Held(x.locks, x.calls, x.phases) && Current(x.ms, x.calls, x.phases)
    ensures var x' := Do(x, Commit(t, told));
            Held(x'.locks, x'.calls, x'.phases) && Current(x'.ms, x'.calls, x'.phases)
  {
    hide L.Apply;
    var x' := Do(x, Commit(t, told));
    forall s | 0 <= s < |x'.phases| && HoldsRow(x'.phases[s])
      ensures L.CellOf(x'.ms, x.calls[s].id) == L.CellOf(x.ms, x.calls[s].id)
    {
      assert x.locks[x.calls[s].id] == s && x.locks[x.calls[t].id] == t;
    }
  }

  lemma RecordedSame(outbox: seq<nat>, phases: seq<Phase>, t: nat, p: Phase)
    requires Recorded(outbox, phases) && t < |phases| && !phases[t].Committed? && !p.Committed?
    ensures Recorded(outbox, phases[t := p])
  {
  }

  lemma OtherRows(x: System, step: Step)
    requires Enabled(x, step) && !step.Commit? && Held(x.locks, x.calls, x.phases) && Current(x.ms, x.calls, x.phases)
    ensures var x' := Do(x, step);
            Held(x'.locks, x'.calls, x'.phases) && Current(x'.ms, x'.calls, x'.phases)
  {
    hide L.Apply, Held, Current;
    match step
    case Begin(t) => SameRows(x, t, Begun);
    case Operate(t) => OperateRows(x, t);
    case Publish(t) => SameRows(x, t, Logged(x.phases[t].cell));
    case Abort(t) => AbortRows(x, t);
  }

  lemma SameRows(x: System, t: nat, p: Phase)
    requires Held(x.locks, x.calls, x.phases) && Current(x.ms, x.calls, x.phases) && t < |x.phases|
    requires HoldsRow(p) == HoldsRow(x.phases[t]) && (HoldsRow(p) ==> p.cell == x.phases[t].cell)
    ensures Held(x.locks, x.calls, x.phases[t := p]) && Current(x.ms, x.calls, x.phases[t := p])
  {
    hide L.Apply;
  }

  lemma OperateRows(x: System, t: nat)
    requires Enabled(x, Operate(t)) && Held(x.locks, x.calls, x.phases) && Current(x.ms, x.calls, x.phases)
    ensures var x' := Do(x, Operate(t));
            Held(x'.locks, x'.calls, x'.phases) && Current(x'.ms, x'.calls, x'.phases)
  {
    hide L.Apply, Held, Current, L.CellOf;
    var out := L.Apply(x.calls[t].op, L.CellOf(x.ms, x.calls[t].id));
    if out.result.Done? {
      TakeRow(x.locks, x.calls, x.phases, t, out.cell);
      CurrentMore(x.ms, x.calls, x.phases, t, out.cell);
    } else {
      SameRows(x, t, Aborted);
    }
  }

  lemma TakeRow(locks: map<Id, nat>, calls: seq<L.Call>, phases: seq<Phase>, t: nat, cell: L.Cell)
    requires Held(locks, calls, phases) && t < |phases| && !HoldsRow(phases[t]) && calls[t].id !in locks
    ensures Held(locks[calls[t].id := t], calls, phases[t := Applied(cell)])
  {
  }

  lemma CurrentMore(ms: map<Id, Message>, calls: seq<L.Call>, phases: seq<Phase>, t: nat, cell: L.Cell)
    requires |phases| == |calls| && Current(ms, calls, phases) && t < |phases|
    requires L.Apply(calls[t].op, L.CellOf(ms, calls[t].id)) == L.Outcome(cell, L.Done)
    ensures Current(ms, calls, phases[t := Applied(cell)])
  {
    hide L.Apply;
  }

  lemma AbortRows(x: System, t: nat)
    requires Enabled(x, Abort(t)) && Held(x.locks, x.calls, x.phases) && Current(x.ms, x.calls, x.phases)
    ensures var x' := Do(x, Abort(t));
            Held(x'.locks, x'.calls, x'.phases) && Current(x'.ms, x'.calls, x'.phases)
  {
    hide L.Apply;
  }

  /** Steps other than commits leave the committed state alone. */
  lemma OtherInv(x: System, ms: map<Id, Message>, step: Step)
    requires Inv(x, ms) && Enabled(x, step) && !step.Commit?
    ensures Inv(Do(x, step), ms)
  {
    hide L.Apply, L.Serial, L.SerialResult, Recorded, Held, Current;
    var x' := Do(x, step);
    assert x'.phases == x.phases[step.t := x'.phases[step.t]];
    RecordedSame(x.outbox, x.phases, step.t, x'.phases[step.t]);
    OtherRows(x, step);
    assert L.InRange(x.outbox, |x.calls|) by {
      assert L.InRange(x'.outbox, |x'.phases|) by {
        InRangeOf(x'.outbox, x'.phases);
      }
    }
  }

  lemma InRangeOf(outbox: seq<nat>, phases: seq<Phase>)
    requires Recorded(outbox, phases)
    ensures L.InRange(outbox, |phases|)
  {
  }

  lemma {:induction false} RunInv(x: System, ms: map<Id, Message>, steps: seq<Step>, x': System)
    requires Inv(x, ms) && Run(x, steps, x')
    ensures Inv(x', ms) && x'.calls == x.calls
    decreases |steps|
  {
    hide Inv;
    if steps != [] {
      if steps[0].Commit? {
        CommitInv(x, ms, steps[0].t, steps[0].told);
      } else {
        OtherInv(x, ms, steps[0]);
      }
      RunInv(Do(x, steps[0]), ms, steps[1..], x');
    }
  }

  function Start(ms: map<Id, Message>, calls: seq<L.Call>): System {
    System(ms, [], map[], calls, seq(|calls|, i => Idle))
  }

  /** In every run, with errors and crashes anywhere: a caller's mutation is committed exactly when its event is
      in the outbox, once; every recorded mutation succeeded; and the committed store is what the recorded
      mutations, in outbox order, make of the first one. */
  lemma CommittedIffRecorded(ms: map<Id, Message>, calls: seq<L.Call>, steps: seq<Step>, x: System)
    requires Run(Start(ms, calls), steps, x)
    ensures |x.phases| == |calls| && L.InRange(x.outbox, |calls|)
    ensures forall t :: 0 <= t < |calls| ==> (x.phases[t].Committed? <==> t in x.outbox)
    ensures forall i, j :: 0 <= i < j < |x.outbox| ==> x.outbox[i] != x.outbox[j]
    ensures x.ms == L.Serial(ms, calls, x.outbox)
    ensures forall k :: 0 <= k < |x.outbox| ==> L.SerialResult(ms, calls, x.outbox, k).Done?
  {
    RunInv(Start(ms, calls), ms, steps, x);
  }
}
