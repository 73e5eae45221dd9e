/**
Repeated deliveries of the same sender messages, with overlapping targets,
failures and removals in between.
*/
module DeliveryRuns {
  import opened Messages
  import opened Tally
  import opened Delivery

  /** A sender message and a recipient. */
  type Address = (string, string)

  datatype World = World(
    ms: map<Id, Message>,
    index: map<string, Id>,
    copies: map<Id, Address>,          // the delivered copies that are still stored
    announced: multiset<Address>,      // deliveries reported as new
    removed: multiset<Address>)        // delivered copies removed since

  datatype Step =
    | Deliver(base: string, letter: MessageData, ts: seq<string>, faults: Faults, now: Time,
              deliveredTo: seq<string>, newlyDelivered: seq<string>, failed: set<string>,
              ms: map<Id, Message>, index: map<string, Id>)
    | Remove(id: Id)

  /** Sender message IDs have the same length; everything else is what a delivery does. */
  ghost predicate Enabled(x: World, step: Step, idLength: nat) {
    match step
    case Deliver(base, letter, ts, faults, now, deliveredTo, newlyDelivered, failed, ms, index) =>
      && |base| == idLength && Distinct(ts)
      && Delivers(x.ms, x.index, ms, index, base, letter, ts, faults, deliveredTo, newlyDelivered, failed, now)
    case Remove(_) => true
  }

  function Addressed(base: string, rs: seq<string>): seq<Address> {
    if rs == [] then [] else Addressed(base, rs[..|rs| - 1]) + [(base, rs[|rs| - 1])]
  }

  /** Distinct recipients are announced once each. */
  lemma {:induction false} AddressedOnce(base: string, rs: seq<string>, a: Address)
    requires Distinct(rs)
    ensures multiset(Addressed(base, rs))[a] == One(a.0 == base && a.1 in rs)
  {
    if rs != [] {
      var front, last := rs[..|rs| - 1], rs[|rs| - 1];
      AddressedOnce(base, front, a);
      assert rs == front + [last];
      assert last !in front;
    }
  }

  ghost function Do(x: World, step: Step): World {
    match step
    case Deliver(base, _, _, _, _, _, newlyDelivered, _, ms, index) =>
      World(ms, index,
            x.copies + (map id | id in ms && id !in x.ms :: (base, ms[id].ownerId)),
            x.announced + multiset(Addressed(base, newlyDelivered)), x.removed)
    case Remove(id) =>
      x.(ms := x.ms - {id}, copies := x.copies - {id},
         removed := if id in x.copies then x.removed + multiset{x.copies[id]} else x.removed)
  }

  ghost predicate Run(x: World, steps: seq<Step>, x': World, idLength: nat)
    decreases |steps|
  {
    if steps == [] then x' == x
    else Enabled(x, steps[0], idLength) && Run(Do(x, steps[0]), steps[1..], x', idLength)
  }

  function KeyOf(a: Address): string {
    CopyKey(a.0, a.1)
  }

  ghost predicate Inv(x: World, idLength: nat) {
    && (forall id :: id in x.copies ==> id in x.ms && |x.copies[id].0| == idLength && KeyOf(x.copies[id]) in x.index && x.index[KeyOf(x.copies[id])] == id)
    && (forall k :: k in x.index && x.index[k] in x.ms ==> x.index[k] in x.copies && KeyOf(x.copies[x.index[k]]) == k)
    && (forall a: Address :: |a.0| == idLength ==> x.announced[a] == x.removed[a] + One(Has(x.ms, x.index, a.0, a.1)))
  }

  lemma RemoveInv(x: World, idLength: nat, id: Id)
    requires Inv(x, idLength)
    ensures Inv(Do(x, Remove(id)), idLength)
  {
    hide CopyKey;
    var x' := Do(x, Remove(id));
    forall a: Address | |a.0| == idLength ensures x'.announced[a] == x'.removed[a] + One(Has(x'.ms, x'.index, a.0, a.1)) {
      if id in x.copies && KeyOf(x.copies[id]) == KeyOf(a) {
        KeysDiffer(x.copies[id].0, x.copies[id].1, a.0, a.1);
      }
    }
  }

  /** Any delivered copy can be removed, and the recipient has none then, so that a later delivery is a new one. */
  lemma CanBeRemoved(x: World, idLength: nat, id: Id)
    requires Inv(x, idLength) && id in x.copies
    ensures var (base, r) := x.copies[id];
            Run(x, [Remove(id)], Do(x, Remove(id)), idLength) && Has(x.ms, x.index, base, r) &&
            !Has(Do(x, Remove(id)).ms, x.index, base, r)
  {
    hide CopyKey;
    assert [Remove(id)][1..] == [];
    assert Run(Do(x, Remove(id)), [], Do(x, Remove(id)), idLength);
  }

  /** A recipient reported as new had no copy before and has one now. */
  lemma NewlyHas(x: World, step: Step, idLength: nat, r: string)
    requires Inv(x, idLength) && step.Deliver? && Enabled(x, step, idLength) && r in step.newlyDelivered
    ensures !Has(x.ms, x.index, step.base, r) && Has(step.ms, step.index, step.base, r) && step.index[CopyKey(step.base, r)] !in x.ms
    ensures step.ms[step.index[CopyKey(step.base, r)]].ownerId == r
  {
    FilterMembers(step.ts, NewlySucceeds(x.ms, x.index, step.base, step.faults));
    assert r in Elements(step.newlyDelivered);
    assert IsNewCopy(x.ms, step.ms, step.index, step.base, step.letter, step.now, r);
  }

  lemma NewlyDistinct(x: World, step: Step, idLength: nat)
    requires step.Deliver? && Enabled(x, step, idLength)
    ensures Distinct(step.newlyDelivered)
  {
    FilterMembers(step.ts, NewlySucceeds(x.ms, x.index, step.base, step.faults));
  }

  /** Nobody else's copies come or go. */
  lemma OthersKeep(x: World, step: Step, idLength: nat, a: Address)
    requires Inv(x, idLength) && step.Deliver? && Enabled(x, step, idLength) && |a.0| == idLength
    requires a.0 != step.base || a.1 !in step.newlyDelivered
    ensures Has(step.ms, step.index, a.0, a.1) <==> Has(x.ms, x.index, a.0, a.1)
  {
    var k := KeyOf(a);
    if k in step.index && step.index[k] in step.ms {
      if exists r :: r in Elements(step.newlyDelivered) && k == CopyKey(step.base, r) {
        var r :| r in Elements(step.newlyDelivered) && k == CopyKey(step.base, r);
        KeysDiffer(step.base, r, a.0, a.1);
      }
    }
  }

  lemma DeliverCounts(x: World, step: Step, idLength: nat, a: Address)
    requires Inv(x, idLength) && step.Deliver? && Enabled(x, step, idLength) && |a.0| == idLength
    ensures var x' := Do(x, step);
            x'.announced[a] == x'.removed[a] + One(Has(x'.ms, x'.index, a.0, a.1))
  {
    hide Delivers, Has, Addressed, Distinct;
    assert x.announced[a] == x.removed[a] + One(Has(x.ms, x.index, a.0, a.1));
    NewlyDistinct(x, step, idLength);
    AddressedOnce(step.base, step.newlyDelivered, a);
    if a.0 == step.base && a.1 in step.newlyDelivered {
      NewlyHas(x, step, idLength, a.1);
    } else {
      OthersKeep(x, step, idLength, a);
    }
  }

  /** Copies are found under their keys, and only copies are. */
  lemma DeliverCopies(x: World, step: Step, idLength: nat)
    requires Inv(x, idLength) && step.Deliver? && Enabled(x, step, idLength)
    ensures var x' := Do(x, step);
            && (forall id :: id in x'.copies ==> id in x'.ms && |x'.copies[id].0| == idLength && KeyOf(x'.copies[id]) in x'.index && x'.index[KeyOf(x'.copies[id])] == id)
            && (forall k :: k in x'.index && x'.index[k] in x'.ms ==> x'.index[k] in x'.copies && KeyOf(x'.copies[x'.index[k]]) == k)
  {
    hide CopyKey;
    var x' := Do(x, step);
    forall id | id in x'.copies
      ensures id in x'.ms && |x'.copies[id].0| == idLength && KeyOf(x'.copies[id]) in x'.index && x'.index[KeyOf(x'.copies[id])] == id
    {
      if id !in x.ms {
        var r := step.ms[id].ownerId;
        assert r in Elements(step.newlyDelivered);
        assert IsNewCopy(x.ms, step.ms, step.index, step.base, step.letter, step.now, r);
      } else {
        assert id in x.copies && x.index[KeyOf(x.copies[id])] == id;
      }
    }
    forall k | k in x'.index && x'.index[k] in x'.ms ensures x'.index[k] in x'.copies && KeyOf(x'.copies[x'.index[k]]) == k {
      if k in x.index && x.index[k] == x'.index[k] && x.index[k] in x.ms {
        assert x.index[k] in x.copies;
      } else {
        var r :| r in Elements(step.newlyDelivered) && k == CopyKey(step.base, r);
        NewlyHas(x, step, idLength, r);
      }
    }
  }

  lemma StepInv(x: World, step: Step, idLength: nat)
    requires Inv(x, idLength) && Enabled(x, step, idLength)
    ensures Inv(Do(x, step), idLength)
  {
    match step
    case Remove(id) => RemoveInv(x, idLength, id);
    case Deliver(_, _, _, _, _, _, _, _, _, _) =>
      hide Delivers, Has;
      DeliverCopies(x, step, idLength);
      forall a: Address | |a.0| == idLength
        ensures Do(x, step).announced[a] == Do(x, step).removed[a] + One(Has(Do(x, step).ms, Do(x, step).index, a.0, a.1))
      {
        DeliverCounts(x, step, idLength, a);
      }
  }

  lemma {:induction false} RunInv(x: World, steps: seq<Step>, x': World, idLength: nat)
    requires Inv(x, idLength) && Run(x, steps, x', idLength)
    ensures Inv(x', idLength)
    decreases |steps|
  {
    if steps != [] {
      StepInv(x, steps[0], idLength);
      RunInv(Do(x, steps[0]), steps[1..], x', idLength);
    }
  }

  /** In every run a recipient holds at most one copy of a sender message, and the deliveries announced as
      new exceed the copies removed by one exactly while the recipient holds it. */
  lemma AtMostOneCopy(ms: map<Id, Message>, steps: seq<Step>, x: World, idLength: nat)
    requires Run(World(ms, map[], map[], multiset{}, multiset{}), steps, x, idLength)
    ensures forall id, id' :: id in x.copies && id' in x.copies && x.copies[id] == x.copies[id'] ==> id == id'
    ensures forall a: Address :: |a.0| == idLength ==> x.announced[a] == x.removed[a] + One(Has(x.ms, x.index, a.0, a.1))
    ensures forall a: Address :: |a.0| == idLength && x.removed[a] == 0 ==> x.announced[a] <= 1
  {
    RunInv(World(ms, map[], map[], multiset{}, multiset{}), steps, x, idLength);
  }
}
