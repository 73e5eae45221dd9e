/**
Concurrent callers of the memory store's idempotent creation (store/memory/create.go)
with one key. The index entry and the message are stored in two steps, and a
caller that comes in between takes the entry for a stale one.
*/
module IdempotencyRace {
  import opened Messages

  /** A candidate ID: the caller that generated it, and the attempt. */
  type Ticket = (nat, nat)

  datatype Phase =
    | Trying(attempt: nat)             // about to load or store the index entry
    | Found(attempt: nat, t: Ticket)   // the index has an entry; about to load its message
    | Missed(attempt: nat)             // there is no such message; about to delete the entry
    | Reserved(t: Ticket)              // about to store the message
    | Created(t: Ticket)
    | Returned(t: Ticket)

  datatype Store = Store(index: Option<Ticket>, stored: set<Ticket>, callers: seq<Phase>)

  function Start(n: nat): Store {
    Store(None, {}, seq(n, _ => Trying(0)))
  }

  predicate IsDone(p: Phase) {
    p.Created? || p.Returned?
  }

  predicate Enabled(x: Store, i: nat) {
    i < |x.callers| && !IsDone(x.callers[i])
  }

  /** The next atomic step of a caller. After two stale entries it goes on without an index entry. */
  function Do(x: Store, i: nat): Store
    requires Enabled(x, i)
  {
    match x.callers[i]
    case Trying(k) =>
      if x.index.None? then x.(index := Some((i, k)), callers := x.callers[i := Reserved((i, k))])
      else x.(callers := x.callers[i := Found(k, x.index.value)])
    case Found(k, t) => x.(callers := x.callers[i := if t in x.stored then Returned(t) else Missed(k)])
    case Missed(k) => x.(index := None, callers := x.callers[i := if k == 0 then Trying(1) else Reserved((i, k))])
    case Reserved(t) => x.(stored := x.stored + {t}, callers := x.callers[i := Created(t)])
  }

  /** Caller i is about to find an entry without its message. */
  predicate Misses(x: Store, i: nat) {
    i < |x.callers| && x.callers[i].Found? && x.callers[i].t !in x.stored
  }

  predicate Run(x: Store, steps: seq<nat>, x': Store)
    decreases |steps|
  {
    if steps == [] then x' == x else Enabled(x, steps[0]) && Run(Do(x, steps[0]), steps[1..], x')
  }

  predicate NeverMisses(x: Store, steps: seq<nat>)
    decreases |steps|
  {
    steps == [] || (Enabled(x, steps[0]) && !Misses(x, steps[0]) && NeverMisses(Do(x, steps[0]), steps[1..]))
  }

  predicate Complete(x: Store) {
    forall i :: 0 <= i < |x.callers| ==> IsDone(x.callers[i])
  }

  /** The callers that are told they created the message. */
  function Creators(x: Store): set<nat> {
    set i: nat | i < |x.callers| && x.callers[i].Created?
  }

  // ---------------------------------------------------------------------
  // Without a miss
  // ---------------------------------------------------------------------

  predicate Creates(x: Store, i: nat) {
    i < |x.callers| && (x.callers[i].Reserved? || x.callers[i].Created?)
  }

  /** The ticket is the one its caller creates the message under. */
  predicate Holds(x: Store, t: Ticket) {
    Creates(x, t.0) && x.callers[t.0].t == t
  }

  /** One caller has the entry, the others wait for it or have got its message. */
  predicate Orderly(x: Store) {
    if x.index.None? then x.stored == {} && forall i :: 0 <= i < |x.callers| ==> x.callers[i] == Trying(0)
    else
      var t := x.index.value;
      && Holds(x, t) && x.stored == (if x.callers[t.0].Created? then {t} else {})
      && forall i :: 0 <= i < |x.callers| && i != t.0 ==>
           x.callers[i] == Trying(0) || x.callers[i] == Found(0, t) || x.callers[i] == Returned(t)
  }

  lemma {:induction false} StaysOrderly(x: Store, steps: seq<nat>, x': Store)
    requires Orderly(x) && Run(x, steps, x') && NeverMisses(x, steps)
    ensures Orderly(x') && |x'.callers| == |x.callers|
    decreases |steps|
  {
    if steps != [] {
      OrderlyStep(x, steps[0]);
      StaysOrderly(Do(x, steps[0]), steps[1..], x');
    }
  }

  lemma OrderlyStep(x: Store, i: nat)
    requires Orderly(x) && Enabled(x, i) && !Misses(x, i)
    ensures Orderly(Do(x, i)) && |Do(x, i).callers| == |x.callers|
  {
  }

  // ---------------------------------------------------------------------
  // With a miss
  // ---------------------------------------------------------------------

  /** Every entry, present or found earlier, belongs to a caller that creates its message. */
  predicate Held(x: Store) {
    && (x.index.Some? ==> Holds(x, x.index.value))
    && (forall i :: 0 <= i < |x.callers| && x.callers[i].Found? ==> Holds(x, x.callers[i].t))
  }

  lemma HeldStep(x: Store, i: nat)
    requires Held(x) && Enabled(x, i)
    ensures Held(Do(x, i)) && |Do(x, i).callers| == |x.callers|
  {
    var x' := Do(x, i);
    forall t | Holds(x, t) ensures Holds(x', t) {
    }
  }

  /** A caller that creates, or is bound to bring about a creation. */
  predicate Pending(x: Store, b: nat) {
    Creates(x, b) || (b < |x.callers| && (x.callers[b].Missed? || (x.callers[b] == Trying(1) && x.index.None?)))
  }

  /** There will be two creators. */
  ghost predicate Doubled(x: Store) {
    exists a: nat, b: nat :: a != b && Creates(x, a) && Pending(x, b)
  }

  lemma DoubledStep(x: Store, i: nat)
    requires Doubled(x) && Enabled(x, i)
    ensures Doubled(Do(x, i))
  {
    var a: nat, b: nat :| a != b && Creates(x, a) && Pending(x, b);
    var x' := Do(x, i);
    assert Creates(x', a);
    if i != a && i != b && !Creates(x, b) && x'.index.Some? && x.index.None? {
      assert Pending(x', i);
    } else {
      assert Pending(x', b);
    }
  }

  lemma MissDoubles(x: Store, i: nat)
    requires Held(x) && Misses(x, i)
    ensures Doubled(Do(x, i))
  {
    var t := x.callers[i].t;
    assert Creates(Do(x, i), t.0) && Pending(Do(x, i), i);
  }

  lemma {:induction false} StaysDoubled(x: Store, steps: seq<nat>, x': Store)
    requires Run(x, steps, x') && Held(x) && (Doubled(x) || !NeverMisses(x, steps))
    ensures Doubled(x')
    decreases |steps|
  {
    if steps != [] {
      hide Doubled, Held, Misses, Do;
      HeldStep(x, steps[0]);
      if Doubled(x) {
        DoubledStep(x, steps[0]);
      } else if Misses(x, steps[0]) {
        MissDoubles(x, steps[0]);
      }
      StaysDoubled(Do(x, steps[0]), steps[1..], x');
    }
  }

  lemma TwoCreatorsAtLeast(x: Store)
    requires Doubled(x) && Complete(x)
    ensures |Creators(x)| >= 2
  {
    var a: nat, b: nat :| a != b && Creates(x, a) && Pending(x, b);
    assert {a, b} <= Creators(x);
    assert |Creators(x) - {a, b}| == |Creators(x)| - |{a, b}|;
  }

  // ---------------------------------------------------------------------
  // Exactly when there is one creator
  // ---------------------------------------------------------------------

  /** When all callers are through, exactly one was told it created the message, if and only if none ever found an
      index entry whose message was not stored yet. Then all the others got its message. */
  lemma OneCreatorIff(n: nat, steps: seq<nat>, x: Store)
    requires n > 0 && Run(Start(n), steps, x) && Complete(x)
    ensures |Creators(x)| == 1 <==> NeverMisses(Start(n), steps)
    ensures NeverMisses(Start(n), steps) ==>
              exists t :: x.stored == {t} && forall i :: 0 <= i < |x.callers| ==> x.callers[i] == Created(t) || x.callers[i] == Returned(t)
  {
    if NeverMisses(Start(n), steps) {
      StaysOrderly(Start(n), steps, x);
      assert IsDone(x.callers[0]);
      var t := x.index.value;
      assert IsDone(x.callers[t.0]);
      assert Creators(x) == {t.0};
      forall i | 0 <= i < |x.callers| ensures x.callers[i] == Created(t) || x.callers[i] == Returned(t) {
        assert IsDone(x.callers[i]);
      }
    } else {
      StaysDoubled(Start(n), steps, x);
      TwoCreatorsAtLeast(x);
    }
  }

  /** Two callers: the second comes between the first one's two steps, deletes its entry, and both create. */
  lemma TwoCreators() returns (steps: seq<nat>, x: Store)
    ensures Run(Start(2), steps, x) && Complete(x) && Creators(x) == {0, 1} && x.stored == {(0, 0), (1, 1)}
  {
    hide Run;
    var a, b := (0, 0), (1, 1);
    var x1 := Store(Some(a), {}, [Reserved(a), Trying(0)]);
    var x2 := Store(Some(a), {}, [Reserved(a), Found(0, a)]);
    var x3 := Store(Some(a), {}, [Reserved(a), Missed(0)]);
    var x4 := Store(None, {}, [Reserved(a), Trying(1)]);
    var x5 := Store(Some(b), {}, [Reserved(a), Reserved(b)]);
    var x6 := Store(Some(b), {b}, [Reserved(a), Created(b)]);
    x := Store(Some(b), {a, b}, [Created(a), Created(b)]);
    assert Do(Start(2), 0) == x1 && Do(x1, 1) == x2 && Do(x2, 1) == x3 && Do(x3, 1) == x4 && Do(x4, 1) == x5 && Do(x5, 1) == x6;
    assert Do(x6, 0) == x;
    steps := [];
    RunEnd(x);
    steps := RunBefore(x6, 0, steps, x);
    steps := RunBefore(x5, 1, steps, x);
    steps := RunBefore(x4, 1, steps, x);
    steps := RunBefore(x3, 1, steps, x);
    steps := RunBefore(x2, 1, steps, x);
    steps := RunBefore(x1, 1, steps, x);
    steps := RunBefore(Start(2), 0, steps, x);
  }

  lemma RunEnd(x: Store)
    ensures Run(x, [], x)
  {
  }

  lemma RunBefore(x: Store, i: nat, steps: seq<nat>, x': Store) returns (all: seq<nat>)
    requires Enabled(x, i) && Run(Do(x, i), steps, x')
    ensures Run(x, all, x')
  {
    all := [i] + steps;
    assert all[1..] == steps;
  }
}
