/**
The rules engine's cache of compiled conditions (rules/engine.go), used by any
number of callers at once.
*/
module RuleCache {
  import opened Messages

  const NUL := '\0'

  datatype RuleText = RuleText(id: string, condition: string)

  function Key(rule: RuleText): string {
    rule.id + [NUL] + rule.condition
  }

  /** The part after the first NUL. */
  function Condition(key: string): string {
    if key == [] then [] else if key[0] == NUL then key[1..] else Condition(key[1..])
  }

  lemma {:induction false} KeyCondition(id: string, condition: string)
    requires NUL !in id
    ensures Condition(Key(RuleText(id, condition))) == condition
  {
    var key := Key(RuleText(id, condition));
    if id == [] {
      assert key[1..] == condition;
    } else {
      KeyCondition(id[1..], condition);
      assert key[1..] == id[1..] + [NUL] + condition;
    }
  }

  /** The shorter rule ID in front of the first NUL, and the condition that goes with it. */
  lemma {:induction false} SplitAtNul(id: string, condition: string) returns (id': string, condition': string)
    requires NUL in id
    ensures NUL !in id' && Key(RuleText(id', condition')) == Key(RuleText(id, condition)) && |condition'| > |condition|
  {
    if id[0] == NUL {
      id', condition' := [], id[1..] + [NUL] + condition;
      assert Key(RuleText(id, condition)) == [] + [NUL] + condition';
    } else {
      assert id == [id[0]] + id[1..];
      id', condition' := SplitAtNul(id[1..], condition);
      assert Key(RuleText([id[0]] + id', condition')) == [id[0]] + Key(RuleText(id', condition'));
      assert Key(RuleText(id, condition)) == [id[0]] + Key(RuleText(id[1..], condition));
      id' := [id[0]] + id';
    }
  }

  /** Two rules share a key, but not the condition. */
  predicate Clash(r: RuleText, r': RuleText) {
    Key(r) == Key(r') && r.condition != r'.condition
  }

  /** A rule ID can clash with one free of NUL exactly when it contains NUL itself. */
  lemma ClashIff(id: string)
    ensures (exists condition, r': RuleText :: NUL !in r'.id && Clash(RuleText(id, condition), r')) <==> NUL in id
  {
    if NUL in id {
      var id', condition' := SplitAtNul(id, "");
      assert Clash(RuleText(id, ""), RuleText(id', condition'));
    } else {
      forall condition, r': RuleText | NUL !in r'.id ensures !Clash(RuleText(id, condition), r') {
        KeyCondition(id, condition);
        KeyCondition(r'.id, r'.condition);
        assert r' == RuleText(r'.id, r'.condition);
      }
    }
  }

  /** The first rule could be handed the second one's program, and that is not its own. */
  predicate Confusable<P(==)>(r: RuleText, r': RuleText, compile: string -> Option<P>) {
    Key(r) == Key(r') && compile(r'.condition).Some? && compile(r.condition) != compile(r'.condition)
  }

  /** No two of the rules can be confused. */
  ghost predicate NoConfusion<P(!new)>(rules: set<RuleText>, compile: string -> Option<P>) {
    forall r, r' :: r in rules && r' in rules ==> !Confusable(r, r', compile)
  }

  /** Rules without clashes cannot be confused, whatever characters their IDs contain; rules whose IDs are free
      of NUL never clash. */
  lemma NoConfusionWithoutClashes<P(!new)>(rules: set<RuleText>, compile: string -> Option<P>)
    ensures (forall r, r' :: r in rules && r' in rules ==> !Clash(r, r')) ==> NoConfusion(rules, compile)
    ensures (forall r :: r in rules ==> NUL !in r.id) ==> NoConfusion(rules, compile)
  {
    if forall r :: r in rules ==> NUL !in r.id {
      forall r, r' | r in rules && r' in rules ensures !Clash(r, r') {
        KeyCondition(r.id, r.condition);
        KeyCondition(r'.id, r'.condition);
        assert r == RuleText(r.id, r.condition) && r' == RuleText(r'.id, r'.condition);
      }
    }
  }

  // ---------------------------------------------------------------------
  // One caller
  // ---------------------------------------------------------------------

  /** Every cached program is the compilation of some rule with that key. */
  ghost predicate Sound<P(!new)>(cache: map<string, P>, rules: set<RuleText>, compile: string -> Option<P>) {
    forall key :: key in cache ==> exists r :: r in rules && Key(r) == key && compile(r.condition) == Some(cache[key])
  }

  lemma SoundMore<P(!new)>(cache: map<string, P>, rules: set<RuleText>, rule: RuleText, compile: string -> Option<P>)
    requires Sound(cache, rules, compile)
    ensures Sound(cache, rules + {rule}, compile)
    ensures compile(rule.condition).Some? ==> Sound(cache[Key(rule) := compile(rule.condition).value], rules + {rule}, compile)
  {
    forall key | key in cache ensures exists r :: r in rules + {rule} && Key(r) == key && compile(r.condition) == Some(cache[key]) {
      var r :| r in rules && Key(r) == key && compile(r.condition) == Some(cache[key]);
      assert r in rules + {rule};
    }
    assert rule in rules + {rule};
  }

  lemma NothingCached<P(!new)>(rules: set<RuleText>, compile: string -> Option<P>)
    ensures Sound(map[], rules, compile)
  {
  }

  lemma CacheHit<P(!new)>(cache: map<string, P>, rules: set<RuleText>, rule: RuleText, compile: string -> Option<P>)
    requires Sound(cache, rules, compile) && rule in rules && Key(rule) in cache
    ensures exists r' :: r' in rules && Key(r') == Key(rule) && compile(r'.condition) == Some(cache[Key(rule)])
    ensures NoConfusion(rules, compile) ==> Some(cache[Key(rule)]) == compile(rule.condition)
  {
    var r' :| r' in rules && Key(r') == Key(rule) && compile(r'.condition) == Some(cache[Key(rule)]);
    assert NoConfusion(rules, compile) ==> !Confusable(rule, r', compile);
  }

  /** A cached program is returned; otherwise the compilation is, and it is cached if there is one, in a cache that
      is emptied before if it is full. */
  ghost predicate Handed<P>(cache: map<string, P>, cache': map<string, P>, key: string, r: Option<P>, compiled: Option<P>, maxCacheSize: int) {
    if key in cache then r == Some(cache[key]) && cache' == cache
    else
      && r == compiled
      && cache' == (if r.None? then cache else (if 0 < maxCacheSize <= |cache| then map[] else cache)[key := r.value])
      && (r.Some? ==> cache' == Inserted(cache, key, r.value, maxCacheSize))
  }

  class Engine<P(!new)> {
    const compile: string -> Option<P>
    const maxCacheSize: int
    var cache: map<string, P>
    ghost var seen: set<RuleText>      // the rules asked for so far

    ghost predicate Valid()
      reads this
    {
      Sound(cache, seen, compile) && (maxCacheSize > 0 ==> |cache| <= maxCacheSize)
    }

    constructor (compile: string -> Option<P>, maxCacheSize: int)
      ensures Valid() && cache == map[] && seen == {} && this.compile == compile && this.maxCacheSize == maxCacheSize
    {
      this.compile, this.maxCacheSize := compile, maxCacheSize;
      cache, seen := map[], {};
    }

    method Close()
      requires Valid()
      modifies this`cache
      ensures Valid() && cache == map[]
    {
      cache := map[];
    }

    /** A program from the cache or compiled now: that of a rule with the same key, and so the rule's own unless
        the rules seen so far include some that can be confused. */
    method CompileOrCache(rule: RuleText) returns (r: Option<P>)
      requires Valid()
      modifies this
      ensures Valid() && seen == old(seen) + {rule}
      ensures r.None? ==> compile(rule.condition).None?
      ensures r.Some? ==> exists r' :: r' in seen && Key(r') == Key(rule) && compile(r'.condition) == r
      ensures NoConfusion(seen, compile) ==> r == compile(rule.condition)
      ensures Handed(old(cache), cache, Key(rule), r, compile(rule.condition), maxCacheSize)
    {
      hide Sound, NoConfusion, Key;
      var key := Key(rule);
      SoundMore(cache, seen, rule, compile);
      SoundMore(map[], seen, rule, compile) by {
        NothingCached(seen, compile);
      }
      seen := seen + {rule};
      if key in cache {
        CacheHit(cache, seen, rule, compile);
        return Some(cache[key]);
      }
      r := compile(rule.condition);
      if r.None? {
        return;
      }
      if maxCacheSize > 0 && |cache| >= maxCacheSize {
        cache := map[];
      }
      cache := cache[key := r.value];
    }
  }

  // ---------------------------------------------------------------------
  // Any number of callers
  // ---------------------------------------------------------------------

  datatype Phase<P> =
    | Started
    | Missed                       // the first look found nothing
    | Compiled(program: P)         // compiled outside the lock
    | Returned(result: Option<P>)

  datatype Caller<P> = Caller(rule: RuleText, phase: Phase<P>)

  datatype System<P> = System(cache: map<string, P>, callers: seq<Caller<P>>)

  datatype Step = Lookup(t: nat) | Compile(t: nat) | Insert(t: nat) | CloseEngine

  predicate Enabled<P>(x: System<P>, step: Step) {
    match step
    case Lookup(t) => t < |x.callers| && x.callers[t].phase.Started?
    case Compile(t) => t < |x.callers| && x.callers[t].phase.Missed?
    case Insert(t) => t < |x.callers| && x.callers[t].phase.Compiled?
    case CloseEngine => true
  }

  /** The cache with one more program, emptied before if it is full. */
  function Inserted<P>(cache: map<string, P>, key: string, program: P, maxCacheSize: int): map<string, P> {
    (if maxCacheSize > 0 && |cache| >= maxCacheSize then map[] else cache)[key := program]
  }

  function Do<P>(x: System<P>, step: Step, compile: string -> Option<P>, maxCacheSize: int): System<P>
    requires Enabled(x, step)
  {
    match step
    case Lookup(t) =>
      var c := x.callers[t];
      var key := Key(c.rule);
      x.(callers := x.callers[t := c.(phase := if key in x.cache then Returned(Some(x.cache[key])) else Missed)])
    case Compile(t) =>
      var c := x.callers[t];
      var p := compile(c.rule.condition);
      x.(callers := x.callers[t := c.(phase := if p.None? then Returned(None) else Compiled(p.value))])
    case Insert(t) =>
      var c := x.callers[t];
      var key := Key(c.rule);
      if key in x.cache then x.(callers := x.callers[t := c.(phase := Returned(Some(x.cache[key])))])
      else
        System(Inserted(x.cache, key, c.phase.program, maxCacheSize), x.callers[t := c.(phase := Returned(Some(c.phase.program)))])
    case CloseEngine => x.(cache := map[])
  }

  ghost predicate Run<P(!new)>(x: System<P>, steps: seq<Step>, x': System<P>, compile: string -> Option<P>, maxCacheSize: int)
    decreases |steps|
  {
    if steps == [] then x' == x
    else Enabled(x, steps[0]) && Run(Do(x, steps[0], compile, maxCacheSize), steps[1..], x', compile, maxCacheSize)
  }

  /** The engine can be closed at any time, which empties the cache and disturbs no caller. */
  lemma Closes<P(!new)>(x: System<P>, compile: string -> Option<P>, maxCacheSize: int)
    ensures Run(x, [CloseEngine], System(map[], x.callers), compile, maxCacheSize)
  {
    assert [CloseEngine][1..] == [];
    assert Run(System(map[], x.callers), [], System(map[], x.callers), compile, maxCacheSize);
  }

  /** The caller holds and returns nothing but the compilation of its own condition. */
  predicate CallerOk<P(==)>(c: Caller<P>, compile: string -> Option<P>) {
    match c.phase
    case Compiled(program) => compile(c.rule.condition) == Some(program)
    case Returned(result) => result == compile(c.rule.condition)
    case _ => true
  }

  /** The cache answers for the rules with their own programs. */
  ghost predicate Answers<P(!new)>(cache: map<string, P>, rules: set<RuleText>, compile: string -> Option<P>) {
    forall r :: r in rules && Key(r) in cache ==> compile(r.condition) == Some(cache[Key(r)])
  }

  ghost predicate Inv<P(!new)>(x: System<P>, rules: set<RuleText>, compile: string -> Option<P>, maxCacheSize: int) {
    && Answers(x.cache, rules, compile)
    && (maxCacheSize > 0 ==> |x.cache| <= maxCacheSize)
    && (forall t :: 0 <= t < |x.callers| ==> x.callers[t].rule in rules && CallerOk(x.callers[t], compile))
  }

  lemma StepInv<P(!new)>(x: System<P>, step: Step, rules: set<RuleText>, compile: string -> Option<P>, maxCacheSize: int)
    requires Inv(x, rules, compile, maxCacheSize) && NoConfusion(rules, compile) && Enabled(x, step)
    ensures Inv(Do(x, step, compile, maxCacheSize), rules, compile, maxCacheSize)
  {
    if step.Insert? {
      var rule := x.callers[step.t].rule;
      forall r | r in rules && Key(r) == Key(rule) ensures compile(r.condition) == compile(rule.condition) {
        assert !Confusable(r, rule, compile);
      }
    }
  }

  lemma {:induction false} RunInv<P(!new)>(x: System<P>, steps: seq<Step>, x': System<P>, rules: set<RuleText>, compile: string -> Option<P>, maxCacheSize: int)
    requires Inv(x, rules, compile, maxCacheSize) && NoConfusion(rules, compile) && Run(x, steps, x', compile, maxCacheSize)
    ensures Inv(x', rules, compile, maxCacheSize)
    decreases |steps|
  {
    if steps != [] {
      StepInv(x, steps[0], rules, compile, maxCacheSize);
      RunInv(Do(x, steps[0], compile, maxCacheSize), steps[1..], x', rules, compile, maxCacheSize);
    }
  }

  /** Callers that start with rules of the set. */
  ghost predicate Begins<P(!new)>(callers: seq<Caller<P>>, rules: set<RuleText>) {
    forall t :: 0 <= t < |callers| ==> callers[t].phase.Started? && callers[t].rule in rules
  }

  /** Every caller that has returned got the compilation of its own condition. */
  ghost predicate AllOwn<P(!new)>(x: System<P>, compile: string -> Option<P>) {
    forall t :: 0 <= t < |x.callers| && x.callers[t].phase.Returned? ==> x.callers[t].phase.result == compile(x.callers[t].rule.condition)
  }

  /** In every interleaving of lookups, compilations, insertions, evictions and closing, for rules that cannot be
      confused, each caller gets its own program. */
  lemma OwnProgram<P(!new)>(rules: set<RuleText>, callers: seq<Caller<P>>, steps: seq<Step>, x: System<P>, compile: string -> Option<P>, maxCacheSize: int)
    requires NoConfusion(rules, compile) && Begins(callers, rules)
    requires Run(System(map[], callers), steps, x, compile, maxCacheSize)
    ensures AllOwn(x, compile)
  {
    RunInv(System(map[], callers), steps, x, rules, compile, maxCacheSize);
  }

  /** For any rules, the cache stays within its limit. */
  lemma {:induction false} WithinLimit<P(!new)>(x: System<P>, steps: seq<Step>, x': System<P>, compile: string -> Option<P>, maxCacheSize: int)
    requires maxCacheSize > 0 && |x.cache| <= maxCacheSize && Run(x, steps, x', compile, maxCacheSize)
    ensures |x'.cache| <= maxCacheSize
    decreases |steps|
  {
    if steps != [] {
      WithinLimit(Do(x, steps[0], compile, maxCacheSize), steps[1..], x', compile, maxCacheSize);
    }
  }

  /** If this is a run over the rules, it hands out own programs. */
  ghost predicate HandsOutOwn<P(!new)>(rules: set<RuleText>, callers: seq<Caller<P>>, steps: seq<Step>, x: System<P>, compile: string -> Option<P>, maxCacheSize: int) {
    Begins(callers, rules) && Run(System(map[], callers), steps, x, compile, maxCacheSize) ==> AllOwn(x, compile)
  }

  /** Every run over a set of rules hands out own programs if and only if no two of them can be confused. */
  lemma OwnProgramIff<P(!new)>(rules: set<RuleText>, compile: string -> Option<P>, maxCacheSize: int)
    ensures NoConfusion(rules, compile) <==>
            forall callers, steps, x :: HandsOutOwn(rules, callers, steps, x, compile, maxCacheSize)
  {
    if NoConfusion(rules, compile) {
      forall callers, steps, x ensures HandsOutOwn(rules, callers, steps, x, compile, maxCacheSize) {
        if Begins(callers, rules) && Run(System(map[], callers), steps, x, compile, maxCacheSize) {
          OwnProgram(rules, callers, steps, x, compile, maxCacheSize);
        }
      }
    } else {
      var mine, other :| mine in rules && other in rules && Confusable(mine, other, compile);
      var steps, x := Confused(mine, other, compile, maxCacheSize);
      var callers := [Caller(other, Started), Caller(mine, Started)];
      assert Begins(callers, rules) && Run(System(map[], callers), steps, x, compile, maxCacheSize);
      assert x.callers[1].phase.Returned? && !AllOwn(x, compile);
      assert !HandsOutOwn(rules, callers, steps, x, compile, maxCacheSize);
    }
  }

  /** The second of two rules with the same key gets the program of the first. */
  lemma Confused<P(!new)>(mine: RuleText, other: RuleText, compile: string -> Option<P>, maxCacheSize: int) returns (steps: seq<Step>, x: System<P>)
    requires Key(mine) == Key(other) && compile(other.condition).Some?
    ensures Run(System(map[], [Caller(other, Started), Caller(mine, Started)]), steps, x, compile, maxCacheSize)
    ensures |x.callers| == 2 && x.callers[1] == Caller(mine, Returned(compile(other.condition)))
  {
    var x0 := System(map[], [Caller(other, Started), Caller(mine, Started)]);
    var x1 := Do(x0, Lookup(0), compile, maxCacheSize);
    var x2 := Do(x1, Compile(0), compile, maxCacheSize);
    var x3 := Do(x2, Insert(0), compile, maxCacheSize);
    x := Do(x3, Lookup(1), compile, maxCacheSize);
    steps := [Lookup(0), Compile(0), Insert(0), Lookup(1)];
    assert Run(x, [], x, compile, maxCacheSize);
    assert [Lookup(1)][1..] == [] && Run(x3, [Lookup(1)], x, compile, maxCacheSize);
    assert [Insert(0), Lookup(1)][1..] == [Lookup(1)] && Run(x2, [Insert(0), Lookup(1)], x, compile, maxCacheSize);
    assert [Compile(0), Insert(0), Lookup(1)][1..] == [Insert(0), Lookup(1)] && Run(x1, [Compile(0), Insert(0), Lookup(1)], x, compile, maxCacheSize);
    assert steps[1..] == [Compile(0), Insert(0), Lookup(1)];
  }

  /** For every rule ID with a NUL there is a rule with a NUL-free ID whose program it can be handed. */
  lemma ForeignProgram<P(!new)>(id: string, condition: string, compile: string -> Option<P>, maxCacheSize: int)
    returns (other: RuleText, steps: seq<Step>, x: System<P>)
    requires NUL in id
    ensures NUL !in other.id && Clash(RuleText(id, condition), other)
    ensures compile(other.condition).Some? ==>
              && Run(System(map[], [Caller(other, Started), Caller(RuleText(id, condition), Started)]), steps, x, compile, maxCacheSize)
              && |x.callers| == 2 && x.callers[1] == Caller(RuleText(id, condition), Returned(compile(other.condition)))
  {
    var id', condition' := SplitAtNul(id, condition);
    other := RuleText(id', condition');
    var mine := RuleText(id, condition);
    x, steps := System(map[], []), [];
    if compile(other.condition).Some? {
      steps, x := Confused(mine, other, compile, maxCacheSize);
    }
  }
}
