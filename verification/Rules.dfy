/**
Processing of receive and send rules (rules/engine.go): rules in priority order,
conditions evaluated on a snapshot, actions applied to the stored message.
*/
module Rules {
  import opened Messages
  import Locks
  import opened RuleCache

  datatype Action =
    | SetFolder(value: string)
    | AddTag(value: string)
    | RemoveTag(value: string)
    | MarkRead
    | DeleteMessage
    | HardDelete
    | Archive
    | Spam
    | Webhook(value: string)
    | Forward(value: string)
    | UnknownAction

  datatype Rule = Rule(text: RuleText, priority: int, actions: seq<Action>, stopOnMatch: bool)

  /** How a condition comes out on the snapshot; failing to compile counts as an error. */
  datatype Verdict = Matched | Unmatched | Failed

  // ---------------------------------------------------------------------
  // Actions
  // ---------------------------------------------------------------------

  /** The store and whether the last action succeeded. */
  datatype Effect = Effect(ms: map<Id, Message>, ok: bool)

  /** What is fixed while a message is processed: the time, strict mode, and which forwards succeed. */
  datatype Setting = Setting(now: Time, strict: bool, forwards: string -> bool)

  function ActionOp(a: Action, now: Time): Option<Locks.Op> {
    match a
    case SetFolder(v) => Some(Locks.MoveToFolder(v, "", now))
    case AddTag(v) => Some(Locks.AddTag(v, now))
    case RemoveTag(v) => Some(Locks.RemoveTag(v, now))
    case MarkRead => Some(Locks.MarkRead(true, now))
    case DeleteMessage => Some(Locks.Delete(now))
    case HardDelete => Some(Locks.HardDelete)
    case Archive => Some(Locks.MoveToFolder(FOLDER_ARCHIVED, "", now))
    case Spam => Some(Locks.MoveToFolder(FOLDER_SPAM, "", now))
    case _ => None
  }

  function ApplyAction(ms: map<Id, Message>, id: Id, a: Action, env: Setting): Effect {
    var op := ActionOp(a, env.now);
    if op.Some? then
      Effect(Locks.ApplyTo(ms, id, op.value), Locks.Apply(op.value, Locks.CellOf(ms, id)).result.Done?)
    else
      match a
      case Forward(v) => Effect(ms, env.forwards(v))
      case UnknownAction => Effect(ms, !env.strict)
      case _ => Effect(ms, true)
  }

  /** What an action does to a stored message, by the fields it sets; every other message stays as it is. */
  ghost predicate Lands(ms: map<Id, Message>, ms': map<Id, Message>, id: Id, a: Action, now: Time)
    requires id in ms
  {
    var m := ms[id];
    match a
    case SetFolder(f) => ms' == ms[id := m.(folderId := f, updatedAt := now)]
    case Archive => ms' == ms[id := m.(folderId := FOLDER_ARCHIVED, updatedAt := now)]
    case Spam => ms' == ms[id := m.(folderId := FOLDER_SPAM, updatedAt := now)]
    case DeleteMessage => ms' == ms[id := m.(folderId := FOLDER_TRASH, updatedAt := now)]
    case MarkRead => ms' == ms[id := m.(isRead := true, readAt := Some(now), updatedAt := now)]
    case AddTag(t) => ms' == if t in m.tags then ms else ms[id := m.(tags := m.tags + [t], updatedAt := now)]
    case RemoveTag(t) =>
      if t !in m.tags then ms' == ms
      else
        exists i :: 0 <= i < |m.tags| && m.tags[i] == t && t !in m.tags[..i] &&
          ms' == ms[id := m.(tags := m.tags[..i] + m.tags[i + 1..], updatedAt := now)]
    case HardDelete => ms' == ms - {id}
    case _ => ms' == ms
  }

  /** Every action lands, and fails exactly when a forward fails or an unknown action meets strict mode. Without
      the message, or with a draft, nothing changes and every action on the store fails. */
  lemma ActionLands(ms: map<Id, Message>, id: Id, a: Action, env: Setting)
    ensures var e := ApplyAction(ms, id, a, env);
            if id in ms && !ms[id].isDraft then
              && Lands(ms, e.ms, id, a, env.now)
              && (e.ok <==> (a.Forward? ==> env.forwards(a.value)) && !(a.UnknownAction? && env.strict))
            else
              && e.ms == ms
              && (e.ok <==> a.Webhook? || (a.Forward? && env.forwards(a.value)) || (a.UnknownAction? && !env.strict))
  {
    if id !in ms || ms[id].isDraft {
      hide Lands;
      assert Locks.Put(ms, id, Locks.CellOf(ms, id)) == ms;
    } else if a.RemoveTag? {
      RemoveTagLands(ms, id, a.value, env);
    } else {
      hide WithoutFirst;
    }
  }

  lemma RemoveTagLands(ms: map<Id, Message>, id: Id, tag: string, env: Setting)
    requires id in ms && !ms[id].isDraft
    ensures var e := ApplyAction(ms, id, RemoveTag(tag), env);
            e.ok && Lands(ms, e.ms, id, RemoveTag(tag), env.now)
  {
    var tags := ms[id].tags;
    if tag in tags {
      var i := FirstPlace(tags, tag);
      Locks.WithoutFirstIs(tags, tag, i);
    }
  }

  lemma {:induction false} FirstPlace(tags: seq<string>, tag: string) returns (i: nat)
    requires tag in tags
    ensures i < |tags| && tags[i] == tag && tag !in tags[..i]
  {
    i := 0;
    if tags[0] != tag {
      i := FirstPlace(tags[1..], tag);
      assert tags[..i + 1] == [tags[0]] + tags[1..][..i];
      i := i + 1;
    }
  }

  /** Actions in order up to the first that fails. */
  function ApplyActions(ms: map<Id, Message>, id: Id, actions: seq<Action>, env: Setting): Effect {
    if actions == [] then Effect(ms, true)
    else
      var e := ApplyAction(ms, id, actions[0], env);
      if !e.ok then e else ApplyActions(e.ms, id, actions[1..], env)
  }

  /** With the law for concatenations these fix what a list of actions does. */
  lemma ActionsOne(ms: map<Id, Message>, id: Id, a: Action, env: Setting)
    ensures ApplyActions(ms, id, [], env) == Effect(ms, true)
    ensures ApplyActions(ms, id, [a], env) == ApplyAction(ms, id, a, env)
  {
    hide ApplyAction;
    var e := ApplyAction(ms, id, a, env);
    assert [a][1..] == [];
    assert ApplyActions(e.ms, id, [], env) == Effect(e.ms, true);
  }

  /** The actions that are valid when a message is sent. */
  predicate IsSendAction(a: Action) {
    a.SetFolder? || a.AddTag? || a.RemoveTag? || a.Archive? || a.Webhook?
  }

  function SendOnly(actions: seq<Action>): seq<Action> {
    if actions == [] then []
    else (if IsSendAction(actions[0]) then [actions[0]] else []) + SendOnly(actions[1..])
  }

  /** Of the actions of a rule those that set a folder, add or remove a tag, archive or call a webhook are applied
      when a message is sent, in order. */
  lemma {:induction false} SendOnlyIs(a: Action, actions: seq<Action>, more: seq<Action>)
    ensures SendOnly([a]) == if a.SetFolder? || a.AddTag? || a.RemoveTag? || a.Archive? || a.Webhook? then [a] else []
    ensures SendOnly(actions + more) == SendOnly(actions) + SendOnly(more)
    decreases |actions|
  {
    assert [a][1..] == [];
    if actions == [] {
      assert actions + more == more;
    } else {
      assert (actions + more)[0] == actions[0] && (actions + more)[1..] == actions[1..] + more;
      SendOnlyIs(a, actions[1..], more);
    }
  }

  lemma {:induction false} ActionsConcat(ms: map<Id, Message>, id: Id, a: seq<Action>, b: seq<Action>, env: Setting)
    ensures ApplyActions(ms, id, a + b, env) ==
            var e := ApplyActions(ms, id, a, env);
            if e.ok then ApplyActions(e.ms, id, b, env) else e
    decreases |a|
  {
    hide ApplyAction;
    if a == [] {
      assert a + b == b;
    } else {
      assert (a + b)[0] == a[0] && (a + b)[1..] == a[1..] + b;
      ActionsConcat(ApplyAction(ms, id, a[0], env).ms, id, a[1..], b, env);
    }
  }

  // ---------------------------------------------------------------------
  // What the rules ask for
  // ---------------------------------------------------------------------

  /** The rule ends the processing: it matches and says so, or its condition fails in strict mode. */
  predicate Halts(r: Rule, verdict: Rule -> Verdict, strict: bool) {
    (verdict(r).Matched? && r.stopOnMatch) || (verdict(r).Failed? && strict)
  }

  /** The number of rules that are looked at when every action succeeds. */
  function Looked(rules: seq<Rule>, verdict: Rule -> Verdict, strict: bool): (n: nat)
    ensures n <= |rules|
    ensures forall i :: 0 <= i < n - 1 ==> !Halts(rules[i], verdict, strict)
    ensures n < |rules| ==> n > 0 && Halts(rules[n - 1], verdict, strict)
  {
    if rules == [] then 0
    else if Halts(rules[0], verdict, strict) then 1
    else 1 + Looked(rules[1..], verdict, strict)
  }

  /** The actions of the matching rules, in order, one after the other. */
  function Asked(rules: seq<Rule>, verdict: Rule -> Verdict): seq<Action> {
    if rules == [] then []
    else (if verdict(rules[0]).Matched? then rules[0].actions else []) + Asked(rules[1..], verdict)
  }

  /** The store after processing, and whether an error is returned. */
  datatype Outcome = Outcome(ms: map<Id, Message>, error: bool)

  /** The whole processing, said at once: the actions of the matching rules up to the halting one, as a
      single list, up to the first action that fails; an error comes back only in strict mode, for a failed
      action or a failed condition. */
  function Processed(ms: map<Id, Message>, id: Id, rules: seq<Rule>, verdict: Rule -> Verdict, env: Setting): Outcome {
    var n := Looked(rules, verdict, env.strict);
    var e := ApplyActions(ms, id, Asked(rules[..n], verdict), env);
    Outcome(e.ms, env.strict && (!e.ok || (n > 0 && verdict(rules[n - 1]).Failed?)))
  }

  /** One rule at a time. */
  function Process(ms: map<Id, Message>, id: Id, rules: seq<Rule>, verdict: Rule -> Verdict, env: Setting): Outcome
    decreases |rules|
  {
    if rules == [] then Outcome(ms, false)
    else
      var r := rules[0];
      match verdict(r)
      case Failed => if env.strict then Outcome(ms, true) else Process(ms, id, rules[1..], verdict, env)
      case Unmatched => Process(ms, id, rules[1..], verdict, env)
      case Matched =>
        var e := ApplyActions(ms, id, r.actions, env);
        if !e.ok then Outcome(e.ms, env.strict)
        else if r.stopOnMatch then Outcome(e.ms, false)
        else Process(e.ms, id, rules[1..], verdict, env)
  }

  lemma ProcessFrom(ms: map<Id, Message>, id: Id, rules: seq<Rule>, i: nat, verdict: Rule -> Verdict, env: Setting)
    requires i <= |rules|
    ensures Process(ms, id, rules[i..], verdict, env) ==
            if i == |rules| then Outcome(ms, false)
            else
              match verdict(rules[i])
              case Failed => if env.strict then Outcome(ms, true) else Process(ms, id, rules[i + 1..], verdict, env)
              case Unmatched => Process(ms, id, rules[i + 1..], verdict, env)
              case Matched =>
                var e := ApplyActions(ms, id, rules[i].actions, env);
                if !e.ok then Outcome(e.ms, env.strict)
                else if rules[i].stopOnMatch then Outcome(e.ms, false)
                else Process(e.ms, id, rules[i + 1..], verdict, env)
  {
    if i < |rules| {
      assert rules[i..][0] == rules[i] && rules[i..][1..] == rules[i + 1..];
    }
  }

  /** Processing rule by rule is applying the one list of actions. */
  lemma {:induction false} ProcessIsFold(ms: map<Id, Message>, id: Id, rules: seq<Rule>, verdict: Rule -> Verdict, env: Setting)
    ensures Process(ms, id, rules, verdict, env) == Processed(ms, id, rules, verdict, env)
    decreases |rules|
  {
    if rules != [] {
      var r, rest := rules[0], rules[1..];
      var n := Looked(rules, verdict, env.strict);
      var asked := Asked(rules[..n], verdict);
      assert rules[..n][0] == r && rules[..n][1..] == rest[..n - 1];
      var mine := if verdict(r).Matched? then r.actions else [];
      assert asked == mine + Asked(rest[..n - 1], verdict);
      ActionsConcat(ms, id, mine, Asked(rest[..n - 1], verdict), env);
      var e := ApplyActions(ms, id, mine, env);
      if Halts(r, verdict, env.strict) {
        assert rest[..n - 1] == [];
      } else {
        assert n - 1 == Looked(rest, verdict, env.strict);
        assert n > 1 ==> rules[n - 1] == rest[n - 2];
        ProcessIsFold(e.ms, id, rest, verdict, env);
      }
    }
  }

  /** One matching rule with one action. */
  lemma OneRule(ms: map<Id, Message>, id: Id, r: Rule, a: Action, verdict: Rule -> Verdict, env: Setting)
    requires r.actions == [a] && verdict(r).Matched?
    ensures var e := ApplyAction(ms, id, a, env);
            Processed(ms, id, [r], verdict, env) == Outcome(e.ms, env.strict && !e.ok)
  {
    hide ApplyAction;
    ActionsOne(ms, id, a, env);
    assert [r][1..] == [];
    assert Looked([], verdict, env.strict) == 0;
    assert [r][..1] == [r];
    assert Asked([], verdict) == [];
    assert Asked([r], verdict) == [a];
  }

  /** On the send side a rule counts with its send actions only. */
  function Scoped(r: Rule, send: bool): Rule {
    if send then r.(actions := SendOnly(r.actions)) else r
  }

  function AllScoped(rules: seq<Rule>, send: bool): (r: seq<Rule>)
    ensures |r| == |rules| && forall i :: 0 <= i < |rules| ==> r[i] == Scoped(rules[i], send)
  {
    seq(|rules|, i requires 0 <= i < |rules| => Scoped(rules[i], send))
  }

  // ---------------------------------------------------------------------
  // Fetching
  // ---------------------------------------------------------------------

  predicate ByPriority(rules: seq<Rule>) {
    forall i, j :: 0 <= i < j < |rules| ==> rules[i].priority <= rules[j].priority
  }

  method InsertRule(rules: seq<Rule>, r: Rule) returns (more: seq<Rule>)
    requires ByPriority(rules)
    ensures ByPriority(more) && multiset(more) == multiset(rules) + multiset{r}
  {
    hide ByPriority;
    var k := |rules|;
    while k > 0 && rules[k - 1].priority > r.priority
      invariant 0 <= k <= |rules| && forall j :: k <= j < |rules| ==> rules[j].priority > r.priority
    {
      k := k - 1;
    }
    InsertedAt(rules, r, k);
    more := rules[..k] + [r] + rules[k..];
    assert rules == rules[..k] + rules[k..];
  }

  lemma InsertedAt(rules: seq<Rule>, r: Rule, k: nat)
    requires ByPriority(rules) && k <= |rules|
    requires (forall j :: k <= j < |rules| ==> rules[j].priority > r.priority) && (k > 0 ==> rules[k - 1].priority <= r.priority)
    ensures ByPriority(rules[..k] + [r] + rules[k..])
  {
    var more := rules[..k] + [r] + rules[k..];
    forall i, j | 0 <= i < j < |more| ensures more[i].priority <= more[j].priority {
      var a := if i < k then rules[i] else if i == k then r else rules[i - 1];
      var b := if j < k then rules[j] else if j == k then r else rules[j - 1];
      assert more[i] == a && more[j] == b;
      if i < k {
        assert a.priority <= rules[k - 1].priority;
      }
    }
  }

  /** Global and user rules together, by priority; nothing is said of the order among equals. */
  method FetchRules(globalRules: seq<Rule>, userRules: seq<Rule>) returns (combined: seq<Rule>)
    ensures ByPriority(combined) && multiset(combined) == multiset(globalRules) + multiset(userRules)
  {
    hide ByPriority;
    var all := globalRules + userRules;
    combined := [];
    assert ByPriority(combined) by {
      NoRules();
    }
    for i := 0 to |all|
      invariant ByPriority(combined) && multiset(combined) == multiset(all[..i])
    {
      assert all[..i + 1] == all[..i] + [all[i]];
      combined := InsertRule(combined, all[i]);
    }
    assert all[..|all|] == all;
  }

  lemma NoRules()
    ensures ByPriority([])
  {
  }

  // ---------------------------------------------------------------------
  // The engine
  // ---------------------------------------------------------------------

  /** How a rule comes out on a snapshot: its own condition, compiled and evaluated. */
  function VerdictOf<P>(compile: string -> Option<P>, eval: (P, Message) -> Verdict, snapshot: Message): Rule -> Verdict {
    (r: Rule) => var p := compile(r.text.condition); if p.None? then Failed else eval(p.value, snapshot)
  }

  class RulesEngine<P(!new)> {
    const engine: Engine<P>
    const eval: (P, Message) -> Verdict
    var messages: map<Id, Message>

    constructor (engine: Engine<P>, eval: (P, Message) -> Verdict, ms: map<Id, Message>)
      ensures this.engine == engine && this.eval == eval && messages == ms
    {
      this.engine, this.eval, messages := engine, eval, ms;
    }

    method Apply(id: Id, actions: seq<Action>, env: Setting) returns (ok: bool)
      modifies this
      ensures Effect(messages, ok) == ApplyActions(old(messages), id, actions, env)
    {
      var i := 0;
      while i < |actions|
        invariant i <= |actions|
        invariant ApplyActions(old(messages), id, actions, env) == ApplyActions(messages, id, actions[i..], env)
      {
        assert actions[i..][1..] == actions[i + 1..];
        var e := ApplyAction(messages, id, actions[i], env);
        messages := e.ms;
        if !e.ok {
          return false;
        }
        i := i + 1;
      }
      return true;
    }

    /** Actions not valid on the send side are skipped. */
    method ApplySend(id: Id, actions: seq<Action>, env: Setting) returns (ok: bool)
      modifies this
      ensures Effect(messages, ok) == ApplyActions(old(messages), id, SendOnly(actions), env)
    {
      hide ApplyAction;
      var i := 0;
      while i < |actions|
        invariant i <= |actions|
        invariant ApplyActions(old(messages), id, SendOnly(actions), env) == ApplyActions(messages, id, SendOnly(actions[i..]), env)
      {
        var a := actions[i];
        assert actions[i..][1..] == actions[i + 1..];
        i := i + 1;
        if !IsSendAction(a) {
          assert SendOnly(actions[i - 1..]) == SendOnly(actions[i..]);
          continue;
        }
        assert SendOnly(actions[i - 1..])[1..] == SendOnly(actions[i..]);
        var e := ApplyAction(messages, id, a, env);
        messages := e.ms;
        if !e.ok {
          return false;
        }
      }
      return true;
    }

    /** Processing of some priority order of the rules, as long as none of the rules seen can be confused. */
    ghost predicate Did(ms: map<Id, Message>, id: Id, snapshot: Message, rules: seq<Rule>, all: seq<Rule>, send: bool, env: Setting, error: bool)
      reads this, engine
    {
      && ByPriority(rules) && multiset(rules) == multiset(all)
      && (NoConfusion(engine.seen, engine.compile) ==>
            Outcome(messages, error) == Processed(ms, id, AllScoped(rules, send), VerdictOf(engine.compile, eval, snapshot), env))
    }

    /** After processing a single matching rule with a single action the stored message is where the action puts it;
        on the send side only if the action is one of those allowed there, and otherwise nothing has changed. */
    lemma OneRuleLands(ms: map<Id, Message>, id: Id, snapshot: Message, rules: seq<Rule>, r: Rule, a: Action, send: bool, env: Setting, error: bool)
      requires Did(ms, id, snapshot, rules, [r], send, env, error) && NoConfusion(engine.seen, engine.compile)
      requires VerdictOf(engine.compile, eval, snapshot)(r).Matched? && r.actions == [a] && id in ms && !ms[id].isDraft
      ensures if send && (a.MarkRead? || a.DeleteMessage? || a.HardDelete? || a.Spam? || a.Forward? || a.UnknownAction?)
              then messages == ms && !error
              else
                && Lands(ms, messages, id, a, env.now)
                && error == (env.strict && ((a.Forward? && !env.forwards(a.value)) || a.UnknownAction?))
    {
      hide ApplyAction, NoConfusion, Lands, Processed;
      OnlyOne(rules, r);
      var verdict := VerdictOf(engine.compile, eval, snapshot);
      var scoped := Scoped(r, send);
      assert AllScoped(rules, send) == [scoped];
      SendOnlyIs(a, [], []);
      if scoped.actions == [a] {
        OneRule(ms, id, scoped, a, verdict, env);
        ActionLands(ms, id, a, env);
      } else {
        NoAction(ms, id, scoped, verdict, env);
      }
    }

    /** Receive rules for a message that exists and belongs to the recipient; conditions see the message as
        it was when processing began. Rules that cannot be fetched are an error in strict mode only. */
    method OnMessageReceived(id: Id, recipientId: string, globalRules: Option<seq<Rule>>, userRules: Option<seq<Rule>>, env: Setting)
      returns (error: bool, ghost rules: seq<Rule>)
      requires engine.Valid()
      modifies this, engine
      ensures engine.Valid()
      ensures if id !in old(messages) || old(messages)[id].isDraft || old(messages)[id].ownerId != recipientId then
                error && messages == old(messages)
              else if globalRules.None? || userRules.None? then
                error == env.strict && messages == old(messages)
              else
                Did(old(messages), id, old(messages)[id], rules, globalRules.value + userRules.value, false, env, error)
    {
      rules := [];
      if id !in messages || messages[id].isDraft || messages[id].ownerId != recipientId {
        return true, rules;
      }
      if globalRules.None? || userRules.None? {
        return env.strict, rules;
      }
      var snapshot := messages[id];
      var list := FetchRules(globalRules.value, userRules.value);
      rules := list;
      ProcessIsFold(messages, id, AllScoped(list, false), VerdictOf(engine.compile, eval, snapshot), env);
      error := ProcessRules(id, list, snapshot, env, false);
    }

    /** Send rules for the sender's copy. */
    method AfterSend(snapshot: Message, globalRules: Option<seq<Rule>>, userRules: Option<seq<Rule>>, env: Setting)
      returns (error: bool, ghost rules: seq<Rule>)
      requires engine.Valid()
      modifies this, engine
      ensures engine.Valid()
      ensures if globalRules.None? || userRules.None? then error == env.strict && messages == old(messages)
              else Did(old(messages), snapshot.id, snapshot, rules, globalRules.value + userRules.value, true, env, error)
    {
      rules := [];
      if globalRules.None? || userRules.None? {
        return env.strict, rules;
      }
      var list := FetchRules(globalRules.value, userRules.value);
      rules := list;
      ProcessIsFold(messages, snapshot.id, AllScoped(list, true), VerdictOf(engine.compile, eval, snapshot), env);
      error := ProcessRules(snapshot.id, list, snapshot, env, true);
    }

    method ProcessRules(id: Id, list: seq<Rule>, snapshot: Message, env: Setting, send: bool) returns (error: bool)
      requires engine.Valid()
      modifies this, engine
      ensures engine.Valid()
      ensures NoConfusion(engine.seen, engine.compile) ==>
                Outcome(messages, error) == Process(old(messages), id, AllScoped(list, send), VerdictOf(engine.compile, eval, snapshot), env)
    {
      hide ApplyActions, SendOnly, NoConfusion, Process, Handed;
      ghost var verdict := VerdictOf(engine.compile, eval, snapshot);
      ghost var all := AllScoped(list, send);
      ghost var ms := messages;
      var i := 0;
      while i < |list|
        invariant i <= |list| && engine.Valid()
        invariant NoConfusion(engine.seen, engine.compile) ==>
                    Process(ms, id, all, verdict, env) == Process(messages, id, all[i..], verdict, env)
      {
        var rule := list[i];
        ProcessFrom(messages, id, all, i, verdict, env);
        i := i + 1;
        ghost var seen := engine.seen;
        var p := engine.CompileOrCache(rule.text);
        FewerRules(seen, engine.seen, engine.compile);
        var v := if p.None? then Failed else eval(p.value, snapshot);
        assert NoConfusion(engine.seen, engine.compile) ==> v == verdict(Scoped(rule, send));
        if v.Failed? {
          if env.strict {
            return true;
          }
          continue;
        }
        if v.Unmatched? {
          continue;
        }
        var ok: bool;
        if send {
          ok := ApplySend(id, rule.actions, env);
        } else {
          ok := Apply(id, rule.actions, env);
        }
        if !ok {
          return env.strict;
        }
        if rule.stopOnMatch {
          break;
        }
      }
      if i == |list| {
        ProcessFrom(messages, id, all, i, verdict, env);
      }
      return false;
    }
  }

  lemma OnlyOne<T>(list: seq<T>, x: T)
    requires multiset(list) == multiset([x])
    ensures list == [x]
  {
    assert |list| == |multiset(list)| == 1;
    assert list == [list[0]];
    assert list[0] in multiset(list);
  }

  lemma NoAction(ms: map<Id, Message>, id: Id, r: Rule, verdict: Rule -> Verdict, env: Setting)
    requires r.actions == [] && verdict(r).Matched?
    ensures Processed(ms, id, [r], verdict, env) == Outcome(ms, false)
  {
    assert [r][1..] == [];
    assert Looked([], verdict, env.strict) == 0;
    assert [r][..1] == [r];
    assert Asked([r], verdict) == [];
  }

  lemma FewerRules<P(!new)>(rules: set<RuleText>, more: set<RuleText>, compile: string -> Option<P>)
    requires rules <= more
    ensures NoConfusion(more, compile) ==> NoConfusion(rules, compile)
  {
  }
}
