/**
Filters: their meaning in the memory store (store/memory/helpers.go) and their
compilation to numbered SQL conditions (store/postgres/query.go).
*/
module Filters {
  import opened Messages
  import opened Strings
  import Decimals
  import opened Uuids

  /** Filter values with their dynamic type. */
  datatype Value =
    | Text(s: string)
    | StatusText(s: string)        // the named string type of the status field
    | Bool(b: bool)
    | Instant(t: Time)
    | Uuid(bytes: Bytes)           // the type of the ID column
    | Texts(texts: seq<string>)
    | Values(values: seq<Value>)
    | NoTexts                      // a nil slice of strings
    | NoValues                     // a nil slice of values
    | Nil

  datatype Field =
    | FId | FOwnerId | FSenderId | FRecipientIds | FSubject | FBody | FStatus | FIsRead | FFolderId | FTags
    | FCreatedAt | FUpdatedAt | FThreadId | FReplyToId | FExternalId | FIsDraft | FExpiresAt | FAvailableAt

  datatype Operator = Eq | Ne | Gt | Gte | Lt | Lte | In | Nin | Exists | Contains

  datatype Filter = Filter(key: Field, op: Operator, value: Value)

  predicate IsTextField(key: Field) {
    key in {FOwnerId, FSenderId, FSubject, FFolderId, FThreadId, FReplyToId, FExternalId}
  }

  predicate IsTimeField(key: Field) {
    key in {FCreatedAt, FUpdatedAt, FExpiresAt, FAvailableAt}
  }

  predicate IsFlagField(key: Field) {
    key in {FIsRead, FIsDraft}
  }

  predicate IsListField(key: Field) {
    key in {FTags, FRecipientIds}
  }

  predicate IsComparison(op: Operator) {
    op in {Eq, Ne, Gt, Gte, Lt, Lte}
  }

  function OrNil(t: Option<Time>): Value {
    if t.Some? then Instant(t.value) else Nil
  }

  // ---------------------------------------------------------------------
  // The memory store
  // ---------------------------------------------------------------------

  /** Negative, zero or positive; values of different or unordered types compare as equal. */
  function CompareValues(a: Value, b: Value): int {
    match (a, b)
    case (Text(x), Text(y)) => if Less(x, y) then -1 else if Less(y, x) then 1 else 0
    case (Instant(x), Instant(y)) => if x < y then -1 else if y < x then 1 else 0
    case _ => 0
  }

  predicate ValueInSet(v: Value, set_: Value) {
    match set_
    case Texts(xs) => v.Text? && v.s in xs
    case Values(vs) => v in vs
    case _ => false
  }

  predicate MatchesSlice(list: seq<string>, op: Operator, value: Value) {
    match op
    case Contains => value.Text? && value.s in list
    case Exists => (value == Bool(true)) == (|list| > 0)
    case Eq => value == Texts(list) || (value.NoTexts? && list == [])
    case _ => true
  }

  /** The value a scalar field is compared by; there is none for the body. */
  function MemoryValue(m: Message, key: Field): Value {
    match key
    case FId => Text(m.id)
    case FOwnerId => Text(m.ownerId)
    case FSenderId => Text(m.senderId)
    case FSubject => Text(m.subject)
    case FFolderId => Text(m.folderId)
    case FIsRead => Bool(m.isRead)
    case FStatus => StatusText(m.status)
    case FThreadId => Text(m.threadId)
    case FReplyToId => Text(m.replyToId)
    case FExternalId => Text(m.externalId)
    case FCreatedAt => Instant(m.createdAt)
    case FUpdatedAt => Instant(m.updatedAt)
    case FIsDraft => Bool(m.isDraft)
    case FExpiresAt => OrNil(m.expiresAt)
    case FAvailableAt => OrNil(m.availableAt)
    case _ => Nil
  }

  predicate MatchesScalar(v: Value, op: Operator, value: Value) {
    match op
    case Eq => v == value
    case Ne => v != value
    case Lt => CompareValues(v, value) < 0
    case Lte => CompareValues(v, value) <= 0
    case Gt => CompareValues(v, value) > 0
    case Gte => CompareValues(v, value) >= 0
    case Exists => (value == Bool(true)) != (v == Text(""))
    case In => ValueInSet(v, value)
    case Nin => !ValueInSet(v, value)
    case Contains => true
  }

  predicate MatchesFilter(m: Message, f: Filter) {
    match f.key
    case FTags => MatchesSlice(m.tags, f.op, f.value)
    case FRecipientIds => MatchesSlice(m.recipientIds, f.op, f.value)
    case FBody => true
    case _ =>
      var v := MemoryValue(m, f.key);
      if v.Nil? then f.op.Exists? && f.value != Bool(true) else MatchesScalar(v, f.op, f.value)
  }

  predicate MatchesFilters(m: Message, filters: seq<Filter>) {
    forall i :: 0 <= i < |filters| ==> MatchesFilter(m, filters[i])
  }

  /** Which field of the message each text key is about. */
  lemma TextKeysMean(m: Message, s: string)
    ensures MatchesFilter(m, Filter(FId, Eq, Text(s))) <==> m.id == s
    ensures MatchesFilter(m, Filter(FOwnerId, Eq, Text(s))) <==> m.ownerId == s
    ensures MatchesFilter(m, Filter(FSenderId, Eq, Text(s))) <==> m.senderId == s
    ensures MatchesFilter(m, Filter(FSubject, Eq, Text(s))) <==> m.subject == s
    ensures MatchesFilter(m, Filter(FFolderId, Eq, Text(s))) <==> m.folderId == s
  {
    hide CompareValues, ValueInSet, MatchesSlice;
  }

  /** The same for the IDs of other messages, and the status. */
  lemma LinkKeysMean(m: Message, s: string)
    ensures MatchesFilter(m, Filter(FThreadId, Eq, Text(s))) <==> m.threadId == s
    ensures MatchesFilter(m, Filter(FReplyToId, Eq, Text(s))) <==> m.replyToId == s
    ensures MatchesFilter(m, Filter(FExternalId, Eq, Text(s))) <==> m.externalId == s
    ensures MatchesFilter(m, Filter(FStatus, Eq, StatusText(s))) <==> m.status == s
  {
    hide CompareValues, ValueInSet, MatchesSlice;
  }

  /** The same for times. */
  lemma TimeKeysMean(m: Message, t: Time)
    ensures MatchesFilter(m, Filter(FCreatedAt, Eq, Instant(t))) <==> m.createdAt == t
    ensures MatchesFilter(m, Filter(FUpdatedAt, Eq, Instant(t))) <==> m.updatedAt == t
    ensures MatchesFilter(m, Filter(FExpiresAt, Eq, Instant(t))) <==> m.expiresAt == Some(t)
    ensures MatchesFilter(m, Filter(FAvailableAt, Eq, Instant(t))) <==> m.availableAt == Some(t)
  {
    hide CompareValues, ValueInSet, MatchesSlice;
  }

  /** And for flags and lists. */
  lemma FlagKeysMean(m: Message, s: string, b: bool)
    ensures MatchesFilter(m, Filter(FIsRead, Eq, Bool(b))) <==> m.isRead == b
    ensures MatchesFilter(m, Filter(FIsDraft, Eq, Bool(b))) <==> m.isDraft == b
    ensures MatchesFilter(m, Filter(FTags, Contains, Text(s))) <==> s in m.tags
    ensures MatchesFilter(m, Filter(FRecipientIds, Contains, Text(s))) <==> s in m.recipientIds
  {
    hide CompareValues, ValueInSet;
  }

  /** What each operator asks of a text. */
  lemma TextOperatorsMean(m: Message, s: string, texts: seq<string>, b: bool)
    ensures MatchesFilter(m, Filter(FSubject, Ne, Text(s))) <==> m.subject != s
    ensures MatchesFilter(m, Filter(FSubject, Lt, Text(s))) <==> Less(m.subject, s)
    ensures MatchesFilter(m, Filter(FSubject, Lte, Text(s))) <==> Less(m.subject, s) || m.subject == s
    ensures MatchesFilter(m, Filter(FSubject, Gt, Text(s))) <==> Less(s, m.subject)
    ensures MatchesFilter(m, Filter(FSubject, Gte, Text(s))) <==> Less(s, m.subject) || m.subject == s
    ensures MatchesFilter(m, Filter(FSubject, In, Texts(texts))) <==> m.subject in texts
    ensures MatchesFilter(m, Filter(FSubject, Nin, Texts(texts))) <==> m.subject !in texts
    ensures MatchesFilter(m, Filter(FSubject, Exists, Bool(b))) <==> (b <==> m.subject != "")
  {
    hide MatchesSlice, Less;
    Trichotomy(m.subject, s);
  }

  /** What each operator asks of a time and of a list; nothing but existence is ever true of a missing time. */
  lemma TimeOperatorsMean(m: Message, texts: seq<string>, t: Time, times: seq<Value>, b: bool)
    ensures MatchesFilter(m, Filter(FExpiresAt, Ne, Instant(t))) <==> m.expiresAt.Some? && m.expiresAt.value != t
    ensures MatchesFilter(m, Filter(FExpiresAt, Lt, Instant(t))) <==> m.expiresAt.Some? && m.expiresAt.value < t
    ensures MatchesFilter(m, Filter(FExpiresAt, Lte, Instant(t))) <==> m.expiresAt.Some? && m.expiresAt.value <= t
    ensures MatchesFilter(m, Filter(FExpiresAt, Gt, Instant(t))) <==> m.expiresAt.Some? && m.expiresAt.value > t
    ensures MatchesFilter(m, Filter(FExpiresAt, Gte, Instant(t))) <==> m.expiresAt.Some? && m.expiresAt.value >= t
    ensures MatchesFilter(m, Filter(FExpiresAt, In, Values(times))) <==> m.expiresAt.Some? && Instant(m.expiresAt.value) in times
    ensures MatchesFilter(m, Filter(FExpiresAt, Nin, Values(times))) <==> m.expiresAt.Some? && Instant(m.expiresAt.value) !in times
    ensures MatchesFilter(m, Filter(FExpiresAt, Exists, Bool(b))) <==> (b <==> m.expiresAt.Some?)
    ensures MatchesFilter(m, Filter(FTags, Exists, Bool(b))) <==> (b <==> m.tags != [])
    ensures MatchesFilter(m, Filter(FTags, Eq, Texts(texts))) <==> m.tags == texts
  {
    hide Less;
  }

  // ---------------------------------------------------------------------
  // SQL conditions
  // ---------------------------------------------------------------------

  /** Three-valued logic; a type error fails the whole query. */
  datatype Truth = True | False | Unknown | Fault

  function Truly(b: bool): Truth {
    if b then True else False
  }

  function Or(a: Truth, b: Truth): Truth {
    if a.Fault? || b.Fault? then Fault
    else if a.True? || b.True? then True
    else if a.Unknown? || b.Unknown? then Unknown
    else False
  }

  function And(a: Truth, b: Truth): Truth {
    if a.Fault? || b.Fault? then Fault
    else if a.False? || b.False? then False
    else if a.Unknown? || b.Unknown? then Unknown
    else True
  }

  function Not(a: Truth): Truth {
    match a
    case True => False
    case False => True
    case _ => a
  }

  /** One condition of a WHERE clause; k numbers its placeholder. */
  datatype Cond =
    | Compared(key: Field, op: Operator, k: int)   // key op $k
    | InList(key: Field, k: int)                   // key = ANY($k)
    | NotInList(key: Field, k: int)                // NOT (key = ANY($k))
    | Has(key: Field, k: int)                      // $k = ANY(key)
    | HasNot(key: Field, k: int)                   // NOT ($k = ANY(key))
    | SomeItems(key: Field)                        // array_length(key, 1) > 0
    | NoItems(key: Field)                          // array_length(key, 1) IS NULL OR array_length(key, 1) = 0
    | NonBlank(key: Field)                         // key IS NOT NULL AND key != ''
    | Blank(key: Field)                            // key IS NULL OR key = ''
    | NotDraft                                     // is_draft = false
    | Available                                    // available_at IS NULL OR available_at <= NOW()

  /** The argument of a list operator reaches the database as NULL. */
  predicate IsNilList(v: Value) {
    v.NoTexts? || v.NoValues? || v.Nil?
  }

  /** Only character columns can be compared with ''. */
  predicate IsCharColumn(key: Field) {
    IsTextField(key) || key in {FBody, FStatus}
  }

  /** A message the table can hold: the ID column is of type UUID and is written in the canonical spelling. */
  predicate IsRow(m: Message) {
    IsCanonical(m.id)
  }

  /** The text a value is sent as. */
  function AsText(v: Value): Value {
    match v
    case Bool(b) => Text(if b then "true" else "false")
    case Instant(t) => Text(Decimals.Print(t))
    case Uuid(b) => Text(Show(b))
    case _ => v
  }

  /** An argument as the database reads it when it is compared with the column. */
  function ReadAs(key: Field, v: Value): Value {
    if IsCharColumn(key) then AsText(v)
    else if key.FId? && v.Text? && IsUuid(v.s) then Uuid(Parse(v.s).value)
    else v
  }

  /** The row of a message. Only the two optional times can be NULL. */
  function Column(m: Message, key: Field): Value {
    match key
    case FId => ReadAs(FId, Text(m.id))
    case FOwnerId => Text(m.ownerId)
    case FSenderId => Text(m.senderId)
    case FRecipientIds => Texts(m.recipientIds)
    case FSubject => Text(m.subject)
    case FBody => Text(m.body)
    case FStatus => Text(m.status)
    case FIsRead => Bool(m.isRead)
    case FFolderId => Text(m.folderId)
    case FTags => Texts(m.tags)
    case FCreatedAt => Instant(m.createdAt)
    case FUpdatedAt => Instant(m.updatedAt)
    case FThreadId => Text(m.threadId)
    case FReplyToId => Text(m.replyToId)
    case FExternalId => Text(m.externalId)
    case FIsDraft => Bool(m.isDraft)
    case FExpiresAt => if m.expiresAt.Some? then Instant(m.expiresAt.value) else Nil
    case FAvailableAt => if m.availableAt.Some? then Instant(m.availableAt.value) else Nil
  }

  /** How an argument reaches the database: named strings as text. */
  function Bound(v: Value): Value {
    if v.StatusText? then Text(v.s) else v
  }

  predicate Ordered(op: Operator, smaller: bool, equal: bool) {
    match op
    case Eq => equal
    case Ne => !equal
    case Lt => smaller
    case Lte => smaller || equal
    case Gt => !smaller && !equal
    case Gte => !smaller
    case _ => false
  }

  function SqlCompare(op: Operator, a: Value, b: Value): Truth {
    match (a, b)
    case (Nil, _) => Unknown
    case (_, Nil) => Unknown
    case (Text(x), Text(y)) => Truly(Ordered(op, Less(x, y), x == y))
    case (Bool(x), Bool(y)) => Truly(Ordered(op, !x && y, x == y))
    case (Instant(x), Instant(y)) => Truly(Ordered(op, x < y, x == y))
    case (Uuid(x), Uuid(y)) => Truly(Ordered(op, BytesLess(x, y), x == y))
    case _ => Fault
  }

  /** v = ANY(list): false for an empty list, whatever v is. */
  function EqAny(v: Value, list: seq<Value>): Truth {
    if list == [] then False else Or(SqlCompare(Eq, v, list[0]), EqAny(v, list[1..]))
  }

  function Items(texts: seq<string>): seq<Value> {
    seq(|texts|, i requires 0 <= i < |texts| => Text(texts[i]))
  }

  function ListOf(v: Value): Option<seq<Value>> {
    match v
    case Texts(xs) => Some(Items(xs))
    case Values(vs) => Some(vs)
    case _ => None
  }

  function Param(params: seq<Value>, k: int): Option<Value> {
    if 1 <= k <= |params| then Some(Bound(params[k - 1])) else None
  }

  function ReadAll(key: Field, list: seq<Value>): (r: seq<Value>)
    ensures |r| == |list| && forall i :: 0 <= i < |list| ==> r[i] == ReadAs(key, Bound(list[i]))
  {
    seq(|list|, i requires 0 <= i < |list| => ReadAs(key, Bound(list[i])))
  }

  /** Membership in a NULL list is unknown, in a NULL column too. */
  function EvalInList(key: Field, v: Value, p: Option<Value>): Truth {
    if p.None? || v.Texts? then Fault
    else if IsNilList(p.value) then Unknown
    else if ListOf(p.value).None? then Fault
    else EqAny(v, ReadAll(key, ListOf(p.value).value))
  }

  function EvalHas(column: Value, p: Option<Value>): Truth {
    if p.None? || !column.Texts? || !(AsText(p.value).Text? || p.value.Nil?) then Fault
    else EqAny(AsText(p.value), Items(column.texts))
  }

  function Eval(c: Cond, params: seq<Value>, m: Message, now: Time): Truth {
    match c
    case Compared(key, op, k) =>
      var p := Param(params, k);
      if p.None? then Fault else SqlCompare(op, Column(m, key), ReadAs(key, p.value))
    case InList(key, k) => EvalInList(key, Column(m, key), Param(params, k))
    case NotInList(key, k) => Not(EvalInList(key, Column(m, key), Param(params, k)))
    case Has(key, k) => EvalHas(Column(m, key), Param(params, k))
    case HasNot(key, k) => Not(EvalHas(Column(m, key), Param(params, k)))
    case SomeItems(key) =>
      var v := Column(m, key);
      if !v.Texts? then Fault else if v.texts == [] then Unknown else True
    case NoItems(key) =>
      var v := Column(m, key);
      if !v.Texts? then Fault else Truly(v.texts == [])
    case NonBlank(key) => if !IsCharColumn(key) then Fault else Truly(Column(m, key) != Text(""))
    case Blank(key) => if !IsCharColumn(key) then Fault else Truly(Column(m, key) == Text(""))
    case NotDraft => Truly(!m.isDraft)
    case Available => Truly(IsAvailable(m, now))
  }

  /** A WHERE clause is the conjunction of its conditions, true when there are none. */
  function EvalAll(conds: seq<Cond>, params: seq<Value>, m: Message, now: Time): Truth {
    if conds == [] then True
    else And(EvalAll(conds[..|conds| - 1], params, m, now), Eval(conds[|conds| - 1], params, m, now))
  }

  // ---------------------------------------------------------------------
  // Compilation
  // ---------------------------------------------------------------------

  predicate TakesArgument(f: Filter) {
    !f.op.Exists?
  }

  /** The condition for a filter whose argument would be number k. */
  function CondOf(f: Filter, k: int): Cond {
    match f.op
    case In => InList(f.key, k)
    case Nin => NotInList(f.key, k)
    case Contains => Has(f.key, k)
    case Exists =>
      if IsListField(f.key) then (if f.value == Bool(true) then SomeItems(f.key) else NoItems(f.key))
      else (if f.value == Bool(true) then NonBlank(f.key) else Blank(f.key))
    case _ => Compared(f.key, f.op, k)
  }

  /** A nil comparison value is not appended, although its placeholder has been numbered. Lists are
      wrapped first and are never nil. */
  predicate Drops(f: Filter) {
    TakesArgument(f) && f.value.Nil? && !f.op.In? && !f.op.Nin?
  }

  function Numbered(filters: seq<Filter>): nat {
    if filters == [] then 0
    else Numbered(filters[..|filters| - 1]) + (if TakesArgument(filters[|filters| - 1]) then 1 else 0)
  }

  function Conds(filters: seq<Filter>, start: int): (conds: seq<Cond>)
    ensures |conds| == |filters|
  {
    if filters == [] then []
    else
      var n := |filters| - 1;
      Conds(filters[..n], start) + [CondOf(filters[n], start + Numbered(filters[..n]))]
  }

  function Args(filters: seq<Filter>): seq<Value> {
    if filters == [] then []
    else
      var n := |filters| - 1;
      Args(filters[..n]) + (if TakesArgument(filters[n]) && !Drops(filters[n]) then [filters[n].value] else [])
  }

  /** One filter: its condition, its argument if it has one, and the next number. */
  method FilterToCondition(f: Filter, argIdx: int) returns (cond: Cond, arg: Option<Value>, next: int)
    ensures cond == CondOf(f, argIdx)
    ensures arg == if TakesArgument(f) && !Drops(f) then Some(f.value) else None
    ensures next == if TakesArgument(f) then argIdx + 1 else argIdx
  {
    next := argIdx + 1;
    match f.op
    case In => return InList(f.key, argIdx), Some(f.value), next;
    case Nin => return NotInList(f.key, argIdx), Some(f.value), next;
    case Contains => return Has(f.key, argIdx), if f.value.Nil? then None else Some(f.value), next;
    case Exists =>
      if f.key == FTags || f.key == FRecipientIds {
        if f.value == Bool(true) {
          return SomeItems(f.key), None, argIdx;
        }
        return NoItems(f.key), None, argIdx;
      }
      if f.value == Bool(true) {
        return NonBlank(f.key), None, argIdx;
      }
      return Blank(f.key), None, argIdx;
    case _ => return Compared(f.key, f.op, argIdx), if f.value.Nil? then None else Some(f.value), next;
  }

  method BuildWhereClauseFrom(filters: seq<Filter>, startIdx: int) returns (conds: seq<Cond>, args: seq<Value>)
    ensures conds == Conds(filters, startIdx) && args == Args(filters)
  {
    conds, args := [], [];
    var argIdx := startIdx;
    for i := 0 to |filters|
      invariant conds == Conds(filters[..i], startIdx) && args == Args(filters[..i])
      invariant argIdx == startIdx + Numbered(filters[..i])
    {
      assert filters[..i + 1][..i] == filters[..i];
      var cond, arg, next := FilterToCondition(filters[i], argIdx);
      argIdx := next;
      conds := conds + [cond];
      if arg.Some? {
        args := args + [arg.value];
      }
    }
    assert filters[..|filters|] == filters;
  }

  // ---------------------------------------------------------------------
  // Numbering
  // ---------------------------------------------------------------------

  function Placeholder(c: Cond): seq<int> {
    match c
    case Compared(_, _, k) => [k]
    case InList(_, k) => [k]
    case NotInList(_, k) => [k]
    case Has(_, k) => [k]
    case HasNot(_, k) => [k]
    case _ => []
  }

  function Placeholders(conds: seq<Cond>): seq<int> {
    if conds == [] then [] else Placeholders(conds[..|conds| - 1]) + Placeholder(conds[|conds| - 1])
  }

  predicate NoDrops(filters: seq<Filter>) {
    forall i :: 0 <= i < |filters| ==> !Drops(filters[i])
  }

  lemma PlaceholdersMore(conds: seq<Cond>, c: Cond)
    ensures Placeholders(conds + [c]) == Placeholders(conds) + Placeholder(c)
  {
    hide Placeholder;
    assert (conds + [c])[..|conds|] == conds;
  }

  /** The placeholders of a clause, in order, are start, start + 1, ... with none skipped or repeated. */
  lemma {:induction false} PlaceholdersCountUp(filters: seq<Filter>, start: int)
    ensures |Placeholders(Conds(filters, start))| == Numbered(filters)
    ensures forall i :: 0 <= i < Numbered(filters) ==> Placeholders(Conds(filters, start))[i] == start + i
  {
    hide CondOf, TakesArgument, Placeholder, Placeholders;
    if filters == [] {
      assert Placeholders([]) == [] by {
        NoPlaceholders();
      }
    } else {
      var n := |filters| - 1;
      var k := start + Numbered(filters[..n]);
      PlaceholdersCountUp(filters[..n], start);
      PlaceholderOf(filters[n], k);
      PlaceholdersMore(Conds(filters[..n], start), CondOf(filters[n], k));
    }
  }

  lemma NoPlaceholders()
    ensures Placeholders([]) == []
  {
  }

  lemma PlaceholderOf(f: Filter, k: int)
    ensures Placeholder(CondOf(f, k)) == if TakesArgument(f) then [k] else []
  {
  }

  lemma {:induction false} ArgsCount(filters: seq<Filter>)
    ensures |Args(filters)| <= Numbered(filters)
    ensures |Args(filters)| == Numbered(filters) <==> NoDrops(filters)
  {
    if filters != [] {
      var n := |filters| - 1;
      ArgsCount(filters[..n]);
      assert filters == filters[..n] + [filters[n]];
    }
  }

  /** Every numbered filter finds its own value under its number. */
  predicate BoundRight(filters: seq<Filter>) {
    forall i :: 0 <= i < |filters| && TakesArgument(filters[i]) ==>
      Numbered(filters[..i]) < |Args(filters)| && Args(filters)[Numbered(filters[..i])] == filters[i].value
  }

  lemma {:induction false} BoundWithoutDrops(filters: seq<Filter>)
    requires NoDrops(filters)
    ensures BoundRight(filters)
  {
    if filters != [] {
      var n := |filters| - 1;
      BoundWithoutDrops(filters[..n]);
      ArgsCount(filters[..n]);
      forall i | 0 <= i < |filters| && TakesArgument(filters[i])
        ensures Numbered(filters[..i]) < |Args(filters)| && Args(filters)[Numbered(filters[..i])] == filters[i].value
      {
        if i < n {
          assert filters[..n][..i] == filters[..i];
          assert filters[..n][i] == filters[i];
        }
      }
    }
  }

  /** The last number given out belongs to some filter. */
  lemma {:induction false} LastNumber(filters: seq<Filter>) returns (i: nat)
    requires Numbered(filters) > 0
    ensures i < |filters| && TakesArgument(filters[i]) && Numbered(filters[..i]) == Numbered(filters) - 1
  {
    var n := |filters| - 1;
    if TakesArgument(filters[n]) {
      i := n;
    } else {
      i := LastNumber(filters[..n]);
      assert filters[..n][..i] == filters[..i];
    }
  }

  /** Each placeholder is bound to the value of its own filter exactly when no comparison value is nil. */
  lemma BoundRightIff(filters: seq<Filter>)
    ensures BoundRight(filters) <==> NoDrops(filters)
  {
    ArgsCount(filters);
    if NoDrops(filters) {
      BoundWithoutDrops(filters);
    } else {
      var i := LastNumber(filters);
      assert Numbered(filters[..i]) >= |Args(filters)|;
    }
  }

  // ---------------------------------------------------------------------
  // Character columns and the ID column
  // ---------------------------------------------------------------------

  /** The text a value is compared by; there is none for lists, for nil, and for IDs that are not UUIDs. */
  function Reading(key: Field, v: Value): Option<string> {
    var r := ReadAs(key, Bound(v));
    if r.Uuid? && key.FId? then Some(Show(r.bytes)) else if r.Text? && !key.FId? then Some(r.s) else None
  }

  function TextOf(m: Message, key: Field): string
    requires IsCharColumn(key) || key.FId?
  {
    if key.FId? then m.id else Column(m, key).s
  }

  predicate AllRead(key: Field, list: seq<Value>) {
    forall i :: 0 <= i < |list| ==> Reading(key, list[i]).Some? || list[i].Nil?
  }

  /** A test the database can make of the column. */
  predicate IsTest(f: Filter) {
    if IsComparison(f.op) then Reading(f.key, f.value).Some?
    else if f.op.In? || f.op.Nin? then IsNilList(f.value) || (ListOf(f.value).Some? && AllRead(f.key, ListOf(f.value).value))
    else f.op.Exists? && IsCharColumn(f.key)
  }

  predicate InReadings(key: Field, s: string, list: seq<Value>) {
    exists i :: 0 <= i < |list| && Reading(key, list[i]) == Some(s)
  }

  /** What such a test means for the text in the column; a nil list selects nothing, and neither does a nil
      among excluded values. */
  predicate Test(s: string, f: Filter)
    requires IsTest(f)
  {
    if f.op.In? then !IsNilList(f.value) && InReadings(f.key, s, ListOf(f.value).value)
    else if f.op.Nin? then
      !IsNilList(f.value) && !InReadings(f.key, s, ListOf(f.value).value) && Nil !in ListOf(f.value).value
    else if f.op.Exists? then (f.value == Bool(true)) == (s != "")
    else Ordered(f.op, Less(s, Reading(f.key, f.value).value), s == Reading(f.key, f.value).value)
  }

  /** The argument of a filter under its number. */
  function Argument(f: Filter): Option<Value> {
    if Drops(f) then None else Some(Bound(f.value))
  }

  /** One comparison: texts compare as texts, UUIDs as their canonical spellings. */
  lemma CompareReads(key: Field, m: Message, op: Operator, v: Value)
    requires (IsCharColumn(key) || (key.FId? && IsRow(m))) && !v.Nil?
    ensures SqlCompare(op, Column(m, key), ReadAs(key, Bound(v))) ==
            var r := Reading(key, v);
            if r.None? then Fault else Truly(Ordered(op, Less(TextOf(m, key), r.value), TextOf(m, key) == r.value))
  {
    hide Less, BytesLess, ParseFrom, ShowFrom, Ordered;
    var r := ReadAs(key, Bound(v));
    if key.FId? && r.Uuid? {
      ShowOrder(Parse(m.id).value, r.bytes);
    }
  }

  lemma InReadingsMore(key: Field, s: string, list: seq<Value>)
    requires list != []
    ensures InReadings(key, s, list) <==> Reading(key, list[0]) == Some(s) || InReadings(key, s, list[1..])
    ensures AllRead(key, list) <==> (Reading(key, list[0]).Some? || list[0].Nil?) && AllRead(key, list[1..])
  {
    hide Reading;
    var rest := list[1..];
    assert forall i :: 0 < i < |list| ==> list[i] == rest[i - 1];
    assert forall i :: 0 <= i < |rest| ==> rest[i] == list[i + 1];
  }

  lemma {:induction false} EqAnyReads(key: Field, m: Message, list: seq<Value>)
    requires IsCharColumn(key) || (key.FId? && IsRow(m))
    ensures EqAny(Column(m, key), ReadAll(key, list)) ==
            if !AllRead(key, list) then Fault
            else if InReadings(key, TextOf(m, key), list) then True
            else if Nil in list then Unknown
            else False
  {
    hide Reading, Column, ReadAs, TextOf, Ordered, SqlCompare, AllRead, InReadings;
    if list == [] {
      NothingRead(key, TextOf(m, key));
    } else {
      var rest, read := list[1..], ReadAll(key, list);
      EqAnyReads(key, m, rest);
      InReadingsMore(key, TextOf(m, key), list);
      FirstEqual(key, m, list[0]);
      NilUnread(key);
      assert list == [list[0]] + rest;
      assert read[1..] == ReadAll(key, rest);
      assert EqAny(Column(m, key), read) == Or(SqlCompare(Eq, Column(m, key), read[0]), EqAny(Column(m, key), read[1..]));
    }
  }

  lemma NothingRead(key: Field, s: string)
    ensures AllRead(key, []) && !InReadings(key, s, [])
  {
  }

  lemma FirstEqual(key: Field, m: Message, v: Value)
    requires IsCharColumn(key) || (key.FId? && IsRow(m))
    ensures SqlCompare(Eq, Column(m, key), ReadAs(key, Bound(v))) ==
            if v.Nil? then Unknown
            else if Reading(key, v).None? then Fault
            else Truly(Reading(key, v) == Some(TextOf(m, key)))
  {
    hide Less, Column, TextOf, Reading, ReadAs, SqlCompare, IsCharColumn, IsCanonical;
    if v.Nil? {
      NilCompares(key, m);
    } else {
      CompareReads(key, m, Eq, v);
    }
  }

  lemma NilCompares(key: Field, m: Message)
    ensures SqlCompare(Eq, Column(m, key), ReadAs(key, Nil)) == Unknown
  {
    hide Column, Parse, Show, Less, BytesLess;
  }

  lemma ListColumnIs(f: Filter, m: Message, params: seq<Value>, k: int, now: Time)
    requires (IsCharColumn(f.key) || (f.key.FId? && IsRow(m))) && (f.op.In? || f.op.Nin?) && Param(params, k) == Some(Bound(f.value))
    ensures var t := Eval(CondOf(f, k), params, m, now);
            && (t.Fault? <==> !IsTest(f))
            && (t.True? <==> IsTest(f) && Test(TextOf(m, f.key), f))
  {
    hide Reading, ReadAs, EqAny, AllRead, InReadings, Param, Column, TextOf, IsCharColumn, IsCanonical;
    ColumnNotList(f.key, m);
    if ListOf(f.value).Some? {
      EqAnyReads(f.key, m, ListOf(f.value).value);
    }
  }

  /** The database fails on a test it cannot make, and otherwise selects exactly what the test says. */
  lemma ColumnIs(f: Filter, m: Message, params: seq<Value>, k: int, now: Time)
    requires IsCharColumn(f.key) || (f.key.FId? && IsRow(m))
    requires TakesArgument(f) ==> Param(params, k) == Argument(f)
    ensures var t := Eval(CondOf(f, k), params, m, now);
            && (t.Fault? <==> !IsTest(f))
            && (t.True? <==> IsTest(f) && Test(TextOf(m, f.key), f))
  {
    hide Reading, ReadAs, SqlCompare, EvalInList, AllRead, InReadings, Param, Column, TextOf, IsCanonical;
    if f.op.In? || f.op.Nin? {
      ListColumnIs(f, m, params, k, now);
    } else if IsComparison(f.op) {
      if f.value.Nil? {
        NilUnread(f.key);
      } else {
        CompareReads(f.key, m, f.op, f.value);
      }
    } else {
      ColumnNotList(f.key, m);
    }
  }

  lemma ColumnNotList(key: Field, m: Message)
    requires IsCharColumn(key) || (key.FId? && IsRow(m))
    ensures !Column(m, key).Texts? && (IsCharColumn(key) ==> Column(m, key) == Text(TextOf(m, key)))
  {
    hide Parse, Show, IsCanonical;
    if key.FId? {
      IdColumn(m);
    }
  }

  lemma IdColumn(m: Message)
    ensures !Column(m, FId).Texts?
  {
    hide Parse, Show;
  }

  lemma NilUnread(key: Field)
    ensures Reading(key, Nil).None?
  {
  }

  // ---------------------------------------------------------------------
  // The compiled clause selects what the memory store accepts
  // ---------------------------------------------------------------------

  predicate IsTextList(v: Value) {
    v.Texts? || (v.Values? && forall i :: 0 <= i < |v.values| ==> v.values[i].Text?)
  }

  predicate IsTimeList(v: Value) {
    v.Values? && forall i :: 0 <= i < |v.values| ==> v.values[i].Instant?
  }

  /** Text and time comparisons and lists, flags, items of lists, and existence of text. */
  predicate Supported(f: Filter) {
    if IsTextField(f.key) || f.key.FId? then
      (IsComparison(f.op) && f.value.Text?) || (f.op.In? && IsNilList(f.value)) ||
      ((f.op.In? || f.op.Nin?) && IsTextList(f.value)) || (f.op.Exists? && !f.key.FId?)
    else if IsTimeField(f.key) then
      (IsComparison(f.op) && f.value.Instant?) || (f.op.In? && (IsTimeList(f.value) || IsNilList(f.value))) ||
      (f.op.Nin? && IsTimeList(f.value) && (f.value.values != [] || f.key in {FCreatedAt, FUpdatedAt}))
    else if IsFlagField(f.key) then
      (f.op.Eq? || f.op.Ne?) && f.value.Bool?
    else if IsListField(f.key) then
      (f.op.Contains? && f.value.Text?) || f.op.Exists?
    else false
  }

  /** The canonical spelling of a UUID; any other text as it is. */
  function Respelled(s: string): string {
    if IsUuid(s) then Canonical(s) else s
  }

  function RespelledTexts(texts: seq<string>): (r: seq<string>)
    ensures |r| == |texts| && forall i :: 0 <= i < |texts| ==> r[i] == Respelled(texts[i])
  {
    seq(|texts|, i requires 0 <= i < |texts| => Respelled(texts[i]))
  }

  function RespelledValues(list: seq<Value>): (r: seq<Value>)
    ensures |r| == |list| && forall i :: 0 <= i < |list| ==> r[i] == if list[i].Text? then Text(Respelled(list[i].s)) else list[i]
  {
    seq(|list|, i requires 0 <= i < |list| => if list[i].Text? then Text(Respelled(list[i].s)) else list[i])
  }

  function RespelledValue(v: Value): Value {
    match v
    case Text(s) => Text(Respelled(s))
    case Texts(texts) => Texts(RespelledTexts(texts))
    case Values(list) => Values(RespelledValues(list))
    case _ => v
  }

  /** The filter with IDs in their canonical spelling. */
  function Normalized(f: Filter): Filter {
    if f.key.FId? then f.(value := RespelledValue(f.value)) else f
  }

  function NormalizedAll(filters: seq<Filter>): (r: seq<Filter>)
    ensures |r| == |filters| && forall i :: 0 <= i < |filters| ==> r[i] == Normalized(filters[i])
  {
    seq(|filters|, i requires 0 <= i < |filters| => Normalized(filters[i]))
  }

  /** Every ID the filter compares with is a UUID. */
  predicate Readable(f: Filter) {
    f.key.FId? ==> IsTest(f)
  }

  predicate AllReadable(filters: seq<Filter>) {
    forall i :: 0 <= i < |filters| ==> Readable(filters[i])
  }

  /** Every ID the filters compare with is a UUID in its canonical spelling. */
  predicate CanonicalIds(filters: seq<Filter>) {
    AllReadable(filters) && NormalizedAll(filters) == filters
  }

  lemma {:induction false} EqAnyIsMember(v: Value, list: seq<Value>)
    requires forall i :: 0 <= i < |list| ==> SqlCompare(Eq, v, list[i]) == Truly(v == list[i])
    ensures EqAny(v, list) == Truly(v in list)
  {
    if list != [] {
      EqAnyIsMember(v, list[1..]);
      assert v in list <==> v == list[0] || v in list[1..];
    }
  }

  lemma {:induction false} EqAnyOfNull(list: seq<Value>)
    ensures EqAny(Nil, list) == if list == [] then False else Unknown
  {
    if list != [] {
      EqAnyOfNull(list[1..]);
    }
  }

  lemma ItemsMember(x: string, texts: seq<string>)
    ensures Text(x) in Items(texts) <==> x in texts
  {
    if x in texts {
      var i :| 0 <= i < |texts| && texts[i] == x;
      assert Items(texts)[i] == Text(x);
    }
  }

  /** Among plain texts a text column finds itself. */
  lemma TextListReads(key: Field, s: string, v: Value)
    requires IsCharColumn(key) && IsTextList(v)
    ensures AllRead(key, ListOf(v).value) && Nil !in ListOf(v).value
    ensures InReadings(key, s, ListOf(v).value) <==> ValueInSet(Text(s), v)
  {
    var list := ListOf(v).value;
    assert forall i :: 0 <= i < |list| ==> list[i].Text? && Reading(key, list[i]) == Some(list[i].s);
    if v.Texts? {
      ItemsMember(s, v.texts);
    }
    if Text(s) in list {
      var i :| 0 <= i < |list| && list[i] == Text(s);
      assert Reading(key, list[i]) == Some(s);
    }
  }

  lemma TextAgrees(f: Filter, m: Message, params: seq<Value>, k: int, now: Time)
    requires Supported(f) && IsTextField(f.key) && (TakesArgument(f) ==> Param(params, k) == Some(f.value))
    ensures Eval(CondOf(f, k), params, m, now).True? <==> MatchesFilter(m, f)
    ensures !Eval(CondOf(f, k), params, m, now).Fault?
  {
    hide Eval, CondOf, InReadings, AllRead, Param;
    SupportedArgument(f);
    ColumnIs(f, m, params, k, now);
    var s := TextOf(m, f.key);
    assert MemoryValue(m, f.key) == Text(s);
    if (f.op.In? || f.op.Nin?) && IsTextList(f.value) {
      TextListReads(f.key, s, f.value);
    } else if IsComparison(f.op) {
      Trichotomy(s, f.value.s);
    }
  }

  /** Among UUIDs in any spelling an ID is found exactly when it is among their canonical spellings. */
  lemma IdListReads(id: string, v: Value)
    requires IsCanonical(id) && IsTextList(v)
    ensures AllRead(FId, ListOf(v).value) ==>
              (InReadings(FId, id, ListOf(v).value) <==> ValueInSet(Text(id), RespelledValue(v)))
    ensures Nil !in ListOf(v).value
  {
    hide Parse, Show;
    var list, norm := ListOf(v).value, RespelledValue(v);
    forall i | 0 <= i < |list| && AllRead(FId, list)
      ensures list[i].Text? && Reading(FId, list[i]) == Some(Respelled(list[i].s))
    {
      assert Reading(FId, list[i]).Some?;
    }
    if AllRead(FId, list) {
      if InReadings(FId, id, list) {
        var i :| 0 <= i < |list| && Reading(FId, list[i]) == Some(id);
        assert if v.Texts? then norm.texts[i] == id else norm.values[i] == Text(id);
      }
      if ValueInSet(Text(id), norm) {
        var i :| 0 <= i < |list| && if v.Texts? then norm.texts[i] == id else norm.values[i] == Text(id);
        assert Reading(FId, list[i]) == Some(id);
      }
    }
  }

  /** An ID filter fails exactly on a text that is no UUID, and otherwise selects what the memory store accepts
      for the canonical spellings. */
  lemma IdAgrees(f: Filter, m: Message, params: seq<Value>, k: int, now: Time)
    requires Supported(f) && f.key.FId? && IsRow(m) && (TakesArgument(f) ==> Param(params, k) == Some(f.value))
    ensures var t := Eval(CondOf(f, k), params, m, now);
            && (t.Fault? <==> !Readable(f))
            && (Readable(f) ==> (t.True? <==> MatchesFilter(m, Normalized(f))))
  {
    hide Eval, CondOf, InReadings, AllRead, ParseFrom, ShowFrom, Param;
    SupportedArgument(f);
    ColumnIs(f, m, params, k, now);
    if (f.op.In? || f.op.Nin?) && IsTextList(f.value) {
      IdListReads(m.id, f.value);
    } else if IsComparison(f.op) {
      Trichotomy(m.id, Respelled(f.value.s));
    }
  }

  /** A list of the column's own type is read as it is. */
  lemma ReadsSame(key: Field, list: seq<Value>)
    requires !IsCharColumn(key) && !key.FId? && forall i :: 0 <= i < |list| ==> !list[i].StatusText?
    ensures ReadAll(key, list) == list
  {
  }

  lemma TimeAgrees(f: Filter, m: Message, params: seq<Value>, k: int, now: Time)
    requires Supported(f) && IsTimeField(f.key) && Param(params, k) == Some(f.value)
    ensures Eval(CondOf(f, k), params, m, now).True? <==> MatchesFilter(m, f)
    ensures !Eval(CondOf(f, k), params, m, now).Fault?
  {
    hide ReadAll;
    var v := MemoryValue(m, f.key);
    assert v == Column(m, f.key);
    if (f.op.In? || f.op.Nin?) && IsTimeList(f.value) {
      ReadsSame(f.key, f.value.values);
      if v.Nil? {
        EqAnyOfNull(f.value.values);
      } else {
        EqAnyIsMember(v, f.value.values);
      }
    }
  }

  lemma ListAgrees(f: Filter, m: Message, params: seq<Value>, k: int, now: Time)
    requires Supported(f) && IsListField(f.key) && (TakesArgument(f) ==> Param(params, k) == Some(f.value))
    ensures Eval(CondOf(f, k), params, m, now).True? <==> MatchesFilter(m, f)
    ensures !Eval(CondOf(f, k), params, m, now).Fault?
  {
    var items := if f.key.FTags? then m.tags else m.recipientIds;
    if f.op.Contains? {
      EqAnyIsMember(f.value, Items(items));
      ItemsMember(f.value.s, items);
    }
  }

  /** One supported filter. */
  lemma ConditionAgrees(f: Filter, m: Message, params: seq<Value>, k: int, now: Time)
    requires Supported(f) && IsRow(m) && (TakesArgument(f) ==> Param(params, k) == Some(f.value))
    ensures var t := Eval(CondOf(f, k), params, m, now);
            && (t.Fault? <==> !Readable(f))
            && (Readable(f) ==> (t.True? <==> MatchesFilter(m, Normalized(f))))
  {
    hide IsTest, ParseFrom, ShowFrom;
    if f.key.FId? {
      IdAgrees(f, m, params, k, now);
    } else if IsTextField(f.key) {
      TextAgrees(f, m, params, k, now);
    } else if IsTimeField(f.key) {
      TimeAgrees(f, m, params, k, now);
    } else if IsListField(f.key) {
      ListAgrees(f, m, params, k, now);
    }
  }

  lemma SupportedArgument(f: Filter)
    requires Supported(f)
    ensures !Drops(f) && (TakesArgument(f) ==> Bound(f.value) == f.value)
  {
  }
  /** Every numbered filter finds its value among the parameters of the query. */
  predicate InPlace(filters: seq<Filter>, start: int, params: seq<Value>) {
    forall i :: 0 <= i < |filters| && TakesArgument(filters[i]) ==>
      Param(params, start + Numbered(filters[..i])) == Some(filters[i].value)
  }

  lemma ArgsInPlace(filters: seq<Filter>, before: seq<Value>, after: seq<Value>)
    requires forall i :: 0 <= i < |filters| ==> Supported(filters[i])
    ensures InPlace(filters, |before| + 1, before + Args(filters) + after)
  {
    hide Supported, Args, TakesArgument, Drops;
    forall i | 0 <= i < |filters| ensures !Drops(filters[i]) && (TakesArgument(filters[i]) ==> Bound(filters[i].value) == filters[i].value) {
      SupportedArgument(filters[i]);
    }
    BoundWithoutDrops(filters);
  }

  lemma InPlaceFront(filters: seq<Filter>, start: int, params: seq<Value>)
    requires filters != [] && InPlace(filters, start, params)
    ensures InPlace(filters[..|filters| - 1], start, params)
  {
    hide Numbered, Param, TakesArgument;
    var front := filters[..|filters| - 1];
    forall i | 0 <= i < |front| && TakesArgument(front[i])
      ensures Param(params, start + Numbered(front[..i])) == Some(front[i].value)
    {
      assert front[..i] == filters[..i] && front[i] == filters[i];
    }
  }

  lemma InPlaceLast(filters: seq<Filter>, start: int, params: seq<Value>)
    requires filters != [] && InPlace(filters, start, params)
    ensures var n := |filters| - 1;
            TakesArgument(filters[n]) ==> Param(params, start + Numbered(filters[..n])) == Some(filters[n].value)
  {
  }

  lemma NoConditions(m: Message, start: int, params: seq<Value>, now: Time)
    ensures EvalAll(Conds([], start), params, m, now).True? && AllReadable([]) && MatchesFilters(m, NormalizedAll([]))
  {
  }

  lemma LastCondition(filters: seq<Filter>, m: Message, start: int, params: seq<Value>, now: Time)
    requires filters != []
    ensures var n := |filters| - 1;
            EvalAll(Conds(filters, start), params, m, now) ==
            And(EvalAll(Conds(filters[..n], start), params, m, now),
                Eval(CondOf(filters[n], start + Numbered(filters[..n])), params, m, now))
  {
    hide Eval, CondOf, Numbered, And, EvalAll;
    var n := |filters| - 1;
    var last := CondOf(filters[n], start + Numbered(filters[..n]));
    EvalAllMore(Conds(filters[..n], start), last, params, m, now);
  }

  lemma EvalAllMore(conds: seq<Cond>, c: Cond, params: seq<Value>, m: Message, now: Time)
    ensures EvalAll(conds + [c], params, m, now) == And(EvalAll(conds, params, m, now), Eval(c, params, m, now))
  {
    hide Eval, And;
    assert (conds + [c])[..|conds|] == conds;
  }

  lemma FrontNormal(filters: seq<Filter>)
    requires filters != []
    ensures var n := |filters| - 1;
            && NormalizedAll(filters)[..n] == NormalizedAll(filters[..n])
            && (AllReadable(filters) <==> AllReadable(filters[..n]) && Readable(filters[n]))
  {
    hide Normalized, Readable;
    assert filters == filters[..|filters| - 1] + [filters[|filters| - 1]];
  }

  lemma LastMatches(filters: seq<Filter>, m: Message)
    requires filters != []
    ensures var n := |filters| - 1;
            MatchesFilters(m, filters) <==> MatchesFilters(m, filters[..n]) && MatchesFilter(m, filters[n])
  {
    hide MatchesFilter;
    assert filters == filters[..|filters| - 1] + [filters[|filters| - 1]];
  }

  lemma {:induction false} ClauseAgreesInPlace(filters: seq<Filter>, m: Message, start: int, params: seq<Value>, now: Time)
    requires InPlace(filters, start, params) && IsRow(m) && forall i :: 0 <= i < |filters| ==> Supported(filters[i])
    ensures var t := EvalAll(Conds(filters, start), params, m, now);
            && (t.Fault? <==> !AllReadable(filters))
            && (AllReadable(filters) ==> (t.True? <==> MatchesFilters(m, NormalizedAll(filters))))
  {
    hide EvalAll, Conds, MatchesFilters, Numbered, Eval, CondOf, MatchesFilter, Supported, TakesArgument, Param, Normalized, Readable,
      AllReadable, IsRow, InPlace, NormalizedAll;
    if filters == [] {
      NoConditions(m, start, params, now);
    } else {
      var n := |filters| - 1;
      InPlaceFront(filters, start, params);
      ClauseAgreesInPlace(filters[..n], m, start, params, now);
      InPlaceLast(filters, start, params);
      ConditionAgrees(filters[n], m, params, start + Numbered(filters[..n]), now);
      LastCondition(filters, m, start, params, now);
      FrontNormal(filters);
      LastMatches(NormalizedAll(filters), m);
    }
  }

  /** For every list of supported filters the compiled clause, with its arguments in place after any
      others, fails on a row exactly when some ID is compared with a text that is no UUID. Otherwise it is true
      of exactly the messages the memory store accepts with those IDs in their canonical spelling. */
  lemma ClauseAgrees(filters: seq<Filter>, m: Message, before: seq<Value>, after: seq<Value>, now: Time)
    requires IsRow(m) && forall i :: 0 <= i < |filters| ==> Supported(filters[i])
    ensures var t := EvalAll(Conds(filters, |before| + 1), before + Args(filters) + after, m, now);
            && (t.Fault? <==> !AllReadable(filters))
            && (AllReadable(filters) ==> (t.True? <==> MatchesFilters(m, NormalizedAll(filters))))
            && (CanonicalIds(filters) ==> !t.Fault? && (t.True? <==> MatchesFilters(m, filters)))
  {
    ArgsInPlace(filters, before, after);
    ClauseAgreesInPlace(filters, m, |before| + 1, before + Args(filters) + after, now);
  }

  // ---------------------------------------------------------------------
  // One filter in both stores
  // ---------------------------------------------------------------------

  /** The query does not fail, and accepts the message exactly when the memory store does. */
  predicate Agrees(f: Filter, m: Message) {
    var t := Eval(CondOf(f, 1), Args([f]), m, 0);
    !t.Fault? && (t.True? <==> MatchesFilter(m, f))
  }

  lemma OneArgument(f: Filter)
    ensures Args([f]) == if TakesArgument(f) && !Drops(f) then [f.value] else []
    ensures TakesArgument(f) ==> Param(Args([f]), 1) == Argument(f)
  {
    assert [f][..0] == [];
  }

  lemma AgreesIs(f: Filter, m: Message)
    requires IsCharColumn(f.key) || (f.key.FId? && IsRow(m))
    ensures Agrees(f, m) <==> IsTest(f) && (Test(TextOf(m, f.key), f) <==> MatchesFilter(m, f))
  {
    hide Eval, CondOf, Args, IsTest, Test, MatchesFilter, TextOf;
    OneArgument(f);
    ColumnIs(f, m, Args([f]), 1, 0);
  }

  /** The stores agree on an ID exactly when the database can read the filter and its canonical spellings make no
      difference. For plain texts: a UUID that is not another spelling of this ID; an order that the
      spelling does not change; a list of UUIDs that holds this ID itself if it holds any spelling of it. */
  lemma IdAgreesIff(f: Filter, m: Message)
    requires f.key.FId? && IsRow(m)
    ensures Agrees(f, m) <==> IsTest(f) && (Test(m.id, f) <==> MatchesScalar(Text(m.id), f.op, f.value))
    ensures f.value.Text? && (f.op.Eq? || f.op.Ne?) ==>
              (Agrees(f, m) <==> IsUuid(f.value.s) && (f.value.s == m.id || Respelled(f.value.s) != m.id))
    ensures f.value.Text? && (f.op.Lt? || f.op.Gte?) ==>
              (Agrees(f, m) <==> IsUuid(f.value.s) && (Less(m.id, f.value.s) <==> Less(m.id, Respelled(f.value.s))))
    ensures f.value.Text? && (f.op.Gt? || f.op.Lte?) ==>
              (Agrees(f, m) <==> IsUuid(f.value.s) && (Less(f.value.s, m.id) <==> Less(Respelled(f.value.s), m.id)))
    ensures IsTextList(f.value) && (f.op.In? || f.op.Nin?) ==>
              (Agrees(f, m) <==>
                && Readable(f)
                && (ValueInSet(Text(m.id), f.value) || !ValueInSet(Text(m.id), RespelledValue(f.value))))
    ensures IsNilList(f.value) ==> (f.op.In? ==> Agrees(f, m)) && (f.op.Nin? ==> !Agrees(f, m))
    ensures f.op.Exists? || f.op.Contains? ==> !Agrees(f, m)
  {
    hide Agrees, AllRead, InReadings, ParseFrom, ShowFrom, Less;
    AgreesIs(f, m);
    if f.value.Text? && IsComparison(f.op) {
      IdOrder(f.value.s, m.id);
    }
    if IsTextList(f.value) && (f.op.In? || f.op.Nin?) {
      IdListReads(m.id, f.value);
      ListedStays(m.id, f.value);
    }
  }

  lemma IdOrder(s: string, id: string)
    requires IsCanonical(id)
    ensures s == id ==> IsUuid(s) && Canonical(s) == id
    ensures Less(id, s) || id == s || Less(s, id)
    ensures !(Less(id, s) && Less(s, id)) && !Less(id, id)
    ensures IsUuid(s) ==> Less(id, Canonical(s)) || id == Canonical(s) || Less(Canonical(s), id)
    ensures IsUuid(s) ==> !(Less(id, Canonical(s)) && Less(Canonical(s), id))
  {
    hide ParseFrom, ShowFrom, Less;
    Trichotomy(id, s);
    Trichotomy(id, Respelled(s));
  }

  lemma ListedStays(id: string, v: Value)
    requires IsCanonical(id) && IsTextList(v)
    ensures ValueInSet(Text(id), v) ==> ValueInSet(Text(id), RespelledValue(v))
  {
    hide ParseFrom, ShowFrom;
    var norm := RespelledValue(v);
    if ValueInSet(Text(id), v) {
      if v.Texts? {
        var i :| 0 <= i < |v.texts| && v.texts[i] == id;
        assert norm.texts[i] == id;
      } else {
        var i :| 0 <= i < |v.values| && v.values[i] == Text(id);
        assert norm.values[i] == Text(id);
      }
    }
  }

  function BlankRow(id: Id): Message {
    Message(id, "", "", [], "", "", "", false, None, "", [], [], "", "", "", false, 0, 0, None, None)
  }

  /** The UUIDs a filter compares with, as values. */
  function IdValues(v: Value): seq<Value> {
    if ListOf(v).Some? then ListOf(v).value else [v]
  }

  /** Equality and lists agree on every row exactly when each text is a UUID and comes with its canonical
      spelling. */
  lemma IdAgreesEverywhereIff(f: Filter)
    requires f.key.FId?
    requires ((f.op.Eq? || f.op.Ne?) && f.value.Text?) || ((f.op.In? || f.op.Nin?) && IsTextList(f.value))
    ensures (forall m :: IsRow(m) ==> Agrees(f, m)) <==>
            forall v :: v in IdValues(f.value) ==> IsUuid(v.s) && Text(Canonical(v.s)) in IdValues(f.value)
  {
    hide Agrees, ParseFrom, ShowFrom;
    forall v | v in IdValues(f.value) ensures v.Text? {
    }
    if forall m :: IsRow(m) ==> Agrees(f, m) {
      forall v | v in IdValues(f.value) ensures IsUuid(v.s) && Text(Canonical(v.s)) in IdValues(f.value) {
        IdValueNeeded(f, v);
      }
    }
    if forall v :: v in IdValues(f.value) ==> IsUuid(v.s) && Text(Canonical(v.s)) in IdValues(f.value) {
      forall m | IsRow(m) ensures Agrees(f, m) {
        IdValuesSuffice(f, m);
      }
    }
  }

  lemma ValueSetIs(s: string, v: Value)
    requires IsTextList(v)
    ensures ValueInSet(Text(s), v) <==> Text(s) in ListOf(v).value
  {
    if v.Texts? {
      ItemsMember(s, v.texts);
    }
  }

  lemma IdValueNeeded(f: Filter, v: Value)
    requires f.key.FId? && v in IdValues(f.value) && forall m :: IsRow(m) ==> Agrees(f, m)
    requires ((f.op.Eq? || f.op.Ne?) && f.value.Text?) || ((f.op.In? || f.op.Nin?) && IsTextList(f.value))
    ensures v.Text? && IsUuid(v.s) && Text(Canonical(v.s)) in IdValues(f.value)
  {
    hide Agrees, Parse, Show, Less, Test, MatchesScalar, RespelledValue, IsCanonical;
    var m0 := SomeRow();
    IdAgreesIff(f, m0);
    var i :| 0 <= i < |IdValues(f.value)| && IdValues(f.value)[i] == v;
    assert Reading(FId, v).Some?;
    var c := Canonical(v.s);
    ParseShow(Parse(v.s).value);
    var m := BlankRow(c);
    assert IsRow(m);
    IdAgreesIff(f, m);
    if IsTextList(f.value) {
      var list := ListOf(f.value).value;
      assert Reading(FId, list[i]) == Some(c);
      IdListReads(c, f.value);
      ValueSetIs(c, f.value);
    }
  }

  lemma SpelledReads(id: string, list: seq<Value>)
    requires forall v :: v in list ==> v.Text? && IsUuid(v.s) && Text(Canonical(v.s)) in list
    ensures AllRead(FId, list) && (InReadings(FId, id, list) ==> Text(id) in list)
  {
    hide Parse, Show;
    forall i | 0 <= i < |list| ensures Reading(FId, list[i]) == Some(Canonical(list[i].s)) && Text(Canonical(list[i].s)) in list {
      assert list[i] in list;
    }
  }

  lemma IdValuesSuffice(f: Filter, m: Message)
    requires f.key.FId? && IsRow(m)
    requires ((f.op.Eq? || f.op.Ne?) && f.value.Text?) || ((f.op.In? || f.op.Nin?) && IsTextList(f.value))
    requires forall v :: v in IdValues(f.value) ==> v.Text? && IsUuid(v.s) && Text(Canonical(v.s)) in IdValues(f.value)
    ensures Agrees(f, m)
  {
    hide Agrees, Parse, Show, Less, AllRead, InReadings, Reading, RespelledValue, Test, ValueInSet, MatchesScalar;
    IdAgreesIff(f, m);
    if IsTextList(f.value) {
      var list := ListOf(f.value).value;
      SpelledReads(m.id, list);
      IdListReads(m.id, f.value);
      ValueSetIs(m.id, f.value);
    } else {
      assert f.value in IdValues(f.value);
    }
  }

  lemma SomeRow() returns (m: Message)
    ensures IsRow(m)
  {
    ParseShow(seq(LENGTH, _ => 0));
    m := BlankRow(Show(seq(LENGTH, _ => 0)));
  }

  /** A text that is no UUID fails the query, where the memory store just accepts nothing. */
  lemma BadIdFails(m: Message)
    requires IsRow(m)
    ensures var f := Filter(FId, Eq, Text("not-a-uuid"));
            Eval(CondOf(f, 1), Args([f]), m, 0).Fault? && !MatchesFilter(m, f)
  {
    hide Parse, Show, Args;
    var f := Filter(FId, Eq, Text("not-a-uuid"));
    OneArgument(f);
    NoUuid("not-a-uuid");
    ColumnIs(f, m, Args([f]), 1, 0);
  }

  /** Every row has an ID that the database finds under another spelling and the memory store does not. */
  lemma OtherSpellingDiffers(m: Message)
    requires IsRow(m)
    ensures var f := Filter(FId, In, Texts(["{" + m.id + "}"]));
            Eval(CondOf(f, 1), Args([f]), m, 0).True? && !MatchesFilter(m, f)
  {
    hide ParseFrom, ShowFrom;
    var s := "{" + m.id + "}";
    var f := Filter(FId, In, Texts([s]));
    Braced(m.id);
    OneArgument(f);
    ColumnIs(f, m, Args([f]), 1, 0);
    assert Items([s])[0] == Text(s) && Reading(FId, Items([s])[0]) == Some(m.id);
  }

  /** In memory a filter on the body is skipped, so the stores agree on a message exactly when the database
      can make the test and the body passes it. */
  lemma BodyAgreesIff(f: Filter, m: Message)
    requires f.key.FBody?
    ensures Agrees(f, m) <==> IsTest(f) && Test(m.body, f)
    ensures f.value.Text? && f.op.Eq? ==> (Agrees(f, m) <==> m.body == f.value.s)
    ensures f.value.Bool? && f.op.Eq? ==> (Agrees(f, m) <==> m.body == if f.value.b then "true" else "false")
  {
    hide Agrees, Less;
    AgreesIs(f, m);
  }

  /** In memory the status equals only values of the status type and is ordered against none: equality with
      plain text, and membership among plain texts, never hold there. */
  predicate MemoryStatus(status: string, op: Operator, value: Value) {
    match op
    case Eq => value == StatusText(status)
    case Ne => value != StatusText(status)
    case In => value.Values? && StatusText(status) in value.values
    case Nin => !(value.Values? && StatusText(status) in value.values)
    case Exists => value == Bool(true)
    case Lt => false
    case Gt => false
    case _ => true
  }

  /** The stores agree on the status exactly when the database's test comes out as the memory store's. For plain
      text that is: (in)equality with another text, an order the text happens to have, a list without the
      status, and existence for a non-empty status. */
  lemma StatusAgreesIff(f: Filter, m: Message)
    requires f.key.FStatus?
    ensures Agrees(f, m) <==> IsTest(f) && (Test(m.status, f) <==> MemoryStatus(m.status, f.op, f.value))
    ensures f.value.Text? && (f.op.Eq? || f.op.Ne?) ==> (Agrees(f, m) <==> m.status != f.value.s)
    ensures f.value.Text? && (f.op.Lt? || f.op.Gte?) ==> (Agrees(f, m) <==> !Less(m.status, f.value.s))
    ensures f.value.Text? && (f.op.Gt? || f.op.Lte?) ==> (Agrees(f, m) <==> !Less(f.value.s, m.status))
    ensures f.value.Texts? && (f.op.In? || f.op.Nin?) ==> (Agrees(f, m) <==> m.status !in f.value.texts)
    ensures f.op.Exists? ==> (Agrees(f, m) <==> m.status != "")
    ensures f.value.StatusText? && (f.op.Eq? || f.op.Ne?) ==> Agrees(f, m)
  {
    hide Agrees, InReadings, AllRead, Less;
    AgreesIs(f, m);
    if f.value.Text? {
      Trichotomy(m.status, f.value.s);
    }
    if f.value.Texts? {
      TextListReads(FStatus, m.status, f.value);
    }
  }

  /** Existence of a time cannot be asked of the database at all. */
  lemma TimeExistsFaults(f: Filter, m: Message, params: seq<Value>, k: int, now: Time)
    requires IsTimeField(f.key) && f.op.Exists?
    ensures Eval(CondOf(f, k), params, m, now).Fault?
    ensures MatchesFilter(m, f) <==> (f.value == Bool(true)) != MemoryValue(m, f.key).Nil?
  {
  }

  /** A nil list, or a list of values of the field's type and nils. */
  predicate ListFits(key: Field, v: Value) {
    || IsNilList(v)
    || (v.Texts? && IsTextField(key))
    || (v.Values? && forall i :: 0 <= i < |v.values| ==>
          || v.values[i].Nil?
          || (if IsTextField(key) then v.values[i].Text? else if IsTimeField(key) then v.values[i].Instant? else v.values[i].Bool?))
  }

  lemma {:induction false} EqAnyAmong(v: Value, list: seq<Value>)
    requires v.Text? || v.Instant? || v.Bool?
    requires forall i :: 0 <= i < |list| ==>
               || list[i].Nil?
               || (if v.Text? then list[i].Text? else if v.Instant? then list[i].Instant? else list[i].Bool?)
    ensures EqAny(v, list) == if v in list then True else if Nil in list then Unknown else False
  {
    if list != [] {
      EqAnyAmong(v, list[1..]);
      assert list == [list[0]] + list[1..];
    }
  }

  lemma ReadsOwn(key: Field, v: Value)
    requires (IsTextField(key) || IsTimeField(key) || IsFlagField(key)) && ListFits(key, v) && !IsNilList(v)
    ensures ReadAll(key, ListOf(v).value) == ListOf(v).value
  {
    hide Parse, Show;
    var list := ListOf(v).value;
    forall i | 0 <= i < |list| ensures ReadAs(key, Bound(list[i])) == list[i] {
    }
  }

  /** Excluding a list of values: a nil list is NULL and selects nothing, where the memory store accepts every
      message that has a value; a nil among the values has the same effect on the messages not excluded; an
      empty list selects the messages without a time, which the memory store never accepts; and a list
      field cannot be tested so at all. In all other cases the stores agree. */
  lemma NotInAgreesIff(f: Filter, m: Message)
    requires f.op.Nin?
    requires ((IsTextField(f.key) || IsTimeField(f.key) || IsFlagField(f.key)) && ListFits(f.key, f.value)) || IsListField(f.key)
    ensures Agrees(f, m) <==>
            var v := MemoryValue(m, f.key);
            && !IsListField(f.key)
            && if IsNilList(f.value) then v.Nil?
               else if v.Nil? then ListOf(f.value).value != []
               else v in ListOf(f.value).value || Nil !in ListOf(f.value).value
  {
    hide Args, Parse, Show, Less, BytesLess, ReadAll, ReadAs, Param, EqAny, SqlCompare;
    OneArgument(f);
    if !IsListField(f.key) && !IsNilList(f.value) {
      var v, list := MemoryValue(m, f.key), ListOf(f.value).value;
      assert Column(m, f.key) == v;
      ReadsOwn(f.key, f.value);
      if v.Nil? {
        EqAnyOfNull(list);
      } else {
        EqAnyAmong(v, list);
      }
      if f.value.Texts? {
        ItemsMember(v.s, f.value.texts);
      }
    }
  }
}
