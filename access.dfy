/**
 * Access-rule evaluation: which rules are active, whether a rule matches a video, and the
 * query condition a rule turns into on the catalog path. Both paths read a scope field that
 * is unset, null or 0 as a wildcard.
 */
module Access {
  import opened Wrappers
  import opened Models

  // ---------------------------------------------------------------------------
  // Active rules

  /** The store query `{ user, expiresAt: { $gt: now } }`, in table order; `isPermanent` plays no part. */
  function ActiveRules(table: seq<AccessRule>, user: Id, now: Timestamp): (r: seq<AccessRule>)
    ensures forall x :: x in r <==> x in table && x.user == user && x.expiresAt > now
    ensures |r| <= |table|
  {
    if table == [] then []
    else
      var rest := ActiveRules(table[1..], user, now);
      if table[0].user == user && table[0].expiresAt > now then [table[0]] + rest else rest
  }

  lemma {:induction false} ActiveRulesAppend(a: seq<AccessRule>, b: seq<AccessRule>, user: Id, now: Timestamp)
    ensures ActiveRules(a + b, user, now) == ActiveRules(a, user, now) + ActiveRules(b, user, now)
  {
    if a == [] {
      assert a + b == b;
    } else {
      assert (a + b)[0] == a[0] && (a + b)[1..] == a[1..] + b;
      ActiveRulesAppend(a[1..], b, user, now);
    }
  }

  /** A permanent rule whose expiry has passed is not active: permanence is never consulted. */
  lemma PermanentRuleStillExpires(table: seq<AccessRule>, rule: AccessRule, now: Timestamp)
    requires rule in table && rule.isPermanent && rule.expiresAt <= now
    ensures rule !in ActiveRules(table, rule.user, now)
  {
  }

  // ---------------------------------------------------------------------------
  // Matching one rule against one video (the stream path)

  /** JavaScript truthiness of an optional number: unset, null and 0 are false. */
  predicate IsSet(n: Option<int>)
  {
    n.Some? && n.value != 0
  }

  predicate IdFieldMatches(ruleValue: Option<Id>, videoValue: Id)
  {
    ruleValue.None? || ruleValue.value == videoValue
  }

  predicate NumberFieldMatches(ruleValue: Option<int>, videoValue: int)
  {
    !IsSet(ruleValue) || ruleValue.value == videoValue
  }

  /** The callback given to `rules.some`: all five scope comparisons hold. */
  predicate Matches(rule: AccessRule, video: Video)
  {
    IdFieldMatches(rule.domain, video.domain) &&
    IdFieldMatches(rule.topic, video.topic) &&
    NumberFieldMatches(rule.year, video.year) &&
    NumberFieldMatches(rule.month, video.month) &&
    NumberFieldMatches(rule.day, video.day)
  }

  /** `rules.some(rule => Matches(rule, video))`, scanning from the first rule. */
  predicate HasAccess(rules: seq<AccessRule>, video: Video)
  {
    |rules| > 0 && (Matches(rules[0], video) || HasAccess(rules[1..], video))
  }

  lemma {:induction false} HasAccessIff(rules: seq<AccessRule>, video: Video)
    ensures HasAccess(rules, video) <==> exists i :: 0 <= i < |rules| && Matches(rules[i], video)
  {
    if rules != [] {
      HasAccessIff(rules[1..], video);
      if !Matches(rules[0], video) && !HasAccess(rules[1..], video) {
        forall i | 0 <= i < |rules| ensures !Matches(rules[i], video) {
          if i > 0 { assert rules[i] == rules[1..][i - 1]; }
        }
      }
      if HasAccess(rules[1..], video) {
        var i :| 0 <= i < |rules[1..]| && Matches(rules[1..][i], video);
        assert rules[i + 1] == rules[1..][i];
      }
    }
  }

  /** No rules, no access: the 403 branch covers a user without grants. */
  lemma NoRulesNoAccess(video: Video)
    ensures !HasAccess([], video)
  {
  }

  /** A rule with no scope field set matches every video. */
  lemma WildcardRuleMatchesEverything(rule: AccessRule, video: Video)
    requires rule.domain.None? && rule.topic.None?
    requires !IsSet(rule.year) && !IsSet(rule.month) && !IsSet(rule.day)
    ensures Matches(rule, video)
  {
  }

  // ---------------------------------------------------------------------------
  // Query conditions (the catalog path)

  datatype Field = DomainField | TopicField | YearField | MonthField | DayField

  datatype Value = IdValue(id: Id) | NumberValue(n: int)

  /** A condition object: the fields it sets, each with the value a video must carry. */
  type Condition = map<Field, Value>

  /** The value `if (rule.f) condition.f = rule.f` stores for field `f`, if any. */
  function RuleValue(rule: AccessRule, f: Field): Option<Value>
  {
    match f
    case DomainField => if rule.domain.Some? then Some(IdValue(rule.domain.value)) else None
    case TopicField => if rule.topic.Some? then Some(IdValue(rule.topic.value)) else None
    case YearField => if IsSet(rule.year) then Some(NumberValue(rule.year.value)) else None
    case MonthField => if IsSet(rule.month) then Some(NumberValue(rule.month.value)) else None
    case DayField => if IsSet(rule.day) then Some(NumberValue(rule.day.value)) else None
  }

  function VideoValue(video: Video, f: Field): Value
  {
    match f
    case DomainField => IdValue(video.domain)
    case TopicField => IdValue(video.topic)
    case YearField => NumberValue(video.year)
    case MonthField => NumberValue(video.month)
    case DayField => NumberValue(video.day)
  }

  /** `c` holds exactly the truthy scope fields of `rule`, with the rule's values. */
  predicate IsConditionOf(c: Condition, rule: AccessRule)
  {
    forall f :: (f in c <==> RuleValue(rule, f).Some?) && (f in c ==> c[f] == RuleValue(rule, f).value)
  }

  /** A document matches a condition object when every field the object sets is equal. */
  predicate Satisfies(c: Condition, video: Video)
  {
    forall f :: f in c ==> c[f] == VideoValue(video, f)
  }

  /** A document matches `{ $or: conds }` when it matches one of them. */
  predicate SatisfiesAny(conds: seq<Condition>, video: Video)
  {
    exists i :: 0 <= i < |conds| && Satisfies(conds[i], video)
  }

  /** The catalog path's condition and the stream path's predicate agree on every video. */
  lemma ConditionAgreesWithMatch(c: Condition, rule: AccessRule, video: Video)
    requires IsConditionOf(c, rule)
    ensures Satisfies(c, video) <==> Matches(rule, video)
  {
    var d, t, y, m, dy := DomainField, TopicField, YearField, MonthField, DayField;
    assert (d in c <==> RuleValue(rule, d).Some?) && (d in c ==> c[d] == RuleValue(rule, d).value);
    assert (t in c <==> RuleValue(rule, t).Some?) && (t in c ==> c[t] == RuleValue(rule, t).value);
    assert (y in c <==> RuleValue(rule, y).Some?) && (y in c ==> c[y] == RuleValue(rule, y).value);
    assert (m in c <==> RuleValue(rule, m).Some?) && (m in c ==> c[m] == RuleValue(rule, m).value);
    assert (dy in c <==> RuleValue(rule, dy).Some?) && (dy in c ==> c[dy] == RuleValue(rule, dy).value);
    if Matches(rule, video) {
      forall f | f in c ensures c[f] == VideoValue(video, f) {
        match f
        case DomainField =>
        case TopicField =>
        case YearField =>
        case MonthField =>
        case DayField =>
      }
    }
  }

  /** The empty condition object matches every video. */
  lemma EmptyConditionMatchesEverything(video: Video)
    ensures Satisfies(map[], video)
  {
  }

  /** One step of `rules.map(rule => { const condition = {}; if (rule.domain) ...; return condition; })`. */
  method BuildCondition(rule: AccessRule) returns (c: Condition)
    ensures IsConditionOf(c, rule)
    ensures forall v :: Satisfies(c, v) <==> Matches(rule, v)
  {
    c := map[];
    if rule.domain.Some? {
      c := c[DomainField := IdValue(rule.domain.value)];
    }
    if rule.topic.Some? {
      c := c[TopicField := IdValue(rule.topic.value)];
    }
    if IsSet(rule.year) {
      c := c[YearField := NumberValue(rule.year.value)];
    }
    if IsSet(rule.month) {
      c := c[MonthField := NumberValue(rule.month.value)];
    }
    if IsSet(rule.day) {
      c := c[DayField := NumberValue(rule.day.value)];
    }
    forall f ensures (f in c <==> RuleValue(rule, f).Some?) && (f in c ==> c[f] == RuleValue(rule, f).value) {
      match f
      case DomainField =>
      case TopicField =>
      case YearField =>
      case MonthField =>
      case DayField =>
    }
    forall v ensures Satisfies(c, v) <==> Matches(rule, v) {
      ConditionAgreesWithMatch(c, rule, v);
    }
  }

  /** `orConditions`: one condition per rule, in rule order. */
  method BuildOrConditions(rules: seq<AccessRule>) returns (conds: seq<Condition>)
    ensures |conds| == |rules|
    ensures forall i :: 0 <= i < |rules| ==> IsConditionOf(conds[i], rules[i])
    ensures forall v :: SatisfiesAny(conds, v) <==> HasAccess(rules, v)
  {
    conds := [];
    for i := 0 to |rules|
      invariant |conds| == i
      invariant forall j :: 0 <= j < i ==> IsConditionOf(conds[j], rules[j])
      invariant forall j, v :: 0 <= j < i ==> (Satisfies(conds[j], v) <==> Matches(rules[j], v))
    {
      var c := BuildCondition(rules[i]);
      conds := conds + [c];
    }
    forall v ensures SatisfiesAny(conds, v) <==> HasAccess(rules, v) {
      HasAccessIff(rules, v);
    }
  }
}
