/**
 * Nil-aware, field-by-field equality tests over rules, attribute rules and
 * conditions. Each Go comparator over pointers starts with a pointer-identity
 * shortcut; a value has no identity here, and the field comparisons already
 * return true on identical contents (see RuleEqualsReflexive), so the
 * shortcut changes no result and is not repeated.
 */
module Comparators {
  import opened Wrappers
  import opened Settings

  /** The boolean a flag reads as when nil counts as false. */
  function FlagValue(o: Option<bool>): bool {
    o.GetOr(false)
  }

  function StrPtrEquals(a: Option<string>, b: Option<string>): (r: bool)
    ensures r <==> a == b
  {
    if a.None? && b.None? then true
    else if a.None? && b.Some? then false
    else if a.Some? && b.None? then false
    else a.value == b.value
  }

  function IntPtrEquals(a: Option<int>, b: Option<int>): (r: bool)
    ensures r <==> a == b
  {
    if a.None? && b.None? then true
    else if a.None? && b.Some? then false
    else if a.Some? && b.None? then false
    else a.value == b.value
  }

  /** Unlike the other pointer comparators, a nil flag equals a present `false`. */
  function BoolPtrEquals(a: Option<bool>, b: Option<bool>): (r: bool)
    ensures r <==> FlagValue(a) == FlagValue(b)
    ensures a.None? && b == Some(false) ==> r
    ensures a.None? && b == Some(true) ==> !r
    ensures a != b && !(a.None? && b == Some(false)) && !(a == Some(false) && b.None?) ==> !r
  {
    if a.None? && b.None? then true
    else if a.None? && b.Some? then !b.value
    else if a.Some? && b.None? then !a.value
    else a.value == b.value
  }

  /** A condition with its case-sensitivity flag read as a plain boolean. */
  function CanonicalCondition(c: Option<AttributeCondition>): Option<AttributeCondition> {
    match c
    case None => None
    case Some(v) => Some(v.(caseSensitive := Some(FlagValue(v.caseSensitive))))
  }

  function AttributeConditionEquals(a: Option<AttributeCondition>, b: Option<AttributeCondition>): (r: bool)
    ensures r <==> CanonicalCondition(a) == CanonicalCondition(b)
  {
    if a.None? && b.Some? then false
    else if a.Some? && b.None? then false
    else if a.None? && b.None? then true
    else
      var x, y := a.value, b.value;
      BoolPtrEquals(x.caseSensitive, y.caseSensitive)
      && StrPtrEquals(x.dynamicKey, y.dynamicKey)
      && StrPtrEquals(x.dynamicKeySource, y.dynamicKeySource)
      && StrPtrEquals(x.entityId, y.entityId)
      && StrPtrEquals(x.enumValue, y.enumValue)
      && IntPtrEquals(x.integerValue, y.integerValue)
      && x.key == y.key
      && x.operator == y.operator
      && StrPtrEquals(x.stringValue, y.stringValue)
      && StrPtrEquals(x.tag, y.tag)
  }

  /**
   * What the condition-list comparison decides: both nil, or both present
   * with equal lengths and every condition of `a` matched by SOME condition
   * of `b`. The containment runs one way only.
   */
  predicate ConditionsEqual(a: Option<AttributeConditions>, b: Option<AttributeConditions>) {
    if a.None? || b.None? then a.None? && b.None?
    else |a.value| == |b.value| && ContainedIn(a.value, b.value)
  }

  /** Every condition of `xs` has a match somewhere in `ys`. */
  predicate ContainedIn(xs: AttributeConditions, ys: AttributeConditions) {
    forall i :: 0 <= i < |xs| ==> MatchedIn(xs[i], ys)
  }

  /** Some condition of `ys` equals `c` under AttributeConditionEquals. */
  predicate MatchedIn(c: Option<AttributeCondition>, ys: AttributeConditions) {
    exists j :: 0 <= j < |ys| && AttributeConditionEquals(c, ys[j])
  }

  /** The nested search of the Go comparator, proved to decide ConditionsEqual. */
  method AttributeConditionsEquals(a: Option<AttributeConditions>, b: Option<AttributeConditions>)
    returns (r: bool)
    ensures r == ConditionsEqual(a, b)
  {
    if a.None? && b.Some? {
      return false;
    }
    if a.Some? && b.None? {
      return false;
    }
    if a.None? && b.None? {
      return true;
    }
    var xs, ys := a.value, b.value;
    if |xs| != |ys| {
      return false;
    }
    for i := 0 to |xs|
      invariant forall k :: 0 <= k < i ==> MatchedIn(xs[k], ys)
    {
      var found := false;
      for j := 0 to |ys|
        invariant forall l :: 0 <= l < j ==> !AttributeConditionEquals(xs[i], ys[l])
      {
        if AttributeConditionEquals(xs[i], ys[j]) {
          found := true;
          break;
        }
      }
      if !found {
        return false;
      }
    }
    return true;
  }

  lemma ConditionsEqualReflexive(a: Option<AttributeConditions>)
    ensures ConditionsEqual(a, a)
  {
    if a.Some? {
      var xs := a.value;
      forall i | 0 <= i < |xs|
        ensures MatchedIn(xs[i], xs)
      {
        assert AttributeConditionEquals(xs[i], xs[i]);
      }
    }
  }

  /**
   * The one-way containment: a list holding one condition twice equals a
   * list of that condition and a different one, but not the other way round.
   */
  lemma ConditionsEqualIsOneWay(x: AttributeCondition, y: AttributeCondition)
    requires !AttributeConditionEquals(Some(y), Some(x))
    ensures ConditionsEqual(Some([Some(x), Some(x)]), Some([Some(x), Some(y)]))
    ensures !ConditionsEqual(Some([Some(x), Some(y)]), Some([Some(x), Some(x)]))
  {
    var xx: AttributeConditions := [Some(x), Some(x)];
    var xy: AttributeConditions := [Some(x), Some(y)];
    assert AttributeConditionEquals(Some(x), Some(x));
    assert MatchedIn(xx[0], xy) && MatchedIn(xx[1], xy) by {
      assert AttributeConditionEquals(xx[0], xy[0]);
    }
    assert !MatchedIn(xy[1], xx);
  }

  /** An attribute rule with every propagation flag read as a plain boolean and its conditions dropped. */
  function AttributeRuleShape(r: AutoTagAttributeRule): AutoTagAttributeRule {
    r.(azureToPGPropagation := Some(FlagValue(r.azureToPGPropagation)),
       azureToServicePropagation := Some(FlagValue(r.azureToServicePropagation)),
       conditions := None,
       hostToPGPropagation := Some(FlagValue(r.hostToPGPropagation)),
       pgToHostPropagation := Some(FlagValue(r.pgToHostPropagation)),
       pgToServicePropagation := Some(FlagValue(r.pgToServicePropagation)),
       serviceToHostPropagation := Some(FlagValue(r.serviceToHostPropagation)),
       serviceToPGPropagation := Some(FlagValue(r.serviceToPGPropagation)))
  }

  function AutoTagAttributeRuleEquals(a: Option<AutoTagAttributeRule>, b: Option<AutoTagAttributeRule>): (r: bool)
    ensures r <==>
      (a.None? && b.None?) ||
      (a.Some? && b.Some? && AttributeRuleShape(a.value) == AttributeRuleShape(b.value)
       && ConditionsEqual(a.value.conditions, b.value.conditions))
  {
    if a.None? && b.Some? then false
    else if a.Some? && b.None? then false
    else if a.None? && b.None? then true
    else
      var x, y := a.value, b.value;
      BoolPtrEquals(x.azureToPGPropagation, y.azureToPGPropagation)
      && BoolPtrEquals(x.azureToServicePropagation, y.azureToServicePropagation)
      // the Go comparator tests this flag a second time
      && BoolPtrEquals(x.azureToServicePropagation, y.azureToServicePropagation)
      && ConditionsEqual(x.conditions, y.conditions)
      && x.entityType == y.entityType
      && BoolPtrEquals(x.hostToPGPropagation, y.hostToPGPropagation)
      && BoolPtrEquals(x.pgToHostPropagation, y.pgToHostPropagation)
      && BoolPtrEquals(x.pgToServicePropagation, y.pgToServicePropagation)
      && BoolPtrEquals(x.serviceToHostPropagation, y.serviceToHostPropagation)
      && BoolPtrEquals(x.serviceToPGPropagation, y.serviceToPGPropagation)
  }

  /** A rule without its attribute part. */
  function RuleShape(r: Rule): Rule {
    r.(attributeRule := None)
  }

  function RuleEquals(a: Option<Rule>, b: Option<Rule>): (r: bool)
    ensures r <==>
      (a.None? && b.None?) ||
      (a.Some? && b.Some? && RuleShape(a.value) == RuleShape(b.value)
       && AutoTagAttributeRuleEquals(a.value.attributeRule, b.value.attributeRule))
  {
    if a.None? && b.Some? then false
    else if a.Some? && b.None? then false
    else if a.None? && b.None? then true
    else
      var x, y := a.value, b.value;
      AutoTagAttributeRuleEquals(x.attributeRule, y.attributeRule)
      && x.enabled == y.enabled
      && StrPtrEquals(x.entitySelector, y.entitySelector)
      && x.ruleType == y.ruleType
      && StrPtrEquals(x.valueFormat, y.valueFormat)
      && x.valueNormalization == y.valueNormalization
  }

  lemma RuleEqualsReflexive(a: Option<Rule>)
    ensures RuleEquals(a, a)
  {
    if a.Some? && a.value.attributeRule.Some? {
      ConditionsEqualReflexive(a.value.attributeRule.value.conditions);
    }
  }

  /** Two rules that differ only in their conditions, compared in both orders. */
  lemma RuleEqualsNotSymmetric(x: AttributeCondition, y: AttributeCondition, base: Rule, attr: AutoTagAttributeRule)
    requires !AttributeConditionEquals(Some(y), Some(x))
    ensures
      var withXX := base.(attributeRule := Some(attr.(conditions := Some([Some(x), Some(x)]))));
      var withXY := base.(attributeRule := Some(attr.(conditions := Some([Some(x), Some(y)]))));
      RuleEquals(Some(withXX), Some(withXY)) && !RuleEquals(Some(withXY), Some(withXX))
  {
    ConditionsEqualIsOneWay(x, y);
  }
}
