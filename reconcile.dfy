/**
 * The rule-list logic of the four lifecycle operations of an auto-tag rules
 * resource. The list fetched from the remote auto-tag and the snapshot of the
 * rules this resource last applied are inputs; the list written back (or, for
 * Read, the list observed) is the output. Two rules "match" when RuleEquals
 * holds of them, always with the snapshot-side rule first, as the source
 * calls it; Go's reflect.DeepEqual on two rules is `==`.
 */
module Reconcile {
  import opened Wrappers
  import opened Settings
  import opened Comparators

  predicate Matches(x: Rule, y: Rule) {
    RuleEquals(Some(x), Some(y))
  }

  /** Some rule of `rules` matches `x` (with `x` on the left). */
  predicate HasMatch(x: Rule, rules: seq<Rule>) {
    exists k :: 0 <= k < |rules| && Matches(x, rules[k])
  }

  /** Some snapshot rule matches `y` (with `y` on the right). */
  predicate MatchedBy(snapshot: seq<Rule>, y: Rule) {
    exists k :: 0 <= k < |snapshot| && Matches(snapshot[k], y)
  }

  lemma MatchesReflexive(x: Rule)
    ensures Matches(x, x)
  {
    RuleEqualsReflexive(Some(x));
  }

  // ---------------------------------------------------------------- Create

  /** The list Create writes: the fetched rules, then the configured ones, duplicates kept. */
  function Create(fetched: seq<Rule>, configured: seq<Rule>): (written: seq<Rule>)
    ensures |written| == |fetched| + |configured|
    ensures forall i :: 0 <= i < |fetched| ==> written[i] == fetched[i]
    ensures forall j :: 0 <= j < |configured| ==> written[|fetched| + j] == configured[j]
    ensures multiset(written) == multiset(fetched) + multiset(configured)
  {
    fetched + configured
  }

  // ---------------------------------------------------------------- Update

  /** The snapshot rules that no configured rule matches, in snapshot order. */
  function Unmatched(snapshot: seq<Rule>, configured: seq<Rule>): seq<Rule>
    decreases |snapshot|
  {
    if snapshot == [] then []
    else
      var last := snapshot[|snapshot| - 1];
      Unmatched(snapshot[..|snapshot| - 1], configured) + (if HasMatch(last, configured) then [] else [last])
  }

  /** `rules` with every element equal to some element of `marked` removed. */
  function Without(rules: seq<Rule>, marked: seq<Rule>): seq<Rule>
    decreases |rules|
  {
    if rules == [] then []
    else
      var last := rules[|rules| - 1];
      Without(rules[..|rules| - 1], marked) + (if last in marked then [] else [last])
  }

  lemma {:induction false} UnmatchedMembers(snapshot: seq<Rule>, configured: seq<Rule>)
    ensures |Unmatched(snapshot, configured)| <= |snapshot|
    ensures forall x :: x in Unmatched(snapshot, configured) <==> x in snapshot && !HasMatch(x, configured)
    decreases |snapshot|
  {
    if snapshot != [] {
      var init := snapshot[..|snapshot| - 1];
      UnmatchedMembers(init, configured);
      assert snapshot == init + [snapshot[|snapshot| - 1]];
    }
  }

  lemma {:induction false} WithoutMembers(rules: seq<Rule>, marked: seq<Rule>)
    ensures |Without(rules, marked)| <= |rules|
    ensures forall x :: x in Without(rules, marked) <==> x in rules && x !in marked
    decreases |rules|
  {
    if rules != [] {
      var init := rules[..|rules| - 1];
      WithoutMembers(init, marked);
      assert rules == init + [rules[|rules| - 1]];
    }
  }

  /** Removal keeps the order of what it keeps: it distributes over concatenation. */
  lemma {:induction false} WithoutConcat(r1: seq<Rule>, r2: seq<Rule>, marked: seq<Rule>)
    ensures Without(r1 + r2, marked) == Without(r1, marked) + Without(r2, marked)
    decreases |r2|
  {
    if r2 == [] {
      assert r1 + r2 == r1;
    } else {
      var init := r2[..|r2| - 1];
      WithoutConcat(r1, init, marked);
      assert (r1 + r2)[..|r1 + r2| - 1] == r1 + init;
    }
  }

  /** A list none of whose elements is marked passes through removal unchanged. */
  lemma {:induction false} WithoutUnmarked(rules: seq<Rule>, marked: seq<Rule>)
    requires forall x :: x in rules ==> x !in marked
    ensures Without(rules, marked) == rules
    decreases |rules|
  {
    if rules != [] {
      WithoutUnmarked(rules[..|rules| - 1], marked);
    }
  }

  /**
   * Update: mark the snapshot rules that no configured rule matches, append
   * the configured rules to the fetched ones, and drop every element
   * deep-equal to a marked rule.
   */
  method Update(fetched: seq<Rule>, snapshot: seq<Rule>, configured: seq<Rule>)
    returns (marked: seq<Rule>, written: seq<Rule>)
    ensures marked == Unmatched(snapshot, configured)
    ensures written == Without(fetched + configured, marked)
  {
    marked := [];
    for i := 0 to |snapshot|
      invariant marked == Unmatched(snapshot[..i], configured)
    {
      var stateRule := snapshot[i];
      var found := false;
      for j := 0 to |configured|
        invariant !found
        invariant forall l :: 0 <= l < j ==> !Matches(stateRule, configured[l])
      {
        if RuleEquals(Some(stateRule), Some(configured[j])) {
          found := true;
          break;
        }
      }
      assert found == HasMatch(stateRule, configured);
      if !found {
        marked := marked + [stateRule];
      }
      assert snapshot[..i + 1][..i] == snapshot[..i];
    }
    assert snapshot[..|snapshot|] == snapshot;
    var all := fetched + configured;
    written := [];
    for i := 0 to |all|
      invariant written == Without(all[..i], marked)
    {
      var apiRule := all[i];
      var found := false;
      for j := 0 to |marked|
        invariant !found
        invariant forall l :: 0 <= l < j ==> apiRule != marked[l]
      {
        if apiRule == marked[j] {
          found := true;
          break;
        }
      }
      assert found == (apiRule in marked);
      if !found {
        written := written + [apiRule];
      }
      assert all[..i + 1][..i] == all[..i];
    }
    assert all[..|all|] == all;
  }

  /**
   * A deep-equal match would contradict the marking: Update never drops a
   * configured rule, and every configured occurrence ends the written list.
   */
  lemma UpdateKeepsConfigured(fetched: seq<Rule>, snapshot: seq<Rule>, configured: seq<Rule>)
    ensures forall c :: c in configured ==> c in Without(fetched + configured, Unmatched(snapshot, configured))
    ensures Without(fetched + configured, Unmatched(snapshot, configured))
      == Without(fetched, Unmatched(snapshot, configured)) + configured
  {
    var marked := Unmatched(snapshot, configured);
    UnmatchedMembers(snapshot, configured);
    WithoutMembers(fetched + configured, marked);
    forall c | c in configured
      ensures c !in marked
    {
      var k :| 0 <= k < |configured| && configured[k] == c;
      MatchesReflexive(c);
      assert HasMatch(c, configured);
    }
    WithoutConcat(fetched, configured, marked);
    WithoutUnmarked(configured, marked);
  }

  /**
   * Applying the configuration that the snapshot already records marks
   * nothing, so the configured rules are appended to the fetched list again.
   */
  lemma UpdateWithUnchangedSnapshotAppends(fetched: seq<Rule>, configured: seq<Rule>)
    ensures Unmatched(configured, configured) == []
    ensures Without(fetched + configured, Unmatched(configured, configured)) == fetched + configured
  {
    forall c | c in configured
      ensures HasMatch(c, configured)
    {
      var k :| 0 <= k < |configured| && configured[k] == c;
      MatchesReflexive(c);
    }
    AllMatchedMarksNothing(configured, configured);
    WithoutUnmarked(fetched + configured, []);
  }

  lemma {:induction false} AllMatchedMarksNothing(snapshot: seq<Rule>, configured: seq<Rule>)
    requires forall x :: x in snapshot ==> HasMatch(x, configured)
    ensures Unmatched(snapshot, configured) == []
    decreases |snapshot|
  {
    if snapshot != [] {
      AllMatchedMarksNothing(snapshot[..|snapshot| - 1], configured);
    }
  }

  // ---------------------------------------------------------------- Read

  /** One copy of `x` for every rule of `api` that it matches. */
  function Copies(x: Rule, api: seq<Rule>): seq<Rule>
    decreases |api|
  {
    if api == [] then []
    else Copies(x, api[..|api| - 1]) + (if Matches(x, api[|api| - 1]) then [x] else [])
  }

  /** What Read observes: each snapshot rule, once per matching API rule, in snapshot order. */
  function Observed(snapshot: seq<Rule>, api: seq<Rule>): seq<Rule>
    decreases |snapshot|
  {
    if snapshot == [] then []
    else Observed(snapshot[..|snapshot| - 1], api) + Copies(snapshot[|snapshot| - 1], api)
  }

  lemma {:induction false} CopiesShape(x: Rule, api: seq<Rule>)
    ensures |Copies(x, api)| <= |api|
    ensures forall k :: 0 <= k < |Copies(x, api)| ==> Copies(x, api)[k] == x
    ensures |Copies(x, api)| > 0 <==> HasMatch(x, api)
    decreases |api|
  {
    if api != [] {
      var init := api[..|api| - 1];
      CopiesShape(x, init);
      if HasMatch(x, init) {
        var k :| 0 <= k < |init| && Matches(x, init[k]);
        assert api[k] == init[k];
      }
      if HasMatch(x, api) && !Matches(x, api[|api| - 1]) {
        var k :| 0 <= k < |api| && Matches(x, api[k]);
        assert init[k] == api[k];
      }
    }
  }

  lemma {:induction false} ObservedMembers(snapshot: seq<Rule>, api: seq<Rule>)
    ensures forall x :: x in Observed(snapshot, api) <==> x in snapshot && HasMatch(x, api)
    decreases |snapshot|
  {
    if snapshot != [] {
      var init, last := snapshot[..|snapshot| - 1], snapshot[|snapshot| - 1];
      ObservedMembers(init, api);
      CopiesShape(last, api);
      assert snapshot == init + [last];
      if HasMatch(last, api) {
        assert Copies(last, api)[0] == last;
      }
    }
  }

  /** Observation keeps snapshot order: it distributes over concatenation. */
  lemma {:induction false} ObservedConcat(s1: seq<Rule>, s2: seq<Rule>, api: seq<Rule>)
    ensures Observed(s1 + s2, api) == Observed(s1, api) + Observed(s2, api)
    decreases |s2|
  {
    if s2 == [] {
      assert s1 + s2 == s1;
    } else {
      var init := s2[..|s2| - 1];
      ObservedConcat(s1, init, api);
      assert (s1 + s2)[..|s1 + s2| - 1] == s1 + init;
    }
  }

  /** Read: collect every snapshot rule once per API rule it matches. */
  method Read(snapshot: seq<Rule>, api: seq<Rule>) returns (matching: seq<Rule>)
    ensures matching == Observed(snapshot, api)
  {
    matching := [];
    for i := 0 to |snapshot|
      invariant matching == Observed(snapshot[..i], api)
    {
      var stateRule := snapshot[i];
      for j := 0 to |api|
        invariant matching == Observed(snapshot[..i], api) + Copies(stateRule, api[..j])
      {
        if RuleEquals(Some(stateRule), Some(api[j])) {
          matching := matching + [stateRule];
        }
        assert api[..j + 1][..j] == api[..j];
      }
      assert api[..|api|] == api;
      assert snapshot[..i + 1][..i] == snapshot[..i];
    }
    assert snapshot[..|snapshot|] == snapshot;
  }

  /** After Create, Read with the configured rules as snapshot sees every one of them. */
  lemma CreateThenReadSeesConfigured(fetched: seq<Rule>, configured: seq<Rule>)
    ensures forall c :: c in configured ==> c in Observed(configured, Create(fetched, configured))
  {
    var written := Create(fetched, configured);
    ObservedMembers(configured, written);
    forall c | c in configured
      ensures HasMatch(c, written)
    {
      var k :| 0 <= k < |configured| && configured[k] == c;
      MatchesReflexive(c);
      assert written[|fetched| + k] == c;
    }
  }

  /** After Update, Read with the new configuration as snapshot sees every configured rule. */
  lemma UpdateThenReadSeesConfigured(fetched: seq<Rule>, snapshot: seq<Rule>, configured: seq<Rule>)
    ensures var written := Without(fetched + configured, Unmatched(snapshot, configured));
      forall c :: c in configured ==> c in Observed(configured, written)
  {
    var written := Without(fetched + configured, Unmatched(snapshot, configured));
    UpdateKeepsConfigured(fetched, snapshot, configured);
    ObservedMembers(configured, written);
    forall c | c in configured
      ensures HasMatch(c, written)
    {
      var k :| 0 <= k < |written| && written[k] == c;
      MatchesReflexive(c);
    }
  }
}
