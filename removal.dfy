/**
 * The rule-list logic of Delete. The source removes matched rules from the
 * fetched slice while ranging over it: each `range` fixes the length it
 * started with and reads the shared backing array, and each removal shifts
 * the tail left by one and leaves a stale copy of the old last element
 * behind the new length. The model keeps that backing array and the explicit
 * length; slicing past the current length (a Go runtime panic) is `None`.
 */
module Removal {
  import opened Wrappers
  import opened Settings
  import opened Comparators
  import opened Reconcile

  /** A slice header over a shared backing array; entries at `len` and beyond are stale. */
  datatype RuleSlice = RuleSlice(backing: seq<Rule>, len: nat)

  /** The backing array after `append(s[:i], s[i+1:]...)` on a slice of length `n`. */
  function Shift(b: seq<Rule>, n: nat, i: nat): (r: seq<Rule>)
    requires i < n <= |b|
    ensures |r| == |b|
    ensures forall t :: 0 <= t < |b| ==> r[t] == if i <= t < n - 1 then b[t + 1] else b[t]
    ensures r[..n - 1] == b[..n][..i] + b[..n][i + 1..]
  {
    b[..i] + b[i + 1..n] + b[n - 1..]
  }

  /**
   * The inner loop of Delete for the snapshot rule `s`, from index `i` up to
   * the length `m` that its `range` fixed, on backing array `b` whose current
   * length is `n`.
   */
  function Sweep(s: Rule, b: seq<Rule>, n: nat, i: nat, m: nat): (r: Option<RuleSlice>)
    requires n <= |b| && m <= |b|
    ensures r.Some? ==> |r.value.backing| == |b| && r.value.len <= n
    decreases m - i
  {
    if i >= m then Some(RuleSlice(b, n))
    else if Matches(s, b[i]) then
      if i + 1 > n then None
      else Sweep(s, Shift(b, n, i), n - 1, i + 1, m)
    else Sweep(s, b, n, i + 1, m)
  }

  /** The outer loop of Delete, from snapshot rule `k` on. */
  function DeleteFrom(snapshot: seq<Rule>, k: nat, b: seq<Rule>, n: nat): (r: Option<RuleSlice>)
    requires n <= |b|
    ensures r.Some? ==> |r.value.backing| == |b| && r.value.len <= n
    decreases |snapshot| - k
  {
    if k >= |snapshot| then Some(RuleSlice(b, n))
    else
      match Sweep(snapshot[k], b, n, 0, n)
      case None => None
      case Some(next) => DeleteFrom(snapshot, k + 1, next.backing, next.len)
  }

  /** The list Delete writes back, or None where it panics. */
  function DeleteAsWritten(api: seq<Rule>, snapshot: seq<Rule>): Option<seq<Rule>> {
    match DeleteFrom(snapshot, 0, api, |api|)
    case None => None
    case Some(last) => Some(last.backing[..last.len])
  }

  /** `append(s[:i], s[i+1:]...)` in place on the backing array of a slice of length `n`. */
  method RemoveAt(a: array<Rule>, n: nat, i: nat)
    requires i < n <= a.Length
    modifies a
    ensures a[..] == Shift(old(a[..]), n, i)
  {
    for t := i to n - 1
      invariant forall u :: 0 <= u < a.Length ==> a[u] == if i <= u < t then old(a[u + 1]) else old(a[u])
    {
      a[t] := a[t + 1];
    }
  }

  /**
   * Delete on the fetched rules held in `a`: returns the final length, or
   * reports the panic. The backing array, stale tail included, ends as the
   * specification says.
   */
  method Delete(a: array<Rule>, snapshot: seq<Rule>) returns (n: nat, panicked: bool)
    modifies a
    ensures n <= a.Length
    ensures DeleteFrom(snapshot, 0, old(a[..]), a.Length) == if panicked then None else Some(RuleSlice(a[..], n))
  {
    n := a.Length;
    panicked := false;
    for k := 0 to |snapshot|
      invariant n <= a.Length
      invariant DeleteFrom(snapshot, 0, old(a[..]), a.Length) == DeleteFrom(snapshot, k, a[..], n)
    {
      var stateRule := snapshot[k];
      ghost var start, startLen := a[..], n;
      var m := n;
      for i := 0 to m
        invariant n <= a.Length
        invariant Sweep(stateRule, start, startLen, 0, m) == Sweep(stateRule, a[..], n, i, m)
      {
        var apiRule := a[i];
        if RuleEquals(Some(stateRule), Some(apiRule)) {
          if i + 1 > n {
            panicked := true;
            return;
          }
          RemoveAt(a, n, i);
          n := n - 1;
        }
      }
    }
  }

  // ------------------------------------------------ what Delete guarantees

  /**
   * `w` is `api` with some elements dropped, order kept, and every dropped
   * element matched by a snapshot rule.
   */
  predicate Pruned(w: seq<Rule>, api: seq<Rule>, snapshot: seq<Rule>)
    decreases |api|
  {
    if api == [] then w == []
    else
      (MatchedBy(snapshot, api[0]) && Pruned(w, api[1..], snapshot))
      || (w != [] && w[0] == api[0] && Pruned(w[1..], api[1..], snapshot))
  }

  lemma {:induction false} PrunedReflexive(api: seq<Rule>, snapshot: seq<Rule>)
    ensures Pruned(api, api, snapshot)
    decreases |api|
  {
    if api != [] {
      PrunedReflexive(api[1..], snapshot);
    }
  }

  /** Dropping one more matched element keeps a list pruned. */
  lemma {:induction false} PrunedRemove(w: seq<Rule>, api: seq<Rule>, snapshot: seq<Rule>, i: nat)
    requires Pruned(w, api, snapshot) && i < |w| && MatchedBy(snapshot, w[i])
    ensures Pruned(w[..i] + w[i + 1..], api, snapshot)
    decreases |api|
  {
    if api != [] {
      if MatchedBy(snapshot, api[0]) && Pruned(w, api[1..], snapshot) {
        PrunedRemove(w, api[1..], snapshot, i);
      } else if i == 0 {
        assert w[..i] + w[i + 1..] == w[1..];
      } else {
        PrunedRemove(w[1..], api[1..], snapshot, i - 1);
        var rest := w[..i] + w[i + 1..];
        assert rest[0] == api[0];
        assert rest[1..] == w[1..][..i - 1] + w[1..][i..];
      }
    }
  }

  lemma {:induction false} PrunedIsSubmultiset(w: seq<Rule>, api: seq<Rule>, snapshot: seq<Rule>)
    requires Pruned(w, api, snapshot)
    ensures multiset(w) <= multiset(api)
    decreases |api|
  {
    if api != [] {
      assert api == [api[0]] + api[1..];
      if MatchedBy(snapshot, api[0]) && Pruned(w, api[1..], snapshot) {
        PrunedIsSubmultiset(w, api[1..], snapshot);
      } else {
        PrunedIsSubmultiset(w[1..], api[1..], snapshot);
        assert w == [w[0]] + w[1..];
      }
    }
  }

  lemma {:induction false} SweepPrunes(api: seq<Rule>, snapshot: seq<Rule>, k: nat, b: seq<Rule>, n: nat, i: nat, m: nat)
    requires k < |snapshot| && n <= |b| && m <= |b|
    requires Pruned(b[..n], api, snapshot)
    requires Sweep(snapshot[k], b, n, i, m).Some?
    ensures var r := Sweep(snapshot[k], b, n, i, m).value; Pruned(r.backing[..r.len], api, snapshot)
    decreases m - i
  {
    if i < m {
      if Matches(snapshot[k], b[i]) {
        assert b[..n][i] == b[i];
        assert MatchedBy(snapshot, b[i]);
        PrunedRemove(b[..n], api, snapshot, i);
        SweepPrunes(api, snapshot, k, Shift(b, n, i), n - 1, i + 1, m);
      } else {
        SweepPrunes(api, snapshot, k, b, n, i + 1, m);
      }
    }
  }

  lemma {:induction false} DeleteFromPrunes(api: seq<Rule>, snapshot: seq<Rule>, k: nat, b: seq<Rule>, n: nat)
    requires n <= |b|
    requires Pruned(b[..n], api, snapshot)
    requires DeleteFrom(snapshot, k, b, n).Some?
    ensures var r := DeleteFrom(snapshot, k, b, n).value; Pruned(r.backing[..r.len], api, snapshot)
    decreases |snapshot| - k
  {
    if k < |snapshot| {
      SweepPrunes(api, snapshot, k, b, n, 0, n);
      var next := Sweep(snapshot[k], b, n, 0, n).value;
      DeleteFromPrunes(api, snapshot, k + 1, next.backing, next.len);
    }
  }

  /**
   * When Delete does not panic, it writes the fetched list with some rules
   * dropped, order kept, each dropped rule matched by a snapshot rule.
   */
  lemma DeleteWritesPrunedList(api: seq<Rule>, snapshot: seq<Rule>)
    ensures DeleteAsWritten(api, snapshot).Some? ==>
      Pruned(DeleteAsWritten(api, snapshot).value, api, snapshot)
      && multiset(DeleteAsWritten(api, snapshot).value) <= multiset(api)
  {
    if DeleteAsWritten(api, snapshot).Some? {
      PrunedReflexive(api, snapshot);
      assert api[..|api|] == api;
      DeleteFromPrunes(api, snapshot, 0, api, |api|);
      PrunedIsSubmultiset(DeleteAsWritten(api, snapshot).value, api, snapshot);
    }
  }

  lemma {:induction false} SweepWithoutMatches(s: Rule, b: seq<Rule>, n: nat, i: nat, m: nat)
    requires n <= |b| && m <= |b|
    requires forall t :: 0 <= t < |b| ==> !Matches(s, b[t])
    ensures Sweep(s, b, n, i, m) == Some(RuleSlice(b, n))
    decreases m - i
  {
    if i < m {
      SweepWithoutMatches(s, b, n, i + 1, m);
    }
  }

  lemma {:induction false} DeleteFromWithoutMatches(snapshot: seq<Rule>, k: nat, b: seq<Rule>, n: nat)
    requires n <= |b|
    requires forall t :: 0 <= t < |b| ==> !MatchedBy(snapshot, b[t])
    ensures DeleteFrom(snapshot, k, b, n) == Some(RuleSlice(b, n))
    decreases |snapshot| - k
  {
    if k < |snapshot| {
      SweepWithoutMatches(snapshot[k], b, n, 0, n);
      DeleteFromWithoutMatches(snapshot, k + 1, b, n);
    }
  }

  /** If no snapshot rule matches any fetched rule, Delete writes the fetched list back unchanged. */
  lemma DeleteUnchangedWithoutMatches(api: seq<Rule>, snapshot: seq<Rule>)
    requires forall t :: 0 <= t < |api| ==> !MatchedBy(snapshot, api[t])
    ensures DeleteAsWritten(api, snapshot) == Some(api)
  {
    DeleteFromWithoutMatches(snapshot, 0, api, |api|);
    assert api[..|api|] == api;
  }

  // ------------------------------------------------ the removal defect

  /** Two adjacent copies of a snapshot rule: the second is read from the stale tail and slicing past the length panics. */
  lemma DeletePanicsOnAdjacentCopies(x: Rule)
    ensures DeleteAsWritten([x, x], [x]) == None
  {
    MatchesReflexive(x);
    assert Shift([x, x], 2, 0) == [x, x];
    assert Sweep(x, [x, x], 1, 1, 2) == None;
  }

  /**
   * The rule shifted into a removed slot is never compared: of two adjacent
   * copies one survives, so Read still observes it afterwards, whereas the
   * corrected removal drops both.
   */
  lemma DeleteSkipsShiftedRule(x: Rule, y: Rule)
    requires !Matches(x, y)
    ensures DeleteAsWritten([x, x, y], [x]) == Some([x, y])
    ensures Observed([x], [x, y]) == [x]
    ensures DeleteCorrected([x, x, y], [x]) == [y]
  {
    MatchesReflexive(x);
    var shifted := Shift([x, x, y], 3, 0);
    assert shifted == [x, y, y];
    assert Sweep(x, shifted, 2, 2, 3) == Some(RuleSlice(shifted, 2));
    assert Sweep(x, shifted, 2, 1, 3) == Some(RuleSlice(shifted, 2));
    assert Sweep(x, [x, x, y], 3, 0, 3) == Some(RuleSlice(shifted, 2));
    assert DeleteFrom([x], 1, shifted, 2) == Some(RuleSlice(shifted, 2));
    assert DeleteFrom([x], 0, [x, x, y], 3) == Some(RuleSlice(shifted, 2));
    assert shifted[..2] == [x, y];
    assert [x, y][..1] == [x] && [x][..0] == [];
    assert Copies(x, [x]) == [x];
    assert Copies(x, [x, y]) == [x];
    assert Observed([x], [x, y]) == Observed([], [x, y]) + Copies(x, [x, y]);
    assert MatchedBy([x], x);
    assert [x, x, y][1..] == [x, y];
    assert [x, y][1..] == [y];
  }

  /** The evidently intended Delete: every fetched rule that some snapshot rule matches is removed. */
  function DeleteCorrected(api: seq<Rule>, snapshot: seq<Rule>): (w: seq<Rule>)
    ensures Pruned(w, api, snapshot)
    ensures forall t :: 0 <= t < |w| ==> !MatchedBy(snapshot, w[t])
    ensures (forall t :: 0 <= t < |api| ==> !MatchedBy(snapshot, api[t])) ==> w == api
    decreases |api|
  {
    if api == [] then []
    else if MatchedBy(snapshot, api[0]) then DeleteCorrected(api[1..], snapshot)
    else [api[0]] + DeleteCorrected(api[1..], snapshot)
  }

  lemma {:induction false} ObservedWithoutMatches(snapshot: seq<Rule>, api: seq<Rule>)
    requires forall x :: x in snapshot ==> !HasMatch(x, api)
    ensures Observed(snapshot, api) == []
    decreases |snapshot|
  {
    if snapshot != [] {
      ObservedWithoutMatches(snapshot[..|snapshot| - 1], api);
      CopiesShape(snapshot[|snapshot| - 1], api);
    }
  }

  /** After the corrected removal, Read with the same snapshot observes nothing. */
  lemma DeleteCorrectedIsComplete(api: seq<Rule>, snapshot: seq<Rule>)
    ensures Observed(snapshot, DeleteCorrected(api, snapshot)) == []
  {
    var w := DeleteCorrected(api, snapshot);
    forall x | x in snapshot
      ensures !HasMatch(x, w)
    {
      var j :| 0 <= j < |snapshot| && snapshot[j] == x;
      forall t | 0 <= t < |w|
        ensures !Matches(x, w[t])
      {
        assert !MatchedBy(snapshot, w[t]);
      }
    }
    ObservedWithoutMatches(snapshot, w);
  }
}
