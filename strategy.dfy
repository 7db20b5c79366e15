/**
 * A strategy is one flattened rule: a conjunction of conditions and the
 * payout of the leaf it came from. Pruning drops a strategy whose
 * conditions contradict each other and otherwise reduces the conditions on
 * each variable to a minimal shape.
 *
 * `Pruned` is the specification of pruning; the method `Prune` follows the
 * source's loops and is proved to compute it.
 */
module Strategies {
  import opened Text
  import opened Conditions

  datatype Option<T> = None | Some(value: T)

  function OptionToSeq<T>(o: Option<T>): seq<T>
  {
    if o.Some? then [o.value] else []
  }

  /** The payout is kept as the decimal token it was written with. */
  datatype Strategy = Strategy(conditions: seq<Condition>, value: string)

  /** `str(strategy)`: `if (c1 && c2 ...) then value`. */
  function ToString(s: Strategy): (r: string)
    ensures "if (" <= r && |r| >= 11 + |s.value|
    ensures r[|r| - |s.value| - 7..] == ") then " + s.value
    ensures s.conditions != [] && (forall i :: 0 <= i < |s.conditions| ==> ' ' !in s.conditions[i].ToString()) ==>
      Split(r[4..|r| - |s.value| - 7], " && ") == ConditionStrings(s.conditions)
  {
    var middle := Join(ConditionStrings(s.conditions), " && ");
    RuleMiddle(middle, s.value);
    JoinedConditionsSplit(s.conditions);
    "if (" + middle + ") then " + s.value
  }

  /** The text between `if (` and `) then <value>` of a rule. */
  lemma RuleMiddle(middle: string, value: string)
    ensures var r := "if (" + middle + ") then " + value;
      "if (" <= r && |r| >= 11 + |value| &&
      r[|r| - |value| - 7..] == ") then " + value && r[4..|r| - |value| - 7] == middle
  {
  }

  /** The ` && `-joined texts of conditions without spaces split back into those texts. */
  lemma JoinedConditionsSplit(cs: seq<Condition>)
    ensures cs != [] && (forall i :: 0 <= i < |cs| ==> ' ' !in cs[i].ToString()) ==>
      Split(Join(ConditionStrings(cs), " && "), " && ") == ConditionStrings(cs)
  {
    if cs != [] && (forall i :: 0 <= i < |cs| ==> ' ' !in cs[i].ToString()) {
      SplitJoin(ConditionStrings(cs), " && ");
    }
  }

  /** Strategy equality ignores the order of the conditions but not their multiplicity. */
  predicate Equal(a: Strategy, b: Strategy)
    ensures a == b ==> Equal(a, b)
    ensures Equal(a, b) ==> a.value == b.value && |a.conditions| == |b.conditions|
  {
    assert multiset(a.conditions) == multiset(b.conditions) ==> |a.conditions| == |b.conditions| by {
      assert |multiset(a.conditions)| == |a.conditions| && |multiset(b.conditions)| == |b.conditions|;
    }
    multiset(a.conditions) == multiset(b.conditions) && a.value == b.value
  }

  predicate Distinct<T(==)>(s: seq<T>)
  {
    forall i, j :: 0 <= i < j < |s| ==> s[i] != s[j]
  }

  // ---------------------------------------------------------------------
  // The specification of pruning
  // ---------------------------------------------------------------------

  /** The distinct variables of a condition list, in order of first appearance. */
  function Variables(cs: seq<Condition>): seq<string>
  {
    if cs == [] then []
    else
      var vs := Variables(cs[..|cs| - 1]);
      var x := cs[|cs| - 1].variable;
      if x in vs then vs else vs + [x]
  }

  /** The conditions on variable `x`, in list order. */
  function Group(cs: seq<Condition>, x: string): seq<Condition>
  {
    if cs == [] then []
    else
      var g := Group(cs[..|cs| - 1], x);
      if cs[|cs| - 1].variable == x then g + [cs[|cs| - 1]] else g
  }

  /** Some condition contradicts an earlier condition on its variable. */
  predicate HasClash(cs: seq<Condition>)
  {
    exists i, j :: 0 <= i < j < |cs| && cs[i].variable == cs[j].variable && cs[j].Contradicts(cs[i])
  }

  /** The four trackers the reduction loop keeps for one variable. */
  datatype Tracker = Tracker(
    equal: Option<Condition>,
    notEqual: seq<Condition>,
    lower: Option<Condition>,
    upper: Option<Condition>)

  predicate TrackerOk(t: Tracker)
  {
    (t.lower.Some? ==> t.lower.value.IsLowerBound()) &&
    (t.upper.Some? ==> t.upper.value.IsUpperBound())
  }

  /** A lower bound replaces the tracked one when larger, or when it is `>=` against `>` on the same bound. */
  predicate ReplacesLower(current: Option<Condition>, c: Condition)
    requires c.IsLowerBound() && (current.Some? ==> current.value.IsLowerBound())
  {
    current.None? || c.bound > current.value.bound ||
    (c.GreaterThanOrEqual? && current.value.GreaterThan? && c.bound == current.value.bound)
  }

  /** An upper bound replaces the tracked one when smaller, or when it is `<=` against `<` on the same bound. */
  predicate ReplacesUpper(current: Option<Condition>, c: Condition)
    requires c.IsUpperBound() && (current.Some? ==> current.value.IsUpperBound())
  {
    current.None? || c.bound < current.value.bound ||
    (c.LessThanOrEqual? && current.value.LessThan? && c.bound == current.value.bound)
  }

  /** One iteration of the reduction loop; nothing changes once an Equals has been found. */
  function Step(t: Tracker, c: Condition): (r: Tracker)
    requires TrackerOk(t)
    ensures TrackerOk(r)
  {
    if t.equal.Some? then t
    else if c.Equals? then t.(equal := Some(c))
    else if c.NotEquals? then t.(notEqual := t.notEqual + [c])
    else if c.IsLowerBound() then (if ReplacesLower(t.lower, c) then t.(lower := Some(c)) else t)
    else (if ReplacesUpper(t.upper, c) then t.(upper := Some(c)) else t)
  }

  /** The trackers after scanning a whole group. */
  function Track(g: seq<Condition>): (t: Tracker)
    ensures TrackerOk(t)
  {
    if g == [] then Tracker(None, [], None, None) else Step(Track(g[..|g| - 1]), g[|g| - 1])
  }

  /** What the reduction emits: the Equals alone, or the NotEquals, the lower bound and the upper bound. */
  function Emit(t: Tracker): seq<Condition>
  {
    if t.equal.Some? then [t.equal.value]
    else t.notEqual + OptionToSeq(t.lower) + OptionToSeq(t.upper)
  }

  function Reduce(g: seq<Condition>): seq<Condition>
  {
    Emit(Track(g))
  }

  /** The reductions of the groups of `vs`, one after the other. */
  function SimplifyOver(cs: seq<Condition>, vs: seq<string>): seq<Condition>
  {
    if vs == [] then []
    else SimplifyOver(cs, vs[..|vs| - 1]) + Reduce(Group(cs, vs[|vs| - 1]))
  }

  function Simplify(cs: seq<Condition>): seq<Condition>
  {
    SimplifyOver(cs, Variables(cs))
  }

  /** The result of pruning: nothing on a clash, otherwise the simplified conditions and the same value. */
  function Pruned(s: Strategy): Option<Strategy>
  {
    if HasClash(s.conditions) then None else Some(Strategy(Simplify(s.conditions), s.value))
  }

  function NotEqualsOf(g: seq<Condition>): seq<Condition>
  {
    if g == [] then []
    else NotEqualsOf(g[..|g| - 1]) + (if g[|g| - 1].NotEquals? then [g[|g| - 1]] else [])
  }

  // ---------------------------------------------------------------------
  // The pruning method
  // ---------------------------------------------------------------------

  /** Groups the conditions by variable, stopping at the first clash, then reduces each group. */
  method Prune(s: Strategy) returns (r: Option<Strategy>)
    ensures r == Pruned(s)
  {
    var cs := s.conditions;
    var ok, order, groups := GroupByVariable(cs);
    if !ok {
      assert Pruned(s) == None;
      return None;
    }
    var out: seq<Condition> := [];
    var j := 0;
    while j < |order|
      invariant 0 <= j <= |order|
      invariant out == SimplifyOver(cs, order[..j])
    {
      var x := order[j];
      assert x in groups && groups[x] == Group(cs, x);
      SimplifyOverStep(cs, order, j);
      var reduced := ReduceGroup(groups[x]);
      out := out + reduced;
      j := j + 1;
    }
    assert order[..j] == order;
    assert out == Simplify(cs);
    r := Some(Strategy(out, s.value));
  }

  /** One more variable of the order is one more reduced group at the end. */
  lemma SimplifyOverStep(cs: seq<Condition>, order: seq<string>, j: nat)
    requires j < |order|
    ensures SimplifyOver(cs, order[..j + 1]) == SimplifyOver(cs, order[..j]) + Reduce(Group(cs, order[j]))
  {
    assert order[..j + 1][..j] == order[..j];
  }

  /**
   * The grouping loop: files each condition under its variable, in order of
   * first appearance, and reports failure as soon as a condition contradicts
   * one already filed under its variable.
   */
  method GroupByVariable(cs: seq<Condition>) returns (ok: bool, order: seq<string>, groups: map<string, seq<Condition>>)
    ensures ok <==> !HasClash(cs)
    ensures ok ==> order == Variables(cs)
    ensures ok ==> forall x :: x in groups <==> x in order
    ensures ok ==> forall x :: x in groups ==> groups[x] == Group(cs, x)
  {
    order := [];
    groups := map[];
    var i := 0;
    while i < |cs|
      invariant 0 <= i <= |cs|
      invariant order == Variables(cs[..i])
      invariant forall x :: x in groups <==> x in order
      invariant forall x :: x in groups ==> groups[x] == Group(cs[..i], x)
      invariant !HasClash(cs[..i])
    {
      var c := cs[i];
      assert cs[..i + 1] == cs[..i] + [c];
      if c.variable !in groups {
        VariablesCoverGroups(cs[..i], c.variable);
      }
      var existing := if c.variable in groups then groups[c.variable] else [];
      ClashStep(cs[..i], c);
      if exists e :: e in existing && c.Contradicts(e) {
        ClashExtends(cs, i + 1);
        return false, order, groups;
      }
      if c.variable !in groups {
        order := order + [c.variable];
      }
      groups := groups[c.variable := existing + [c]];
      i := i + 1;
    }
    assert cs[..i] == cs;
    ok := true;
  }

  /** The reduction loop for one variable: stops at the first Equals, otherwise keeps the tightest bounds. */
  method ReduceGroup(g: seq<Condition>) returns (out: seq<Condition>)
    ensures out == Reduce(g)
  {
    var equal: Option<Condition> := None;
    var notEqual: seq<Condition> := [];
    var lower: Option<Condition> := None;
    var upper: Option<Condition> := None;
    var k := 0;
    while k < |g|
      invariant 0 <= k <= |g|
      invariant equal.None?
      invariant Tracker(equal, notEqual, lower, upper) == Track(g[..k])
    {
      var c := g[k];
      assert g[..k + 1][..k] == g[..k];
      if c.Equals? {
        equal := Some(c);
        TrackStopsAtEquals(g, k + 1);
        break;
      } else if c.NotEquals? {
        notEqual := notEqual + [c];
      } else if c.IsLowerBound() {
        if ReplacesLower(lower, c) {
          lower := Some(c);
        }
      } else {
        if ReplacesUpper(upper, c) {
          upper := Some(c);
        }
      }
      k := k + 1;
    }
    assert k == |g| ==> g[..k] == g;
    if equal.Some? {
      out := [equal.value];
    } else {
      out := notEqual;
      if lower.Some? {
        out := out + [lower.value];
      }
      if upper.Some? {
        out := out + [upper.value];
      }
    }
  }

  // ---------------------------------------------------------------------
  // Grouping
  // ---------------------------------------------------------------------

  lemma {:induction false} GroupMembers(cs: seq<Condition>, x: string, c: Condition)
    ensures c in Group(cs, x) <==> c in cs && c.variable == x
  {
    if cs != [] {
      GroupMembers(cs[..|cs| - 1], x, c);
      assert cs == cs[..|cs| - 1] + [cs[|cs| - 1]];
    }
  }

  lemma {:induction false} VariablesMembers(cs: seq<Condition>, x: string)
    ensures x in Variables(cs) <==> exists c :: c in cs && c.variable == x
  {
    if cs != [] {
      VariablesMembers(cs[..|cs| - 1], x);
      assert cs == cs[..|cs| - 1] + [cs[|cs| - 1]];
    }
  }

  lemma {:induction false} VariablesDistinct(cs: seq<Condition>)
    ensures Distinct(Variables(cs))
  {
    if cs != [] {
      VariablesDistinct(cs[..|cs| - 1]);
    }
  }

  /** A variable has a non-empty group exactly when it is one of the listed variables. */
  lemma VariablesCoverGroups(cs: seq<Condition>, x: string)
    ensures x in Variables(cs) <==> Group(cs, x) != []
  {
    VariablesMembers(cs, x);
    if x in Variables(cs) {
      var c :| c in cs && c.variable == x;
      GroupMembers(cs, x, c);
    } else if Group(cs, x) != [] {
      GroupMembers(cs, x, Group(cs, x)[0]);
    }
  }

  lemma {:induction false} GroupAppend(a: seq<Condition>, b: seq<Condition>, x: string)
    ensures Group(a + b, x) == Group(a, x) + Group(b, x)
    decreases |b|
  {
    if b == [] {
      assert a + b == a;
    } else {
      assert (a + b)[..|a + b| - 1] == a + b[..|b| - 1];
      GroupAppend(a, b[..|b| - 1], x);
    }
  }

  /** A list whose conditions are all on `w` is its own group for `w` and has none for other variables. */
  lemma {:induction false} GroupUniform(b: seq<Condition>, w: string, x: string)
    requires forall c :: c in b ==> c.variable == w
    ensures Group(b, x) == if x == w then b else []
  {
    if b != [] {
      GroupUniform(b[..|b| - 1], w, x);
      assert b[..|b| - 1] + [b[|b| - 1]] == b;
    }
  }

  lemma {:induction false} VariablesAppendUniform(a: seq<Condition>, b: seq<Condition>, w: string)
    requires b != [] && w !in Variables(a)
    requires forall c :: c in b ==> c.variable == w
    ensures Variables(a + b) == Variables(a) + [w]
    decreases |b|
  {
    assert (a + b)[..|a + b| - 1] == a + b[..|b| - 1];
    if |b| == 1 {
      assert a + b[..|b| - 1] == a;
    } else {
      VariablesAppendUniform(a, b[..|b| - 1], w);
    }
  }

  // ---------------------------------------------------------------------
  // Clash detection
  // ---------------------------------------------------------------------

  /** The incremental check of the grouping loop: the new condition against the earlier ones on its variable. */
  lemma ClashStep(prefix: seq<Condition>, last: Condition)
    ensures HasClash(prefix + [last]) <==>
      HasClash(prefix) || exists e :: e in Group(prefix, last.variable) && last.Contradicts(e)
  {
    var cs := prefix + [last];
    var n := |prefix|;
    if HasClash(cs) && !HasClash(prefix) {
      var i, j :| 0 <= i < j < |cs| && cs[i].variable == cs[j].variable && cs[j].Contradicts(cs[i]);
      assert j == n;
      GroupMembers(prefix, last.variable, cs[i]);
      assert cs[i] in prefix;
    }
    if exists e :: e in Group(prefix, last.variable) && last.Contradicts(e) {
      var e :| e in Group(prefix, last.variable) && last.Contradicts(e);
      GroupMembers(prefix, last.variable, e);
      var i :| 0 <= i < n && prefix[i] == e;
      assert cs[i] == e && cs[n] == last;
    }
    if HasClash(prefix) {
      var i, j :| 0 <= i < j < |prefix| && prefix[i].variable == prefix[j].variable && prefix[j].Contradicts(prefix[i]);
      assert cs[i] == prefix[i] && cs[j] == prefix[j];
    }
  }

  lemma ClashExtends(cs: seq<Condition>, k: nat)
    requires k <= |cs| && HasClash(cs[..k])
    ensures HasClash(cs)
  {
    var p := cs[..k];
    var i, j :| 0 <= i < j < |p| && p[i].variable == p[j].variable && p[j].Contradicts(p[i]);
    assert cs[i] == p[i] && cs[j] == p[j];
  }

  // ---------------------------------------------------------------------
  // The reduction of one group
  // ---------------------------------------------------------------------

  /** Once an Equals is tracked the rest of the group is not looked at: the loop's `break`. */
  lemma {:induction false} TrackStopsAtEquals(g: seq<Condition>, k: nat)
    requires k <= |g| && Track(g[..k]).equal.Some?
    ensures Track(g) == Track(g[..k])
    decreases |g| - k
  {
    if k < |g| {
      assert g[..k + 1][..k] == g[..k];
      TrackStopsAtEquals(g, k + 1);
    } else {
      assert g[..k] == g;
    }
  }

  /** The tracked Equals is the first Equals of the group. */
  lemma {:induction false} TrackFindsFirstEquals(g: seq<Condition>, k: nat)
    requires k < |g| && g[k].Equals?
    requires forall m :: 0 <= m < k ==> !g[m].Equals?
    ensures Track(g).equal == Some(g[k])
    decreases |g|
  {
    var n := |g| - 1;
    if n == k {
      TrackWithoutEquals(g[..n]);
    } else {
      TrackFindsFirstEquals(g[..n], k);
    }
  }

  /** Without an Equals, the tracked NotEquals are all of them, in order. */
  lemma {:induction false} TrackWithoutEquals(g: seq<Condition>)
    requires forall c :: c in g ==> !c.Equals?
    ensures Track(g).equal.None?
    ensures Track(g).notEqual == NotEqualsOf(g)
  {
    if g != [] {
      TrackWithoutEquals(g[..|g| - 1]);
    }
  }

  /** Every tracked condition comes from the group. */
  lemma {:induction false} TrackWithin(g: seq<Condition>)
    ensures Track(g).equal.Some? ==> Track(g).equal.value in g && Track(g).equal.value.Equals?
    ensures forall c :: c in Track(g).notEqual ==> c in g
    ensures Track(g).lower.Some? ==> Track(g).lower.value in g
    ensures Track(g).upper.Some? ==> Track(g).upper.value in g
  {
    if g != [] {
      var prefix := g[..|g| - 1];
      TrackWithin(prefix);
      WithinStep(prefix, g[|g| - 1], Track(prefix));
      assert g == prefix + [g[|g| - 1]];
    }
  }

  /** One step of the scan only ever tracks the condition it reads. */
  lemma WithinStep(g: seq<Condition>, c: Condition, t: Tracker)
    requires TrackerOk(t)
    requires t.equal.Some? ==> t.equal.value in g && t.equal.value.Equals?
    requires forall d :: d in t.notEqual ==> d in g
    requires t.lower.Some? ==> t.lower.value in g
    requires t.upper.Some? ==> t.upper.value in g
    ensures Step(t, c).equal.Some? ==> Step(t, c).equal.value in g + [c] && Step(t, c).equal.value.Equals?
    ensures forall d :: d in Step(t, c).notEqual ==> d in g + [c]
    ensures Step(t, c).lower.Some? ==> Step(t, c).lower.value in g + [c]
    ensures Step(t, c).upper.Some? ==> Step(t, c).upper.value in g + [c]
  {
  }

  /**
   * Without an Equals, the tracked lower bound exists exactly when the group
   * has one, has the largest bound of them, and is `>=` whenever a `>=`
   * shares that bound.
   */
  lemma {:induction false} TrackLower(g: seq<Condition>)
    requires forall c :: c in g ==> !c.Equals?
    ensures Track(g).lower.None? <==> forall c :: c in g ==> !c.IsLowerBound()
    ensures Track(g).lower.Some? ==>
      var lo := Track(g).lower.value;
      lo in g && lo.IsLowerBound() &&
      (forall c :: c in g && c.IsLowerBound() ==> c.bound <= lo.bound) &&
      (forall c :: c in g && c.GreaterThanOrEqual? && c.bound == lo.bound ==> lo.GreaterThanOrEqual?)
  {
    if g != [] {
      var prefix := g[..|g| - 1];
      TrackLower(prefix);
      TrackWithoutEquals(prefix);
      LowerStep(prefix, g[|g| - 1], Track(prefix));
      assert g == prefix + [g[|g| - 1]];
    }
  }

  /** One step of the scan keeps the tracked lower bound the best one seen so far. */
  lemma LowerStep(g: seq<Condition>, c: Condition, t: Tracker)
    requires TrackerOk(t) && t.equal.None? && !c.Equals?
    requires t.lower.None? <==> forall d :: d in g ==> !d.IsLowerBound()
    requires t.lower.Some? ==>
      t.lower.value in g &&
      (forall d :: d in g && d.IsLowerBound() ==> d.bound <= t.lower.value.bound) &&
      (forall d :: d in g && d.GreaterThanOrEqual? && d.bound == t.lower.value.bound ==> t.lower.value.GreaterThanOrEqual?)
    ensures var lo := Step(t, c).lower;
      (lo.None? <==> forall d :: d in g + [c] ==> !d.IsLowerBound()) &&
      (lo.Some? ==>
        lo.value in g + [c] &&
        (forall d :: d in g + [c] && d.IsLowerBound() ==> d.bound <= lo.value.bound) &&
        (forall d :: d in g + [c] && d.GreaterThanOrEqual? && d.bound == lo.value.bound ==> lo.value.GreaterThanOrEqual?))
  {
  }

  /**
   * Without an Equals, the tracked upper bound exists exactly when the group
   * has one, has the smallest bound of them, and is `<=` whenever a `<=`
   * shares that bound.
   */
  lemma {:induction false} TrackUpper(g: seq<Condition>)
    requires forall c :: c in g ==> !c.Equals?
    ensures Track(g).upper.None? <==> forall c :: c in g ==> !c.IsUpperBound()
    ensures Track(g).upper.Some? ==>
      var up := Track(g).upper.value;
      up in g && up.IsUpperBound() &&
      (forall c :: c in g && c.IsUpperBound() ==> up.bound <= c.bound) &&
      (forall c :: c in g && c.LessThanOrEqual? && c.bound == up.bound ==> up.LessThanOrEqual?)
  {
    if g != [] {
      var prefix := g[..|g| - 1];
      TrackUpper(prefix);
      TrackWithoutEquals(prefix);
      UpperStep(prefix, g[|g| - 1], Track(prefix));
      assert g == prefix + [g[|g| - 1]];
    }
  }

  /** One step of the scan keeps the tracked upper bound the best one seen so far. */
  lemma UpperStep(g: seq<Condition>, c: Condition, t: Tracker)
    requires TrackerOk(t) && t.equal.None? && !c.Equals?
    requires t.upper.None? <==> forall d :: d in g ==> !d.IsUpperBound()
    requires t.upper.Some? ==>
      t.upper.value in g &&
      (forall d :: d in g && d.IsUpperBound() ==> t.upper.value.bound <= d.bound) &&
      (forall d :: d in g && d.LessThanOrEqual? && d.bound == t.upper.value.bound ==> t.upper.value.LessThanOrEqual?)
    ensures var up := Step(t, c).upper;
      (up.None? <==> forall d :: d in g + [c] ==> !d.IsUpperBound()) &&
      (up.Some? ==>
        up.value in g + [c] &&
        (forall d :: d in g + [c] && d.IsUpperBound() ==> up.value.bound <= d.bound) &&
        (forall d :: d in g + [c] && d.LessThanOrEqual? && d.bound == up.value.bound ==> up.value.LessThanOrEqual?))
  {
  }

  lemma {:induction false} NotEqualsOfMembers(g: seq<Condition>, c: Condition)
    ensures c in NotEqualsOf(g) <==> c in g && c.NotEquals?
  {
    if g != [] {
      NotEqualsOfMembers(g[..|g| - 1], c);
      assert g == g[..|g| - 1] + [g[|g| - 1]];
    }
  }

  /** The reduction keeps only conditions of the group, and keeps at least one of a non-empty group. */
  lemma ReduceWithin(g: seq<Condition>)
    ensures forall c :: c in Reduce(g) ==> c in g
    ensures g != [] ==> Reduce(g) != []
  {
    TrackWithin(g);
    if g != [] && Track(g).equal.None? {
      if exists c :: c in g && c.Equals? {
        var k := FirstEqualsIndex(g);
        TrackFindsFirstEquals(g, k);
      } else {
        TrackWithoutEquals(g);
        TrackLower(g);
        TrackUpper(g);
        NotEqualsOfMembers(g, g[0]);
      }
    }
  }

  function FirstEqualsIndex(g: seq<Condition>): (k: nat)
    requires exists c :: c in g && c.Equals?
    ensures k < |g| && g[k].Equals? && forall m :: 0 <= m < k ==> !g[m].Equals?
  {
    if g[0].Equals? then 0
    else
      assert exists c :: c in g[1..] && c.Equals? by {
        var c :| c in g && c.Equals?;
        assert c in g[1..];
      }
      1 + FirstEqualsIndex(g[1..])
  }

  // ---------------------------------------------------------------------
  // Properties of pruning
  // ---------------------------------------------------------------------

  /** The reduction of a variable's group only mentions that variable. */
  lemma ReduceOnVariable(cs: seq<Condition>, w: string)
    ensures forall c :: c in Reduce(Group(cs, w)) ==> c.variable == w
  {
    ReduceWithin(Group(cs, w));
    forall c | c in Reduce(Group(cs, w)) ensures c.variable == w {
      GroupMembers(cs, w, c);
    }
  }

  lemma {:induction false} SimplifyOverGroups(cs: seq<Condition>, vs: seq<string>, x: string)
    requires Distinct(vs)
    ensures Group(SimplifyOver(cs, vs), x) == if x in vs then Reduce(Group(cs, x)) else []
  {
    if vs != [] {
      var w := vs[|vs| - 1];
      var front := vs[..|vs| - 1];
      assert vs == front + [w];
      assert Distinct(front);
      assert w !in front;
      SimplifyOverGroups(cs, front, x);
      var b := Reduce(Group(cs, w));
      ReduceOnVariable(cs, w);
      GroupAppend(SimplifyOver(cs, front), b, x);
      GroupUniform(b, w, x);
    }
  }

  /** For every variable, the output's conditions on it are the reduction of the input's conditions on it. */
  lemma SimplifyGroups(cs: seq<Condition>, x: string)
    ensures Group(Simplify(cs), x) == Reduce(Group(cs, x))
  {
    VariablesDistinct(cs);
    SimplifyOverGroups(cs, Variables(cs), x);
    if x !in Variables(cs) {
      VariablesCoverGroups(cs, x);
    }
  }

  lemma {:induction false} SimplifyOverVariables(cs: seq<Condition>, vs: seq<string>)
    requires Distinct(vs)
    requires forall x :: x in vs ==> Group(cs, x) != []
    ensures Variables(SimplifyOver(cs, vs)) == vs
  {
    if vs != [] {
      var w := vs[|vs| - 1];
      var front := vs[..|vs| - 1];
      assert vs == front + [w];
      assert Distinct(front);
      assert w !in front;
      assert forall x :: x in front ==> x in vs;
      SimplifyOverVariables(cs, front);
      var a := SimplifyOver(cs, front);
      var b := Reduce(Group(cs, w));
      assert SimplifyOver(cs, vs) == a + b;
      ReduceOnVariable(cs, w);
      ReduceWithin(Group(cs, w));
      assert b != [];
      VariablesAppendUniform(SimplifyOver(cs, front), b, w);
    }
  }

  /** The output mentions the same variables as the input, groups in order of first appearance. */
  lemma SimplifyVariables(cs: seq<Condition>)
    ensures Variables(Simplify(cs)) == Variables(cs)
  {
    VariablesDistinct(cs);
    forall x | x in Variables(cs) ensures Group(cs, x) != [] {
      VariablesCoverGroups(cs, x);
    }
    SimplifyOverVariables(cs, Variables(cs));
  }

  /** Every output condition occurs in the input. */
  lemma SimplifyWithin(cs: seq<Condition>, c: Condition)
    requires c in Simplify(cs)
    ensures c in cs
  {
    GroupMembers(Simplify(cs), c.variable, c);
    SimplifyGroups(cs, c.variable);
    ReduceWithin(Group(cs, c.variable));
    GroupMembers(cs, c.variable, c);
  }

  /** Pruning fails exactly on a clash and otherwise keeps the value and only input conditions. */
  lemma PrunedKeepsValue(s: Strategy)
    ensures Pruned(s).None? <==> HasClash(s.conditions)
    ensures Pruned(s).Some? ==> Pruned(s).value.value == s.value
    ensures Pruned(s).Some? ==> forall c :: c in Pruned(s).value.conditions ==> c in s.conditions
  {
    if Pruned(s).Some? {
      forall c | c in Pruned(s).value.conditions ensures c in s.conditions {
        SimplifyWithin(s.conditions, c);
      }
    }
  }

  /** The conditions on `x` before position `k` form a prefix of the conditions on `x`. */
  lemma {:induction false} GroupPrefix(cs: seq<Condition>, k: nat, x: string)
    requires k <= |cs|
    ensures Group(cs, x) == Group(cs[..k], x) + Group(cs[k..], x)
  {
    assert cs == cs[..k] + cs[k..];
    GroupAppend(cs[..k], cs[k..], x);
  }

  /** If the input has an Equals on `x`, the output's conditions on `x` are exactly the first such Equals. */
  lemma PruneEqualsPins(s: Strategy, x: string, k: nat)
    requires Pruned(s).Some?
    requires k < |s.conditions|
    requires s.conditions[k].Equals? && s.conditions[k].variable == x
    requires forall m :: 0 <= m < k ==> !(s.conditions[m].Equals? && s.conditions[m].variable == x)
    ensures Group(Pruned(s).value.conditions, x) == [s.conditions[k]]
  {
    SimplifyEqualsPins(s.conditions, x, k);
  }

  lemma SimplifyEqualsPins(cs: seq<Condition>, x: string, k: nat)
    requires k < |cs|
    requires cs[k].Equals? && cs[k].variable == x
    requires forall m :: 0 <= m < k ==> !(cs[m].Equals? && cs[m].variable == x)
    ensures Group(Simplify(cs), x) == [cs[k]]
  {
    SimplifyGroups(cs, x);
    var j := GroupFirstEquals(cs, x, k);
    TrackFindsFirstEquals(Group(cs, x), j);
  }

  /** The first Equals on `x` in the input is the first Equals of the group of `x`. */
  lemma GroupFirstEquals(cs: seq<Condition>, x: string, k: nat) returns (j: nat)
    requires k < |cs|
    requires cs[k].Equals? && cs[k].variable == x
    requires forall m :: 0 <= m < k ==> !(cs[m].Equals? && cs[m].variable == x)
    ensures j < |Group(cs, x)| && Group(cs, x)[j] == cs[k]
    ensures forall m :: 0 <= m < j ==> !Group(cs, x)[m].Equals?
  {
    GroupPrefix(cs, k, x);
    var before := Group(cs[..k], x);
    assert cs[k..] == [cs[k]] + cs[k + 1..];
    GroupAppend([cs[k]], cs[k + 1..], x);
    assert Group([cs[k]], x) == [cs[k]] by {
      assert [cs[k]][..0] == [];
    }
    var g := Group(cs, x);
    j := |before|;
    assert g[j] == cs[k];
    forall m | 0 <= m < j ensures !g[m].Equals? {
      assert g[m] == before[m];
      GroupMembers(cs[..k], x, before[m]);
    }
  }

  /**
   * If the input has no Equals on `x`, the output's conditions on `x` are its
   * NotEquals in input order, then the tracked lower bound, then the tracked
   * upper bound (see TrackLower and TrackUpper for which ones they are).
   */
  lemma PruneKeepsBounds(s: Strategy, x: string)
    requires Pruned(s).Some?
    requires forall c :: c in s.conditions && c.variable == x ==> !c.Equals?
    ensures var g := Group(s.conditions, x);
      Group(Pruned(s).value.conditions, x) ==
        NotEqualsOf(g) + OptionToSeq(Track(g).lower) + OptionToSeq(Track(g).upper)
  {
    var g := Group(s.conditions, x);
    forall c | c in g ensures !c.Equals? {
      GroupMembers(s.conditions, x, c);
    }
    SimplifyGroups(s.conditions, x);
    TrackWithoutEquals(g);
  }

  /** Conditions that are all on one variable simplify to the reduction of the whole list. */
  lemma SimplifySingleVariable(cs: seq<Condition>, x: string)
    requires cs != []
    requires forall c :: c in cs ==> c.variable == x
    ensures Simplify(cs) == Reduce(cs)
  {
    VariablesAppendUniform([], cs, x);
    assert [] + cs == cs;
    assert Variables([]) == [];
    GroupUniform(cs, x, x);
    assert SimplifyOver(cs, [x]) == SimplifyOver(cs, [x][..0]) + Reduce(Group(cs, x));
  }

  /** A single condition reduces to itself, whatever its variant. */
  lemma ReduceSingle(c: Condition)
    ensures Reduce([c]) == [c]
  {
    assert [c][..0] == [];
    assert Track([c]) == Step(Tracker(None, [], None, None), c);
  }

  /** A strategy with one condition prunes to itself. */
  lemma PruneSingle(c: Condition, v: string)
    ensures Pruned(Strategy([c], v)) == Some(Strategy([c], v))
  {
    assert !HasClash([c]);
    SimplifySingleVariable([c], c.variable);
    ReduceSingle(c);
  }

  lemma TwoVariablesGroups(a: Condition, b: Condition)
    requires a.variable != b.variable
    ensures Variables([a, b]) == [a.variable, b.variable]
    ensures Group([a, b], a.variable) == [a] && Group([a, b], b.variable) == [b]
  {
    var cs := [a, b];
    assert cs[..1] == [a] && [a][..0] == [];
    assert Variables([a]) == [a.variable];
    assert Group([a], a.variable) == [a] && Group([a], b.variable) == [];
  }

  lemma SimplifyOverOne(cs: seq<Condition>, x: string)
    ensures SimplifyOver(cs, [x]) == Reduce(Group(cs, x))
  {
    assert [x][..0] == [];
  }

  lemma SimplifyOverTwo(cs: seq<Condition>, x: string, y: string)
    ensures SimplifyOver(cs, [x, y]) == Reduce(Group(cs, x)) + Reduce(Group(cs, y))
  {
    assert [x, y][..1] == [x];
    SimplifyOverOne(cs, x);
  }

  lemma SimplifyTwoVariables(a: Condition, b: Condition)
    requires a.variable != b.variable
    ensures Simplify([a, b]) == [a, b]
  {
    TwoVariablesGroups(a, b);
    SimplifyOverTwo([a, b], a.variable, b.variable);
    ReduceSingle(a);
    ReduceSingle(b);
    assert [a] + [b] == [a, b];
  }

  /** A strategy with two conditions on different variables prunes to itself. */
  lemma PruneTwoVariables(a: Condition, b: Condition, v: string)
    requires a.variable != b.variable
    ensures Pruned(Strategy([a, b], v)) == Some(Strategy([a, b], v))
  {
    assert !HasClash([a, b]);
    SimplifyTwoVariables(a, b);
  }

  /**
   * Pruning is not idempotent: `x<50, x>=50` survives (the `>=`/`<` test is
   * asymmetric) and is reordered into `x>=50, x<50`, which then clashes.
   */
  lemma PruneNotIdempotent()
    ensures Pruned(Strategy([LessThan("x", 50), GreaterThanOrEqual("x", 50)], "1.0"))
      == Some(Strategy([GreaterThanOrEqual("x", 50), LessThan("x", 50)], "1.0"))
    ensures Pruned(Strategy([GreaterThanOrEqual("x", 50), LessThan("x", 50)], "1.0")) == None
  {
    var lt := LessThan("x", 50);
    var ge := GreaterThanOrEqual("x", 50);
    var cs := [lt, ge];
    assert !HasClash(cs) by {
      assert !ge.Contradicts(lt);
    }
    assert cs[..1] == [lt];
    assert Track([lt]) == Tracker(None, [], None, Some(lt));
    assert Reduce(cs) == [ge, lt];
    SimplifySingleVariable(cs, "x");
    var flipped := [ge, lt];
    assert flipped[1].Contradicts(flipped[0]);
  }

  // ---------------------------------------------------------------------
  // Equality and rendering
  // ---------------------------------------------------------------------

  /** Swapping two conditions gives an equal strategy. */
  lemma EqualIgnoresOrder(cs: seq<Condition>, v: string, i: nat, j: nat)
    requires i < j < |cs|
    ensures Equal(Strategy(cs, v), Strategy(cs[i := cs[j]][j := cs[i]], v))
  {
    var swapped := cs[i := cs[j]][j := cs[i]];
    assert cs == cs[..i] + [cs[i]] + cs[i + 1..j] + [cs[j]] + cs[j + 1..];
    assert swapped == cs[..i] + [cs[j]] + cs[i + 1..j] + [cs[i]] + cs[j + 1..];
  }

  /** Equal strategies have the same value and the same conditions, counted with multiplicity. */
  lemma EqualSameConditions(a: Strategy, b: Strategy, c: Condition)
    requires Equal(a, b)
    ensures a.value == b.value && |a.conditions| == |b.conditions|
    ensures c in a.conditions <==> c in b.conditions
    ensures multiset(a.conditions) == multiset(b.conditions)
  {
    assert |multiset(a.conditions)| == |multiset(b.conditions)|;
    assert c in a.conditions <==> c in multiset(a.conditions);
  }

  /** Each condition of a rendered rule can be read back from the text between the `&&` separators. */
  lemma RuleListsEachCondition(s: Strategy)
    requires s.conditions != []
    requires forall i :: 0 <= i < |s.conditions| ==> ' ' !in s.conditions[i].ToString()
    ensures Split(Join(ConditionStrings(s.conditions), " && "), " && ") == ConditionStrings(s.conditions)
  {
    SplitJoin(ConditionStrings(s.conditions), " && ");
  }

  /** The fixture strategy renders with its six conditions joined by ` && `. */
  lemma StrategyExample()
    ensures ToString(Strategy(
        [Equals("age", I(18)), NotEquals("status", S("inactive")), GreaterThan("score", 90),
         GreaterThanOrEqual("points", 100), LessThan("time", 60), LessThanOrEqual("distance", 5)],
        "0.5"))
      == "if (" + ("age=18" + " && " + "status!=inactive" + " && " + "score>90" + " && " +
         "points>=100" + " && " + "time<60" + " && " + "distance<=5") + ") then " + "0.5"
  {
    FixtureTexts();
    FixtureBoundTexts();
    StringsOfSix(Equals("age", I(18)), NotEquals("status", S("inactive")), GreaterThan("score", 90),
      GreaterThanOrEqual("points", 100), LessThan("time", 60), LessThanOrEqual("distance", 5));
    JoinSix("age=18", "status!=inactive", "score>90", "points>=100", "time<60", "distance<=5", " && ");
  }

  // ---------------------------------------------------------------------
  // The pruning examples
  // ---------------------------------------------------------------------

  /** `price>100, price<90`: the second bound contradicts the first, so the strategy is dropped. */
  lemma PriceBoundsClash()
    ensures Pruned(Strategy([GreaterThan("price", 100), LessThan("price", 90)], "0.5")) == None
  {
    var cs := [GreaterThan("price", 100), LessThan("price", 90)];
    assert cs[1].Contradicts(cs[0]);
  }

  /** `rating>=4, rating<3, status=approved`: `rating<3` contradicts `rating>=4`. */
  lemma RatingBoundsClash()
    ensures Pruned(Strategy([GreaterThanOrEqual("rating", 4), LessThan("rating", 3), Equals("status", S("approved"))], "1.0")) == None
  {
    var cs := [GreaterThanOrEqual("rating", 4), LessThan("rating", 3), Equals("status", S("approved"))];
    assert cs[1].Contradicts(cs[0]);
  }

  /**
   * `category!=electronics, category!=furniture, status=active`: under the
   * NotEquals cell of the contradiction table the second NotEquals clashes
   * with the first, so this strategy is dropped.
   */
  lemma CategoryNotEqualsDropped()
    ensures Pruned(Strategy([NotEquals("category", S("electronics")), NotEquals("category", S("furniture")), Equals("status", S("active"))], "1.0")) == None
  {
    var cs := [NotEquals("category", S("electronics")), NotEquals("category", S("furniture")), Equals("status", S("active"))];
    assert cs[1].Contradicts(cs[0]);
  }

  /** `temperature>0, >=10, <50, <=45` keeps the tightest bound on each side: `>=10` and `<=45`. */
  lemma TemperatureBounds()
    ensures Pruned(Strategy([GreaterThan("temperature", 0), GreaterThanOrEqual("temperature", 10), LessThan("temperature", 50), LessThanOrEqual("temperature", 45)], "0.75"))
      == Some(Strategy([GreaterThanOrEqual("temperature", 10), LessThanOrEqual("temperature", 45)], "0.75"))
  {
    var a, b, c, d := GreaterThan("temperature", 0), GreaterThanOrEqual("temperature", 10), LessThan("temperature", 50), LessThanOrEqual("temperature", 45);
    var cs := [a, b, c, d];
    assert !HasClash(cs);
    SimplifySingleVariable(cs, "temperature");
    TrackFour(a, b, c, d);
    var t0 := Tracker(None, [], None, None);
    assert Step(t0, a) == Tracker(None, [], Some(a), None);
    assert Step(Step(t0, a), b) == Tracker(None, [], Some(b), None);
    assert Step(Step(Step(t0, a), b), c) == Tracker(None, [], Some(b), Some(c));
    assert Track(cs) == Tracker(None, [], Some(b), Some(d));
    assert Emit(Track(cs)) == [b, d];
    assert Simplify(cs) == [b, d];
    assert Pruned(Strategy(cs, "0.75")) == Some(Strategy([b, d], "0.75"));
  }

  lemma TrackFour(a: Condition, b: Condition, c: Condition, d: Condition)
    ensures Track([a, b, c, d]) == Step(Step(Step(Step(Tracker(None, [], None, None), a), b), c), d)
  {
    TrackSnoc([], a);
    assert [] + [a] == [a];
    TrackSnoc([a], b);
    assert [a] + [b] == [a, b];
    TrackSnoc([a, b], c);
    assert [a, b] + [c] == [a, b, c];
    TrackSnoc([a, b, c], d);
    assert [a, b, c] + [d] == [a, b, c, d];
  }

  /** Scanning one more condition is one more step of the reduction loop. */
  lemma TrackSnoc(g: seq<Condition>, c: Condition)
    ensures Track(g + [c]) == Step(Track(g), c)
  {
    assert (g + [c])[..|g|] == g;
  }

  /** `value>50, value>=60, type=premium, weight<=100, weight<150` keeps `value>=60, type=premium, weight<=100`. */
  lemma ValueTypeWeight()
    ensures Pruned(Strategy([GreaterThan("value", 50), GreaterThanOrEqual("value", 60), Equals("type", S("premium")),
                             LessThanOrEqual("weight", 100), LessThan("weight", 150)], "1.0"))
      == Some(Strategy([GreaterThanOrEqual("value", 60), Equals("type", S("premium")), LessThanOrEqual("weight", 100)], "1.0"))
  {
    var a, b, c := GreaterThan("value", 50), GreaterThanOrEqual("value", 60), Equals("type", S("premium"));
    var d, e := LessThanOrEqual("weight", 100), LessThan("weight", 150);
    var cs := [a, b, c, d, e];
    assert !HasClash(cs);
    TrackTwo(a, b);
    TrackTwo(d, e);
    assert Reduce([a, b]) == [b];
    assert Reduce([d, e]) == [d];
    assert cs == [a, b] + [c] + [d, e];
    ReduceSingle(c);
    SimplifyThreeParts([a, b], [c], [d, e], "value", "type", "weight");
    assert Simplify(cs) == [b] + [c] + [d] == [b, c, d];
    assert Pruned(Strategy(cs, "1.0")) == Some(Strategy([b, c, d], "1.0"));
  }

  /** Three non-empty parts, each on its own variable, simplify part by part. */
  lemma SimplifyThreeParts(p: seq<Condition>, q: seq<Condition>, r: seq<Condition>, x: string, y: string, z: string)
    requires p != [] && q != [] && r != []
    requires x != y && x != z && y != z
    requires forall c :: c in p ==> c.variable == x
    requires forall c :: c in q ==> c.variable == y
    requires forall c :: c in r ==> c.variable == z
    ensures Simplify(p + q + r) == Reduce(p) + Reduce(q) + Reduce(r)
  {
    VariablesThree(p, q, r, x, y, z);
    GroupInThree(p, q, r, x, y, z, x);
    GroupInThree(p, q, r, x, y, z, y);
    GroupInThree(p, q, r, x, y, z, z);
    SimplifyOverThree(p + q + r, x, y, z);
    assert Group(p + q + r, x) == p && Group(p + q + r, y) == q && Group(p + q + r, z) == r;
  }

  lemma VariablesThree(p: seq<Condition>, q: seq<Condition>, r: seq<Condition>, x: string, y: string, z: string)
    requires p != [] && q != [] && r != []
    requires x != y && x != z && y != z
    requires forall c :: c in p ==> c.variable == x
    requires forall c :: c in q ==> c.variable == y
    requires forall c :: c in r ==> c.variable == z
    ensures Variables(p + q + r) == [x, y, z]
  {
    VariablesTwo(p, q, x, y);
    VariablesAppendUniform(p + q, r, z);
    assert [x, y] + [z] == [x, y, z];
  }

  lemma VariablesTwo(p: seq<Condition>, q: seq<Condition>, x: string, y: string)
    requires p != [] && q != [] && x != y
    requires forall c :: c in p ==> c.variable == x
    requires forall c :: c in q ==> c.variable == y
    ensures Variables(p + q) == [x, y]
  {
    assert [] + p == p;
    VariablesAppendUniform([], p, x);
    assert Variables(p) == [x];
    VariablesAppendUniform(p, q, y);
  }

  /** The group of `x` in three uniform parts laid end to end. */
  lemma GroupInThree(p: seq<Condition>, q: seq<Condition>, r: seq<Condition>, wp: string, wq: string, wr: string, x: string)
    requires forall c :: c in p ==> c.variable == wp
    requires forall c :: c in q ==> c.variable == wq
    requires forall c :: c in r ==> c.variable == wr
    ensures Group(p + q + r, x) == (if x == wp then p else []) + (if x == wq then q else []) + (if x == wr then r else [])
  {
    GroupAppend(p + q, r, x);
    GroupAppend(p, q, x);
    GroupUniform(p, wp, x);
    GroupUniform(q, wq, x);
    GroupUniform(r, wr, x);
  }

  lemma SimplifyOverThree(cs: seq<Condition>, x: string, y: string, z: string)
    ensures SimplifyOver(cs, [x, y, z]) == Reduce(Group(cs, x)) + Reduce(Group(cs, y)) + Reduce(Group(cs, z))
  {
    assert [x, y, z][..2] == [x, y];
    SimplifyOverTwo(cs, x, y);
  }

  lemma TrackTwo(a: Condition, b: Condition)
    ensures Track([a, b]) == Step(Step(Tracker(None, [], None, None), a), b)
  {
    TrackSnoc([], a);
    assert [] + [a] == [a];
    TrackSnoc([a], b);
    assert [a] + [b] == [a, b];
  }
}
