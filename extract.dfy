/**
 * Turning a tree into strategies: every root-to-leaf walk collects the
 * conditions it passes (a condition of a branch on the way to its true
 * child, the negation of that condition on the way to its false child),
 * and the strategy of the walk is pruned; walks whose pruning fails are
 * dropped.
 *
 * `Walks` lists the candidates in the order the explicit work stack
 * reaches the leaves and `PruneAll` prunes them; the method
 * `GetStrategies` runs the stack and is proved to compute the same list.
 */
module Extraction {
  import opened Conditions
  import opened Strategies
  import opened Trees

  /** One entry of the work stack: a node still to visit and the conditions collected on the way to it. */
  datatype Work = Work(node: Node, path: seq<Condition>)

  // ---------------------------------------------------------------------
  // The specification of the traversal
  // ---------------------------------------------------------------------

  /**
   * The candidate strategies, before pruning, of the leaves below `n` when
   * `n` is reached having collected `acc`, in the order the work stack
   * reaches those leaves.
   */
  function Walks(n: Node, acc: seq<Condition>): seq<Strategy>
    decreases n, 1
  {
    match n
    case Leaf(_, v) => [Strategy(acc, v)]
    case Branch(_, cs, _, _) => OrWalks(n, acc, |cs|)
  }

  /**
   * The candidates below the items pushed for the first `k` OR-conditions of
   * branch `n`, last pushed first: for condition `k - 1` the false child
   * (under its negation), then the true child (under the condition), then
   * the earlier conditions.
   */
  function OrWalks(n: Node, acc: seq<Condition>, k: nat): seq<Strategy>
    requires n.Branch? && k <= |n.conditions|
    decreases n, 0, k
  {
    if k == 0 then []
    else
      var c := n.conditions[k - 1];
      Walks(n.no, acc + [c.Negate()]) + Walks(n.yes, acc + [c]) + OrWalks(n, acc, k - 1)
  }

  /** The candidates below a whole stack: its top item first. */
  function StackWalks(stack: seq<Work>): seq<Strategy>
  {
    if stack == [] then []
    else
      var top := stack[|stack| - 1];
      Walks(top.node, top.path) + StackWalks(stack[..|stack| - 1])
  }

  /** The items a branch pushes for its first `k` OR-conditions, in push order. */
  function Pushes(n: Node, acc: seq<Condition>, k: nat): (items: seq<Work>)
    requires n.Branch? && k <= |n.conditions|
    ensures |items| == 2 * k
  {
    if k == 0 then []
    else
      var c := n.conditions[k - 1];
      Pushes(n, acc, k - 1) + [Work(n.yes, acc + [c]), Work(n.no, acc + [c.Negate()])]
  }

  /** Prunes each candidate in turn, keeping those whose pruning succeeds. */
  function PruneAll(candidates: seq<Strategy>): seq<Strategy>
  {
    if candidates == [] then []
    else OptionToSeq(Pruned(candidates[0])) + PruneAll(candidates[1..])
  }

  /** `get_strategies`: the surviving strategies of the tree's walks, in traversal order. */
  function Extract(t: StrategyTree): (r: seq<Strategy>)
    ensures |r| <= |Walks(t.root, [])|
    ensures forall s :: s in r ==> exists w: Strategy :: IsPath(t.root, w.conditions, w.value) && Pruned(w) == Some(s)
  {
    var walks := Walks(t.root, []);
    var r := PruneAll(walks);
    PruneAllMembers(walks, Strategy([], ""));
    assert forall s :: s in r ==> exists w: Strategy :: IsPath(t.root, w.conditions, w.value) && Pruned(w) == Some(s) by {
      forall s | s in r
        ensures exists w: Strategy :: IsPath(t.root, w.conditions, w.value) && Pruned(w) == Some(s)
      {
        PruneAllMembers(walks, s);
        var w :| w in walks && Pruned(w) == Some(s);
        WalksArePaths(t, w);
      }
    }
    r
  }

  // ---------------------------------------------------------------------
  // The traversal
  // ---------------------------------------------------------------------

  /**
   * Pops a work item; at a leaf prunes its strategy and keeps it if pruning
   * succeeds; at a branch pushes, for each OR-condition left to right, the
   * true child under the condition and then the false child under its
   * negation.
   */
  method GetStrategies(t: StrategyTree) returns (strategies: seq<Strategy>)
    ensures strategies == Extract(t)
  {
    strategies := [];
    var stack := [Work(t.root, [])];
    assert StackWalks(stack) == Walks(t.root, []);
    while stack != []
      invariant strategies + PruneAll(StackWalks(stack)) == Extract(t)
      decreases StackWeight(stack)
    {
      var top := stack[|stack| - 1];
      var rest := stack[..|stack| - 1];
      assert StackWalks(stack) == Walks(top.node, top.path) + StackWalks(rest);
      StackWeightPop(stack);
      stack := rest;
      match top.node
      case Leaf(_, v) =>
        var candidate := Strategy(top.path, v);
        assert Walks(top.node, top.path) == [candidate];
        LeafStep(strategies, candidate, StackWalks(rest));
        var pruned := Prune(candidate);
        strategies := strategies + OptionToSeq(pruned);
      case Branch(_, cs, _, _) =>
        stack := PushChildren(rest, top.node, top.path);
        PushesWalks(rest, top.node, top.path, |cs|);
        PushesWeight(rest, top.node, top.path, |cs|);
    }
  }

  /**
   * The pushes for a popped branch: for each OR-condition left to right, the
   * true child under the condition, then the false child under its negation.
   */
  method PushChildren(stack: seq<Work>, n: Node, acc: seq<Condition>) returns (pushed: seq<Work>)
    requires n.Branch?
    ensures pushed == stack + Pushes(n, acc, |n.conditions|)
  {
    pushed := stack;
    var i := 0;
    while i < |n.conditions|
      invariant 0 <= i <= |n.conditions|
      invariant pushed == stack + Pushes(n, acc, i)
    {
      var c := n.conditions[i];
      pushed := pushed + [Work(n.yes, acc + [c]), Work(n.no, acc + [c.Negate()])];
      i := i + 1;
    }
  }

  lemma PruneAllCons(c: Strategy, rest: seq<Strategy>)
    ensures PruneAll([c] + rest) == OptionToSeq(Pruned(c)) + PruneAll(rest)
  {
    assert ([c] + rest)[1..] == rest;
  }

  /** Popping a leaf moves its pruned strategy, if any, from what is still to come to what is done. */
  lemma LeafStep(done: seq<Strategy>, c: Strategy, rest: seq<Strategy>)
    ensures done + PruneAll([c] + rest) == done + OptionToSeq(Pruned(c)) + PruneAll(rest)
  {
    PruneAllCons(c, rest);
  }

  // ---------------------------------------------------------------------
  // Termination: every pop removes one node and pushes strictly smaller work
  // ---------------------------------------------------------------------

  /** The number of work items that popping `n` causes to be popped, itself included. */
  function Weight(n: Node): nat
    decreases n, 1
  {
    match n
    case Leaf(_, _) => 1
    case Branch(_, cs, _, _) => 1 + OrWeight(n, |cs|)
  }

  function OrWeight(n: Node, k: nat): nat
    requires n.Branch? && k <= |n.conditions|
    decreases n, 0, k
  {
    if k == 0 then 0 else Weight(n.yes) + Weight(n.no) + OrWeight(n, k - 1)
  }

  function StackWeight(stack: seq<Work>): nat
  {
    if stack == [] then 0 else StackWeight(stack[..|stack| - 1]) + Weight(stack[|stack| - 1].node)
  }

  lemma StackWeightPop(stack: seq<Work>)
    requires stack != []
    ensures StackWeight(stack) == StackWeight(stack[..|stack| - 1]) + Weight(stack[|stack| - 1].node)
  {
  }

  lemma StackWeightPush(stack: seq<Work>, w: Work)
    ensures StackWeight(stack + [w]) == StackWeight(stack) + Weight(w.node)
  {
    assert (stack + [w])[..|stack|] == stack;
  }

  lemma StackWalksPush(stack: seq<Work>, w: Work)
    ensures StackWalks(stack + [w]) == Walks(w.node, w.path) + StackWalks(stack)
  {
    assert (stack + [w])[..|stack|] == stack;
  }

  lemma Regroup<T>(a: seq<T>, b: seq<T>, c: seq<T>, d: seq<T>)
    ensures a + (b + (c + d)) == a + b + c + d
  {
  }

  lemma {:induction false} PushesWeight(rest: seq<Work>, n: Node, acc: seq<Condition>, k: nat)
    requires n.Branch? && k <= |n.conditions|
    ensures StackWeight(rest + Pushes(n, acc, k)) == StackWeight(rest) + OrWeight(n, k)
    decreases k
  {
    if k == 0 {
      assert rest + Pushes(n, acc, k) == rest;
    } else {
      var c := n.conditions[k - 1];
      var front := rest + Pushes(n, acc, k - 1);
      var y := Work(n.yes, acc + [c]);
      var z := Work(n.no, acc + [c.Negate()]);
      assert rest + Pushes(n, acc, k) == front + [y] + [z];
      StackWeightPush(front + [y], z);
      StackWeightPush(front, y);
      PushesWeight(rest, n, acc, k - 1);
    }
  }

  /** The items pushed for a branch hold the branch's candidates, ahead of the rest of the stack. */
  lemma {:induction false} PushesWalks(rest: seq<Work>, n: Node, acc: seq<Condition>, k: nat)
    requires n.Branch? && k <= |n.conditions|
    ensures StackWalks(rest + Pushes(n, acc, k)) == OrWalks(n, acc, k) + StackWalks(rest)
    decreases k
  {
    if k == 0 {
      assert rest + Pushes(n, acc, k) == rest;
    } else {
      var c := n.conditions[k - 1];
      var front := rest + Pushes(n, acc, k - 1);
      var y := Work(n.yes, acc + [c]);
      var z := Work(n.no, acc + [c.Negate()]);
      assert rest + Pushes(n, acc, k) == front + [y] + [z];
      StackWalksPush(front + [y], z);
      StackWalksPush(front, y);
      PushesWalks(rest, n, acc, k - 1);
      Regroup(Walks(z.node, z.path), Walks(y.node, y.path), OrWalks(n, acc, k - 1), StackWalks(rest));
    }
  }

  // ---------------------------------------------------------------------
  // What the strategies are
  // ---------------------------------------------------------------------

  /**
   * `p` lists the conditions of a walk from `n` down to a leaf of value `v`:
   * at each branch, one of its OR-conditions on the way to the true child, or
   * the negation of one of them on the way to the false child.
   */
  predicate IsPath(n: Node, p: seq<Condition>, v: string)
    decreases n
  {
    match n
    case Leaf(_, value) => p == [] && v == value
    case Branch(_, cs, yes, no) =>
      p != [] &&
      ((p[0] in cs && IsPath(yes, p[1..], v)) || (p[0].Negate() in cs && IsPath(no, p[1..], v)))
  }

  /** `w` is what a walk from `n` to a leaf yields when `n` was reached having collected `acc`. */
  predicate Below(n: Node, acc: seq<Condition>, w: Strategy)
  {
    |acc| <= |w.conditions| && w.conditions[..|acc|] == acc && IsPath(n, w.conditions[|acc|..], w.value)
  }

  /** Below a branch, a walk continues below one of its children, under a condition or its negation. */
  lemma BelowBranch(n: Node, acc: seq<Condition>, w: Strategy)
    requires n.Branch?
    ensures Below(n, acc, w) <==>
      (exists i :: 0 <= i < |n.conditions| &&
         (Below(n.yes, acc + [n.conditions[i]], w) || Below(n.no, acc + [n.conditions[i].Negate()], w)))
  {
    var cs := n.conditions;
    var d := |acc|;
    var ws := w.conditions;
    if Below(n, acc, w) {
      var q := ws[d..];
      assert q[1..] == ws[d + 1..];
      assert ws[..d + 1] == acc + [q[0]];
      if q[0] in cs && IsPath(n.yes, q[1..], w.value) {
        var i :| 0 <= i < |cs| && cs[i] == q[0];
        assert Below(n.yes, acc + [cs[i]], w);
      } else {
        var i :| 0 <= i < |cs| && cs[i] == q[0].Negate();
        NegateInvolutive(q[0]);
        assert Below(n.no, acc + [cs[i].Negate()], w);
      }
    }
    if exists i :: 0 <= i < |cs| && (Below(n.yes, acc + [cs[i]], w) || Below(n.no, acc + [cs[i].Negate()], w)) {
      var i :| 0 <= i < |cs| && (Below(n.yes, acc + [cs[i]], w) || Below(n.no, acc + [cs[i].Negate()], w));
      var c := if Below(n.yes, acc + [cs[i]], w) then cs[i] else cs[i].Negate();
      assert ws[..d + 1] == acc + [c];
      assert ws[..d] == ws[..d + 1][..d];
      var q := ws[d..];
      assert q[0] == c;
      assert q[1..] == ws[d + 1..];
      NegateInvolutive(cs[i]);
    }
  }

  lemma {:induction false} WalksBelow(n: Node, acc: seq<Condition>, w: Strategy)
    ensures w in Walks(n, acc) <==> Below(n, acc, w)
    decreases n, 1
  {
    match n
    case Leaf(_, value) =>
      if w.conditions == acc {
        assert w.conditions[..|acc|] == acc && w.conditions[|acc|..] == [];
      }
      if Below(n, acc, w) {
        assert w.conditions == w.conditions[..|acc|] + w.conditions[|acc|..];
      }
    case Branch(_, cs, _, _) =>
      OrWalksBelow(n, acc, |cs|, w);
      BelowBranch(n, acc, w);
  }

  lemma {:induction false} OrWalksBelow(n: Node, acc: seq<Condition>, k: nat, w: Strategy)
    requires n.Branch? && k <= |n.conditions|
    ensures w in OrWalks(n, acc, k) <==>
      (exists i :: 0 <= i < k &&
         (Below(n.yes, acc + [n.conditions[i]], w) || Below(n.no, acc + [n.conditions[i].Negate()], w)))
    decreases n, 0, k
  {
    if k > 0 {
      var c := n.conditions[k - 1];
      WalksBelow(n.no, acc + [c.Negate()], w);
      WalksBelow(n.yes, acc + [c], w);
      OrWalksBelow(n, acc, k - 1, w);
    }
  }

  /** The candidates of a tree are exactly its root-to-leaf walks, each with its leaf's value. */
  lemma WalksArePaths(t: StrategyTree, w: Strategy)
    ensures w in Walks(t.root, []) <==> IsPath(t.root, w.conditions, w.value)
  {
    WalksBelow(t.root, [], w);
    assert w.conditions[..0] == [] && w.conditions[0..] == w.conditions;
  }

  /** Pruning each candidate keeps exactly the successful prunings, and never adds strategies. */
  lemma {:induction false} PruneAllMembers(candidates: seq<Strategy>, s: Strategy)
    ensures s in PruneAll(candidates) <==> exists c :: c in candidates && Pruned(c) == Some(s)
    ensures |PruneAll(candidates)| <= |candidates|
    decreases |candidates|
  {
    if candidates != [] {
      PruneAllMembers(candidates[1..], s);
      assert forall c :: c in candidates <==> c == candidates[0] || c in candidates[1..];
    }
  }

  /**
   * The extracted strategies are exactly the successful prunings of the
   * tree's root-to-leaf walks: a walk whose pruning fails contributes
   * nothing, and no strategy comes from anywhere else.
   */
  lemma ExtractedExactly(t: StrategyTree, s: Strategy)
    ensures s in Extract(t) <==> exists w: Strategy :: IsPath(t.root, w.conditions, w.value) && Pruned(w) == Some(s)
  {
    PruneAllMembers(Walks(t.root, []), s);
    forall w: Strategy {
      WalksArePaths(t, w);
    }
  }

  // ---------------------------------------------------------------------
  // The two-level example
  // ---------------------------------------------------------------------

  /**
   * The tree the five-strategy extraction example implies: the root asks
   * `device_type=pc||or||browser=7` and pays 30 when true; otherwise a second
   * branch asks `browser=8` and pays 10 when true and 20 when false.
   */
  function SimpleTree(): StrategyTree
  {
    StrategyTree(
      Branch(0, [Equals("device_type", S("pc")), Equals("browser", I(7))],
        Leaf(1, "30"),
        Branch(2, [Equals("browser", I(8))], Leaf(3, "10"), Leaf(4, "20"))))
  }

  /** The five strategies the example expects, in order. */
  function SimpleTreeStrategies(): seq<Strategy>
  {
    [ Strategy([Equals("browser", I(8))], "10"),
      Strategy([Equals("browser", I(7))], "30"),
      Strategy([NotEquals("browser", I(8)), NotEquals("device_type", S("pc"))], "20"),
      Strategy([Equals("browser", I(8)), NotEquals("device_type", S("pc"))], "10"),
      Strategy([Equals("device_type", S("pc"))], "30") ]
  }

  /** Below the second branch, reached with `acc`: the false leaf first, then the true leaf. */
  lemma InnerWalks(acc: seq<Condition>)
    ensures Walks(SimpleTree().root.no, acc) ==
      [Strategy(acc + [NotEquals("browser", I(8))], "20"), Strategy(acc + [Equals("browser", I(8))], "10")]
  {
    var n := SimpleTree().root.no;
    assert OrWalks(n, acc, 0) == [];
  }

  lemma SimpleTreeWalks()
    ensures Walks(SimpleTree().root, []) ==
      [ Strategy([NotEquals("browser", I(7)), NotEquals("browser", I(8))], "20"),
        Strategy([NotEquals("browser", I(7)), Equals("browser", I(8))], "10"),
        Strategy([Equals("browser", I(7))], "30"),
        Strategy([NotEquals("device_type", S("pc")), NotEquals("browser", I(8))], "20"),
        Strategy([NotEquals("device_type", S("pc")), Equals("browser", I(8))], "10"),
        Strategy([Equals("device_type", S("pc"))], "30") ]
  {
    var root := SimpleTree().root;
    var pc := Equals("device_type", S("pc"));
    var b7 := Equals("browser", I(7));
    var b8 := Equals("browser", I(8));
    InnerWalks([b7.Negate()]);
    InnerWalks([pc.Negate()]);
    assert [] + [b7.Negate()] == [b7.Negate()] && [] + [b7] == [b7];
    assert [] + [pc.Negate()] == [pc.Negate()] && [] + [pc] == [pc];
    assert [b7.Negate()] + [b8.Negate()] == [b7.Negate(), b8.Negate()];
    assert [b7.Negate()] + [b8] == [b7.Negate(), b8];
    assert [pc.Negate()] + [b8.Negate()] == [pc.Negate(), b8.Negate()];
    assert [pc.Negate()] + [b8] == [pc.Negate(), b8];
    assert Walks(root.yes, [b7]) == [Strategy([b7], "30")];
    assert Walks(root.yes, [pc]) == [Strategy([pc], "30")];
    assert OrWalks(root, [], 0) == [];
    assert OrWalks(root, [], 1) == Walks(root.no, [pc.Negate()]) + Walks(root.yes, [pc]) + OrWalks(root, [], 0);
    assert OrWalks(root, [], 2) == Walks(root.no, [b7.Negate()]) + Walks(root.yes, [b7]) + OrWalks(root, [], 1);
  }

  /** `browser!=7, browser!=8` is dropped: two NotEquals with different values clash. */
  lemma DropsTwoNotEquals()
    ensures Pruned(Strategy([NotEquals("browser", I(7)), NotEquals("browser", I(8))], "20")) == None
  {
    var cs := [NotEquals("browser", I(7)), NotEquals("browser", I(8))];
    assert cs[1].Contradicts(cs[0]);
  }

  /** `browser!=7, browser=8` keeps only the Equals. */
  lemma KeepsTheEquals()
    ensures Pruned(Strategy([NotEquals("browser", I(7)), Equals("browser", I(8))], "10"))
      == Some(Strategy([Equals("browser", I(8))], "10"))
  {
    var cs := [NotEquals("browser", I(7)), Equals("browser", I(8))];
    assert !cs[1].Contradicts(cs[0]);
    assert !HasClash(cs);
    SimplifySingleVariable(cs, "browser");
    assert cs[..1] == [cs[0]] && [cs[0]][..0] == [];
    assert Track([cs[0]]).equal.None?;
    assert Track(cs).equal == Some(cs[1]);
  }

  /** Pruning a candidate in front of others whose pruning is known. */
  lemma PruneAllStep(c: Strategy, rest: seq<Strategy>, o: Option<Strategy>, tail: seq<Strategy>)
    requires Pruned(c) == o && PruneAll(rest) == tail
    ensures PruneAll([c] + rest) == OptionToSeq(o) + tail
  {
    PruneAllCons(c, rest);
  }

  /** Six candidates of which the first is dropped, the second rewritten and the rest kept. */
  lemma DropRewriteKeep(w0: Strategy, w1: Strategy, v1: Strategy, w2: Strategy, w3: Strategy, w4: Strategy, w5: Strategy)
    requires Pruned(w0) == None && Pruned(w1) == Some(v1)
    requires Pruned(w2) == Some(w2) && Pruned(w3) == Some(w3) && Pruned(w4) == Some(w4) && Pruned(w5) == Some(w5)
    ensures PruneAll([w0] + ([w1] + ([w2] + ([w3] + ([w4] + [w5]))))) == [v1] + ([w2] + ([w3] + ([w4] + [w5])))
  {
    assert PruneAll([]) == [];
    assert [w5] + [] == [w5];
    PruneAllStep(w5, [], Some(w5), []);
    PruneAllStep(w4, [w5], Some(w4), [w5]);
    PruneAllStep(w3, [w4] + [w5], Some(w3), [w4] + [w5]);
    PruneAllStep(w2, [w3] + ([w4] + [w5]), Some(w2), [w3] + ([w4] + [w5]));
    PruneAllStep(w1, [w2] + ([w3] + ([w4] + [w5])), Some(v1), [w2] + ([w3] + ([w4] + [w5])));
    PruneAllStep(w0, [w1] + ([w2] + ([w3] + ([w4] + [w5]))), None, [v1] + ([w2] + ([w3] + ([w4] + [w5]))));
  }

  lemma NestFive<T>(a: T, b: T, c: T, d: T, e: T)
    ensures [a] + ([b] + ([c] + ([d] + [e]))) == [a, b, c, d, e]
  {
  }

  lemma NestSix<T>(a: T, b: T, c: T, d: T, e: T, f: T)
    ensures [a] + ([b] + ([c] + ([d] + ([e] + [f])))) == [a, b, c, d, e, f]
  {
  }

  /** The pruned walks of the example tree, in traversal order. */
  lemma SimpleTreePruned()
    ensures Extract(SimpleTree()) == [
      Strategy([Equals("browser", I(8))], "10"),
      Strategy([Equals("browser", I(7))], "30"),
      Strategy([NotEquals("device_type", S("pc")), NotEquals("browser", I(8))], "20"),
      Strategy([NotEquals("device_type", S("pc")), Equals("browser", I(8))], "10"),
      Strategy([Equals("device_type", S("pc"))], "30")]
  {
    var b7 := Equals("browser", I(7));
    var b8 := Equals("browser", I(8));
    var pc := Equals("device_type", S("pc"));
    SimpleTreeWalks();
    DropsTwoNotEquals();
    KeepsTheEquals();
    PruneSingle(b7, "30");
    PruneTwoVariables(pc.Negate(), b8.Negate(), "20");
    PruneTwoVariables(pc.Negate(), b8, "10");
    PruneSingle(pc, "30");
    var w0 := Strategy([b7.Negate(), b8.Negate()], "20");
    var w1 := Strategy([b7.Negate(), b8], "10");
    var v1 := Strategy([b8], "10");
    var w2 := Strategy([b7], "30");
    var w3 := Strategy([pc.Negate(), b8.Negate()], "20");
    var w4 := Strategy([pc.Negate(), b8], "10");
    var w5 := Strategy([pc], "30");
    DropRewriteKeep(w0, w1, v1, w2, w3, w4, w5);
    NestSix(w0, w1, w2, w3, w4, w5);
    NestFive(v1, w2, w3, w4, w5);
  }

  /** The extraction of the example tree yields its five expected strategies, in order. */
  lemma SimpleTreeExtraction()
    ensures |Extract(SimpleTree())| == 5
    ensures forall i :: 0 <= i < 5 ==> Equal(Extract(SimpleTree())[i], SimpleTreeStrategies()[i])
  {
    SimpleTreePruned();
    var out := Extract(SimpleTree());
    MatchesExpected(out);
  }

  lemma MatchesExpected(out: seq<Strategy>)
    requires out == [
      Strategy([Equals("browser", I(8))], "10"),
      Strategy([Equals("browser", I(7))], "30"),
      Strategy([NotEquals("device_type", S("pc")), NotEquals("browser", I(8))], "20"),
      Strategy([NotEquals("device_type", S("pc")), Equals("browser", I(8))], "10"),
      Strategy([Equals("device_type", S("pc"))], "30")]
    ensures |out| == 5 && forall i :: 0 <= i < 5 ==> Equal(out[i], SimpleTreeStrategies()[i])
  {
    var b8 := Equals("browser", I(8));
    var pc := NotEquals("device_type", S("pc"));
    assert multiset([pc, b8.Negate()]) == multiset([b8.Negate(), pc]);
    assert multiset([pc, b8]) == multiset([b8, pc]);
  }
}
