/**
 * The decision tree: leaves carry a payout, branches carry OR-linked
 * conditions and a true child and a false child. Node ids only serve the
 * text format; equality of trees is structural equality of the datatype.
 */
module Trees {
  import opened Text
  import opened Conditions

  datatype Node =
    | Leaf(id: nat, value: string)
    | Branch(id: nat, conditions: seq<Condition>, yes: Node, no: Node)

  datatype StrategyTree = StrategyTree(root: Node)

  /** `str(node)`: `leaf=<value>`, or `[c1||or||c2...] yes=<true id>, no=<false id>`. */
  function NodeBody(n: Node): (b: string)
    ensures |b| >= 5
    ensures n.Leaf? ==> "leaf=" <= b
    ensures n.Branch? ==> b[0] == '[' && IsDigit(b[|b| - 1])
  {
    match n
    case Leaf(_, v) => "leaf=" + v
    case Branch(_, cs, yes, no) =>
      var z := NatToString(no.id);
      var b := "[" + Join(ConditionStrings(cs), "||or||") + "] yes=" + NatToString(yes.id) + ", no=" + z;
      assert b[|b| - 1] == z[|z| - 1];
      b
  }

  /** One rendered line: indentation, the id, a colon and the body. */
  function NodeLine(n: Node, depth: nat): string
  {
    Tabs(depth) + NatToString(n.id) + ":" + NodeBody(n)
  }

  /** The lines of a subtree in pre-order: the node, then its true subtree, then its false subtree. */
  function NodeLines(n: Node, depth: nat): (lines: seq<string>)
    ensures |lines| == Size(n)
    ensures lines != [] && lines[0] == NodeLine(n, depth)
  {
    match n
    case Leaf(_, _) => [NodeLine(n, depth)]
    case Branch(_, _, yes, no) => [NodeLine(n, depth)] + NodeLines(yes, depth + 1) + NodeLines(no, depth + 1)
  }

  function Size(n: Node): nat
  {
    match n
    case Leaf(_, _) => 1
    case Branch(_, _, yes, no) => 1 + Size(yes) + Size(no)
  }

  /** `str(tree)`: the pre-order lines joined by newlines, with no trailing newline. */
  function Render(t: StrategyTree): (r: string)
    ensures NodeOk(t.root) ==> Split(r, "\n") == NodeLines(t.root, 0)
  {
    var lines := NodeLines(t.root, 0);
    assert NodeOk(t.root) ==> Split(Join(lines, "\n"), "\n") == lines by {
      if NodeOk(t.root) {
        LinesHaveNoNewline(t.root, 0);
        SplitJoin(lines, "\n");
      }
    }
    Join(lines, "\n")
  }

  /** The ids of a subtree. */
  function IdSet(n: Node): set<nat>
  {
    match n
    case Leaf(id, _) => {id}
    case Branch(id, _, yes, no) => {id} + IdSet(yes) + IdSet(no)
  }

  /** No id occurs twice in the subtree. */
  predicate UniqueIds(n: Node)
  {
    match n
    case Leaf(_, _) => true
    case Branch(id, _, yes, no) =>
      UniqueIds(yes) && UniqueIds(no) &&
      id !in IdSet(yes) && id !in IdSet(no) && IdSet(yes) !! IdSet(no)
  }

  /** A leaf value as the leaf pattern accepts it: digits and dots. */
  predicate LeafValueOk(v: string)
  {
    v != [] && forall i :: 0 <= i < |v| ==> IsDigit(v[i]) || v[i] == '.'
  }

  /**
   * A condition whose text reads back as itself: a word for the variable,
   * a non-negative integer or a string that is not all digits, has no
   * whitespace and no `|`.
   */
  predicate ConditionOk(c: Condition)
  {
    c.variable != [] && AllWordChars(c.variable) &&
    match c.Operand()
    case I(n) => n >= 0
    case S(s) => s != [] && !AllDigits(s) && NoSpace(s) && '|' !in s
  }

  predicate NodeOk(n: Node)
  {
    match n
    case Leaf(_, v) => LeafValueOk(v)
    case Branch(_, cs, yes, no) =>
      cs != [] && (forall i :: 0 <= i < |cs| ==> ConditionOk(cs[i])) && NodeOk(yes) && NodeOk(no)
  }

  /** The trees the text format can carry: root id 0, unique ids, readable conditions and leaf values. */
  predicate WellFormed(t: StrategyTree)
  {
    t.root.id == 0 && UniqueIds(t.root) && NodeOk(t.root)
  }

  /** The text of a readable condition has no whitespace and no `|`. */
  lemma ConditionTextPlain(c: Condition)
    requires ConditionOk(c)
    ensures NoSpace(c.ToString()) && '|' !in c.ToString()
  {
    var t := ValueToString(c.Operand());
    if c.Operand().I? {
      assert AllDigits(t);
    }
    assert NoSpace(t) && '|' !in t;
    assert c.ToString() == c.variable + c.Operator() + t;
  }

  lemma BranchBodyOneLine(inner: string, y: string, z: string)
    requires '\n' !in inner && '\n' !in y && '\n' !in z
    ensures '\n' !in "[" + inner + "] yes=" + y + ", no=" + z
  {
  }

  /** The body of a well-formed node is one line: it holds no newline. */
  lemma BodyHasNoNewline(n: Node)
    requires NodeOk(n)
    ensures '\n' !in NodeBody(n)
  {
    match n
    case Leaf(_, v) =>
      assert NodeBody(n) == "leaf=" + v;
    case Branch(_, cs, yes, no) =>
      var parts := ConditionStrings(cs);
      forall i | 0 <= i < |parts| ensures '\n' !in parts[i] {
        ConditionTextPlain(cs[i]);
      }
      JoinChars(parts, "||or||", '\n');
      var y := NatToString(yes.id);
      var z := NatToString(no.id);
      assert '\n' !in y && '\n' !in z;
      BranchBodyOneLine(Join(parts, "||or||"), y, z);
  }

  /** The lines after a branch's own line are those of its true subtree, then of its false subtree. */
  lemma NodeLinesTail(n: Node, depth: nat)
    requires n.Branch?
    ensures NodeLines(n, depth)[1..] == NodeLines(n.yes, depth + 1) + NodeLines(n.no, depth + 1)
  {
    var a := NodeLines(n.yes, depth + 1);
    var b := NodeLines(n.no, depth + 1);
    assert NodeLines(n, depth) == [NodeLine(n, depth)] + a + b;
    DropHead(NodeLine(n, depth), a, b);
  }

  lemma DropHead(x: string, a: seq<string>, b: seq<string>)
    ensures ([x] + a + b)[1..] == a + b
  {
  }

  /** A well-formed node renders to a single line. */
  lemma LineHasNoNewline(n: Node, depth: nat)
    requires NodeOk(n)
    ensures '\n' !in NodeLine(n, depth)
  {
    BodyHasNoNewline(n);
    var id := NatToString(n.id);
    assert '\n' !in Tabs(depth) && '\n' !in id;
    assert NodeLine(n, depth) == Tabs(depth) + id + ":" + NodeBody(n);
  }

  /** Every line of `lines` is a single line: it holds no newline. */
  predicate SingleLines(lines: seq<string>)
  {
    forall i :: 0 <= i < |lines| ==> '\n' !in lines[i]
  }

  lemma SingleLinesJoin(line: string, a: seq<string>, b: seq<string>)
    requires '\n' !in line && SingleLines(a) && SingleLines(b)
    ensures SingleLines([line] + a + b)
  {
    var all := [line] + a + b;
    forall i | 0 <= i < |all| ensures '\n' !in all[i] {
      if i == 0 {
      } else if i <= |a| {
        assert all[i] == a[i - 1];
      } else {
        assert all[i] == b[i - 1 - |a|];
      }
    }
  }

  /** No rendered line of a well-formed subtree holds a newline. */
  lemma {:induction false} LinesHaveNoNewline(n: Node, depth: nat)
    requires NodeOk(n)
    ensures SingleLines(NodeLines(n, depth))
    decreases n
  {
    if n.Branch? {
      LinesHaveNoNewline(n.yes, depth + 1);
      LinesHaveNoNewline(n.no, depth + 1);
      BranchLines(n, depth);
    } else {
      LeafLines(n, depth);
    }
  }

  lemma LeafLines(n: Node, depth: nat)
    requires n.Leaf? && NodeOk(n)
    ensures SingleLines(NodeLines(n, depth))
  {
    LineHasNoNewline(n, depth);
    assert NodeLines(n, depth) == [NodeLine(n, depth)];
  }

  lemma BranchLines(n: Node, depth: nat)
    requires n.Branch? && NodeOk(n)
    requires SingleLines(NodeLines(n.yes, depth + 1)) && SingleLines(NodeLines(n.no, depth + 1))
    ensures SingleLines(NodeLines(n, depth))
  {
    LineHasNoNewline(n, depth);
    SingleLinesJoin(NodeLine(n, depth), NodeLines(n.yes, depth + 1), NodeLines(n.no, depth + 1));
  }

  lemma LeafLineExample()
    ensures NodeBody(Leaf(1, "0.5")) == "leaf=0.5"
  {
  }

  /**
   * The root of the condition-node fixture renders with its five conditions
   * joined by `||or||`: the expected text is written as its pieces.
   */
  lemma ConditionNodeExample()
    ensures NodeBody(Branch(0,
        [Equals("age", I(18)), NotEquals("status", S("inactive")), GreaterThan("score", 90),
         GreaterThanOrEqual("points", 100), LessThan("time", 60)],
        Branch(1, [LessThanOrEqual("distance", 5)], Leaf(3, "1.0"), Leaf(4, "2.0")),
        Leaf(2, "3.0")))
      == "[" + ("age=18" + "||or||" + "status!=inactive" + "||or||" + "score>90" + "||or||" +
         "points>=100" + "||or||" + "time<60") + "] yes=" + "1" + ", no=" + "2"
  {
    FixtureTexts();
    FixtureBoundTexts();
    BranchOfFive(0, Equals("age", I(18)), NotEquals("status", S("inactive")), GreaterThan("score", 90),
      GreaterThanOrEqual("points", 100), LessThan("time", 60),
      Branch(1, [LessThanOrEqual("distance", 5)], Leaf(3, "1.0"), Leaf(4, "2.0")), Leaf(2, "3.0"));
    assert NatToString(1) == "1" && NatToString(2) == "2";
  }

  lemma BranchOfFive(id: nat, a: Condition, b: Condition, c: Condition, d: Condition, e: Condition, yes: Node, no: Node)
    ensures NodeBody(Branch(id, [a, b, c, d, e], yes, no))
      == "[" + (a.ToString() + "||or||" + b.ToString() + "||or||" + c.ToString() + "||or||" +
         d.ToString() + "||or||" + e.ToString()) + "] yes=" + NatToString(yes.id) + ", no=" + NatToString(no.id)
  {
    StringsOfFive(a, b, c, d, e);
    JoinFive(a.ToString(), b.ToString(), c.ToString(), d.ToString(), e.ToString(), "||or||");
  }
}
