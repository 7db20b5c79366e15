/**
 * The condition algebra: six comparison variants over a (variable, value)
 * pair, each with its operator token, its negation and an asymmetric
 * contradiction test against a second condition.
 *
 * Ordering variants carry an integer bound: ordering is only ever applied to
 * integer values. Equality variants carry a `Value`, an integer or a string.
 */
module Conditions {
  import opened Text

  datatype Value = I(n: int) | S(s: string)

  /** `str(value)`: an integer in decimal, a string as itself. */
  function ValueToString(v: Value): string
  {
    match v
    case I(n) => IntToString(n)
    case S(s) => s
  }

  /**
   * The NotEquals-versus-NotEquals cell of the contradiction table.
   * Two NotEquals conditions on the same variable clash when their values
   * differ, as the condition tests and the five-strategy extraction expect.
   */
  predicate NotEqualsClash(v1: Value, v2: Value)
  {
    v1 != v2
  }

  datatype Condition =
    | Equals(variable: string, value: Value)
    | NotEquals(variable: string, value: Value)
    | GreaterThan(variable: string, bound: int)
    | GreaterThanOrEqual(variable: string, bound: int)
    | LessThan(variable: string, bound: int)
    | LessThanOrEqual(variable: string, bound: int)
  {
    predicate IsLowerBound() { GreaterThan? || GreaterThanOrEqual? }

    predicate IsUpperBound() { LessThan? || LessThanOrEqual? }

    /** The fixed operator token of each variant. */
    function Operator(): (op: string)
      ensures |op| == 1 || |op| == 2
      ensures |op| == 2 <==> NotEquals? || GreaterThanOrEqual? || LessThanOrEqual?
    {
      match this
      case Equals(_, _) => "="
      case NotEquals(_, _) => "!="
      case GreaterThan(_, _) => ">"
      case GreaterThanOrEqual(_, _) => ">="
      case LessThan(_, _) => "<"
      case LessThanOrEqual(_, _) => "<="
    }

    /** The compared value, whatever the variant. */
    function Operand(): Value
    {
      if Equals? || NotEquals? then value else I(bound)
    }

    /** The logical complement on the same variable and value. */
    function Negate(): (r: Condition)
      ensures r.variable == variable && r.Operand() == Operand()
    {
      match this
      case Equals(x, v) => NotEquals(x, v)
      case NotEquals(x, v) => Equals(x, v)
      case GreaterThan(x, b) => LessThanOrEqual(x, b)
      case GreaterThanOrEqual(x, b) => LessThan(x, b)
      case LessThan(x, b) => GreaterThanOrEqual(x, b)
      case LessThanOrEqual(x, b) => GreaterThan(x, b)
    }

    /**
     * Whether this condition (the receiver) rules out `other`. Conditions on
     * different variables never contradict. An Equals holding a string is
     * never reported as contradicting an ordering condition.
     */
    predicate Contradicts(other: Condition)
      ensures Contradicts(other) ==> variable == other.variable
      ensures Contradicts(other) && !(NotEquals? && other.NotEquals?) ==>
        forall x :: !(Holds(x) && other.Holds(x))
    {
      variable == other.variable &&
      match (this, other)
      case (Equals(_, v1), Equals(_, v2)) => v1 != v2
      case (Equals(_, v1), NotEquals(_, v2)) => v1 == v2
      case (Equals(_, v1), GreaterThan(_, b2)) => v1.I? && v1.n <= b2
      case (Equals(_, v1), GreaterThanOrEqual(_, b2)) => v1.I? && v1.n < b2
      case (Equals(_, v1), LessThan(_, b2)) => v1.I? && v1.n >= b2
      case (Equals(_, v1), LessThanOrEqual(_, b2)) => v1.I? && v1.n > b2
      case (NotEquals(_, v1), Equals(_, v2)) => v1 == v2
      case (NotEquals(_, v1), NotEquals(_, v2)) => NotEqualsClash(v1, v2)
      case (GreaterThan(_, b1), Equals(_, v2)) => v2.I? && b1 >= v2.n
      case (GreaterThan(_, b1), LessThan(_, b2)) => b1 >= b2
      case (GreaterThan(_, b1), LessThanOrEqual(_, b2)) => b1 >= b2
      case (GreaterThanOrEqual(_, b1), Equals(_, v2)) => v2.I? && b1 > v2.n
      case (GreaterThanOrEqual(_, b1), LessThan(_, b2)) => b1 > b2
      case (GreaterThanOrEqual(_, b1), LessThanOrEqual(_, b2)) => b1 > b2
      case (LessThan(_, b1), Equals(_, v2)) => v2.I? && b1 <= v2.n
      case (LessThan(_, b1), GreaterThan(_, b2)) => b1 <= b2
      case (LessThan(_, b1), GreaterThanOrEqual(_, b2)) => b1 <= b2
      case (LessThanOrEqual(_, b1), Equals(_, v2)) => v2.I? && b1 < v2.n
      case (LessThanOrEqual(_, b1), GreaterThan(_, b2)) => b1 <= b2
      case (LessThanOrEqual(_, b1), GreaterThanOrEqual(_, b2)) => b1 < b2
      case _ => false
    }

    /** `str(condition)`: variable, operator token and value, with nothing between. */
    function ToString(): (s: string)
      ensures variable + Operator() <= s
    {
      variable + Operator() + ValueToString(Operand())
    }

    /** Whether the variable taking value `x` satisfies this condition. */
    predicate Holds(x: Value)
    {
      match this
      case Equals(_, v) => x == v
      case NotEquals(_, v) => x != v
      case GreaterThan(_, b) => x.I? && x.n > b
      case GreaterThanOrEqual(_, b) => x.I? && x.n >= b
      case LessThan(_, b) => x.I? && x.n < b
      case LessThanOrEqual(_, b) => x.I? && x.n <= b
    }
  }

  /** The rendering of each condition of a list, in order. */
  function ConditionStrings(cs: seq<Condition>): (r: seq<string>)
    ensures |r| == |cs|
    ensures forall i :: 0 <= i < |cs| ==> r[i] == cs[i].ToString()
  {
    if cs == [] then [] else [cs[0].ToString()] + ConditionStrings(cs[1..])
  }

  lemma StringsOfFive(a: Condition, b: Condition, c: Condition, d: Condition, e: Condition)
    ensures ConditionStrings([a, b, c, d, e]) == [a.ToString(), b.ToString(), c.ToString(), d.ToString(), e.ToString()]
  {
    var r := ConditionStrings([a, b, c, d, e]);
    assert r[0] == a.ToString() && r[1] == b.ToString() && r[2] == c.ToString();
    assert r[3] == d.ToString() && r[4] == e.ToString();
  }

  lemma StringsOfSix(a: Condition, b: Condition, c: Condition, d: Condition, e: Condition, f: Condition)
    ensures ConditionStrings([a, b, c, d, e, f])
      == [a.ToString(), b.ToString(), c.ToString(), d.ToString(), e.ToString(), f.ToString()]
  {
    assert [a, b, c, d, e, f][1..] == [b, c, d, e, f];
    StringsOfFive(b, c, d, e, f);
  }

  // ---------------------------------------------------------------------
  // Operator tokens and negation
  // ---------------------------------------------------------------------

  /** Each variant has its own token: the token determines the variant. */
  lemma OperatorDeterminesVariant(a: Condition, b: Condition)
    requires a.Operator() == b.Operator()
    ensures a.Equals? == b.Equals? && a.NotEquals? == b.NotEquals?
    ensures a.GreaterThan? == b.GreaterThan? && a.GreaterThanOrEqual? == b.GreaterThanOrEqual?
    ensures a.LessThan? == b.LessThan? && a.LessThanOrEqual? == b.LessThanOrEqual?
  {
  }

  /** Negation is its own inverse. */
  lemma NegateInvolutive(c: Condition)
    ensures c.Negate().Negate() == c
  {
  }

  /** Negation swaps Equals with NotEquals, `>` with `<=` and `>=` with `<`. */
  lemma NegateSwapsVariants(c: Condition)
    ensures c.Equals? <==> c.Negate().NotEquals?
    ensures c.NotEquals? <==> c.Negate().Equals?
    ensures c.GreaterThan? <==> c.Negate().LessThanOrEqual?
    ensures c.GreaterThanOrEqual? <==> c.Negate().LessThan?
    ensures c.LessThan? <==> c.Negate().GreaterThanOrEqual?
    ensures c.LessThanOrEqual? <==> c.Negate().GreaterThan?
  {
  }

  /** The negation holds of exactly the integers the condition does not hold of. */
  lemma NegateComplements(c: Condition, x: Value)
    requires x.I? || c.Equals? || c.NotEquals?
    ensures c.Negate().Holds(x) <==> !c.Holds(x)
  {
  }

  // ---------------------------------------------------------------------
  // The contradiction table
  // ---------------------------------------------------------------------

  /**
   * Row Equals: an Equals condition contradicts another condition on its
   * variable exactly when its own value fails that condition.
   */
  lemma EqualsContradictsExactly(x: string, v: Value, c: Condition)
    requires c.variable == x
    requires v.I? || c.Equals? || c.NotEquals?
    ensures Equals(x, v).Contradicts(c) <==> !c.Holds(v)
  {
  }

  /** Row NotEquals: it clashes with an Equals of the same value and never with an ordering condition. */
  lemma NotEqualsRow(x: string, v: Value, c: Condition)
    requires c.variable == x
    ensures c.Equals? ==> (NotEquals(x, v).Contradicts(c) <==> c.value == v)
    ensures c.NotEquals? ==> (NotEquals(x, v).Contradicts(c) <==> NotEqualsClash(v, c.value))
    ensures (c.IsLowerBound() || c.IsUpperBound()) ==> !NotEquals(x, v).Contradicts(c)
  {
  }

  /**
   * Rows `>`, `>=`, `<` and `<=` against an Equals: an ordering condition
   * contradicts an Equals on an integer exactly when that integer fails it,
   * and never contradicts an Equals on a string.
   */
  lemma OrderingAgainstEquals(a: Condition, v: Value)
    requires a.IsLowerBound() || a.IsUpperBound()
    ensures v.I? ==> (a.Contradicts(Equals(a.variable, v)) <==> !a.Holds(v))
    ensures v.S? ==> !a.Contradicts(Equals(a.variable, v))
  {
  }

  /**
   * Rows `>`, `>=`, `<` and `<=` against the opposite side: a lower and an
   * upper bound on one variable contradict exactly when the lower bound is
   * above the upper one, or the two are equal and one side is strict, except
   * that `>=` does not contradict `<` on an equal bound.
   */
  lemma OppositeBounds(a: Condition, b: Condition)
    requires a.variable == b.variable
    requires (a.IsLowerBound() && b.IsUpperBound()) || (a.IsUpperBound() && b.IsLowerBound())
    ensures var lo := if a.IsLowerBound() then a else b;
      var hi := if a.IsLowerBound() then b else a;
      a.Contradicts(b) <==>
        lo.bound > hi.bound ||
        (lo.bound == hi.bound && (lo.GreaterThan? || hi.LessThan?) && !(a.GreaterThanOrEqual? && b.LessThan?))
  {
  }

  /**
   * Bounds on the same side never contradict each other, and no ordering
   * condition contradicts a NotEquals.
   */
  lemma SameSideNeverContradicts(a: Condition, b: Condition)
    requires a.IsLowerBound() || a.IsUpperBound()
    ensures (a.IsLowerBound() && b.IsLowerBound()) ==> !a.Contradicts(b)
    ensures (a.IsUpperBound() && b.IsUpperBound()) ==> !a.Contradicts(b)
    ensures b.NotEquals? ==> !a.Contradicts(b)
  {
  }

  /**
   * Every reported contradiction, apart from the NotEquals-versus-NotEquals
   * cell, is genuine: no value satisfies both conditions.
   */
  lemma ContradictsSound(a: Condition, b: Condition, x: Value)
    requires a.Contradicts(b)
    requires !(a.NotEquals? && b.NotEquals?)
    ensures !(a.Holds(x) && b.Holds(x))
  {
  }

  /**
   * The test is asymmetric at the `>=`/`<` boundary: `x>=50` does not
   * contradict `x<50`, but `x<50` contradicts `x>=50`.
   */
  lemma ContradictsAsymmetric()
    ensures !GreaterThanOrEqual("test", 50).Contradicts(LessThan("test", 50))
    ensures LessThan("test", 50).Contradicts(GreaterThanOrEqual("test", 50))
  {
  }

  /**
   * The NotEquals cell reports clashes that are not genuine: `test!=50` and
   * `test!=20` are both satisfied by 30.
   */
  lemma NotEqualsClashNotGenuine()
    ensures NotEquals("test", I(50)).Contradicts(NotEquals("test", I(20)))
    ensures NotEquals("test", I(50)).Holds(I(30)) && NotEquals("test", I(20)).Holds(I(30))
  {
  }

  lemma RenderExamples()
    ensures Equals("test", I(50)).ToString() == "test=50"
    ensures NotEquals("test", I(50)).ToString() == "test!=50"
    ensures GreaterThan("test", 50).ToString() == "test>50"
  {
    NumberText(50, "50");
    assert Equals("test", I(50)).ToString() == "test" + "=" + "50";
    assert NotEquals("test", I(50)).ToString() == "test" + "!=" + "50";
    assert GreaterThan("test", 50).ToString() == "test" + ">" + "50";
  }

  lemma RenderBoundExamples()
    ensures GreaterThanOrEqual("test", 50).ToString() == "test>=50"
    ensures LessThan("test", 50).ToString() == "test<50"
    ensures LessThanOrEqual("test", 50).ToString() == "test<=50"
  {
    NumberText(50, "50");
    assert GreaterThanOrEqual("test", 50).ToString() == "test" + ">=" + "50";
    assert LessThan("test", 50).ToString() == "test" + "<" + "50";
    assert LessThanOrEqual("test", 50).ToString() == "test" + "<=" + "50";
  }

  /** The texts of the conditions the strategy and node fixtures are built from. */
  lemma FixtureTexts()
    ensures Equals("age", I(18)).ToString() == "age=18"
    ensures NotEquals("status", S("inactive")).ToString() == "status!=inactive"
    ensures GreaterThan("score", 90).ToString() == "score>90"
  {
    NumberText(18, "18");
    NumberText(90, "90");
  }

  lemma FixtureBoundTexts()
    ensures GreaterThanOrEqual("points", 100).ToString() == "points>=100"
    ensures LessThan("time", 60).ToString() == "time<60"
    ensures LessThanOrEqual("distance", 5).ToString() == "distance<=5"
  {
    NumberText(100, "100");
    NumberText(60, "60");
    NumberText(5, "5");
  }

  /** The decimal text of the numbers the fixtures use. */
  lemma NumberText(n: nat, t: string)
    requires (n, t) in {(5, "5"), (18, "18"), (50, "50"), (60, "60"), (90, "90"), (100, "100")}
    ensures ValueToString(I(n)) == t
  {
    assert DigitChar(0) == '0' && DigitChar(1) == '1' && DigitChar(5) == '5';
    assert DigitChar(6) == '6' && DigitChar(8) == '8' && DigitChar(9) == '9';
    if n == 100 {
      assert NatToString(10) == "10";
    }
  }
}
