/**
 * Reading a tree from its text form. Each non-blank line, stripped of
 * surrounding whitespace, must match one of two line patterns:
 *
 *   leaf line    `<digits>:leaf=<digits and dots>`
 *   branch line  `<digits>:[<conditions>]<ws?>yes=<digits>,<ws?>no=<digits>`
 *
 * where the conditions are separated by `||or||` and each one matches
 * `<word><operator><non-blank text>`. A first pass loads an id-to-entry
 * map; a second pass checks that every child id names a node; the tree is
 * then unfolded from id 0.
 */
module TreeParser {
  import opened Text
  import opened Conditions
  import opened Trees

  datatype ParseError =
    | BadLine(line: string)
    | BadCondition(text: string)
    | DanglingChild
    | MissingRoot
    | Cycle(id: nat)

  datatype Result<T> = Ok(value: T) | Err(error: ParseError)

  /** What one line declares; a branch still refers to its children by id. */
  datatype Entry =
    | LeafEntry(value: string)
    | BranchEntry(conditions: seq<Condition>, yesId: nat, noId: nat)

  /** The operator alternation in the order the condition pattern lists it. */
  const SourceOperators: seq<string> := ["=", "!=", ">", "<", ">=", "<="]

  /** The operator alternation with the two-character operators tried first. */
  const Operators: seq<string> := [">=", "<=", "!=", "=", ">", "<"]

  // ---------------------------------------------------------------------
  // Scanning
  // ---------------------------------------------------------------------

  predicate EndsWith(s: string, suffix: string)
  {
    |suffix| <= |s| && s[|s| - |suffix|..] == suffix
  }

  /** The length of the longest run of digits at the start of `s`. */
  function DigitPrefix(s: string): (k: nat)
    ensures k <= |s| && AllDigits(s[..k]) && (k < |s| ==> !IsDigit(s[k]))
  {
    if s == [] || !IsDigit(s[0]) then 0
    else
      var k := 1 + DigitPrefix(s[1..]);
      assert s[..k] == [s[0]] + s[1..][..k - 1];
      k
  }

  /** The length of the longest run of word characters at the start of `s`. */
  function WordPrefix(s: string): (k: nat)
    ensures k <= |s| && AllWordChars(s[..k]) && (k < |s| ==> !IsWordChar(s[k]))
  {
    if s == [] || !IsWordChar(s[0]) then 0
    else
      var k := 1 + WordPrefix(s[1..]);
      assert s[..k] == [s[0]] + s[1..][..k - 1];
      k
  }

  /** The length of the longest run of digits at the end of `s`. */
  function DigitSuffix(s: string): (k: nat)
    ensures k <= |s| && AllDigits(s[|s| - k..]) && (k < |s| ==> !IsDigit(s[|s| - k - 1]))
  {
    if s == [] || !IsDigit(s[|s| - 1]) then 0
    else
      var front := s[..|s| - 1];
      var k := 1 + DigitSuffix(front);
      assert s[|s| - k..] == front[|front| - (k - 1)..] + [s[|s| - 1]];
      k
  }

  /** Drops one trailing whitespace character, if there is one: the optional `\s` of the branch pattern. */
  function DropOptionalSpace(s: string): (r: string)
    ensures r == s || (s != [] && IsSpace(s[|s| - 1]) && r == s[..|s| - 1])
  {
    if s != [] && IsSpace(s[|s| - 1]) then s[..|s| - 1] else s
  }

  // ---------------------------------------------------------------------
  // Conditions
  // ---------------------------------------------------------------------

  /** Value text that the pattern `\S+` accepts. */
  predicate ValueText(t: string)
  {
    t != [] && NoSpace(t)
  }

  /** `op` starts `rest` and leaves value text after it. */
  predicate OperatorFits(rest: string, op: string)
  {
    |op| <= |rest| && rest[..|op|] == op && ValueText(rest[|op|..])
  }

  /**
   * The first operator of `ops` that fits `rest`: how the alternation of
   * the condition pattern settles, with backtracking, once the variable is
   * fixed.
   */
  function PickOperator(rest: string, ops: seq<string>): (r: Result<string>)
    ensures r.Ok? ==> exists i :: (0 <= i < |ops| && ops[i] == r.value && OperatorFits(rest, ops[i]) &&
      forall j :: 0 <= j < i ==> !OperatorFits(rest, ops[j]))
    ensures r.Err? ==> forall i :: 0 <= i < |ops| ==> !OperatorFits(rest, ops[i])
  {
    if ops == [] then Err(BadCondition(rest))
    else if OperatorFits(rest, ops[0]) then Ok(ops[0])
    else
      var r := PickOperator(rest, ops[1..]);
      assert forall i :: 1 <= i < |ops| ==> ops[i] == ops[1..][i - 1];
      if r.Ok? then
        var i :| 0 <= i < |ops[1..]| && ops[1..][i] == r.value && OperatorFits(rest, ops[1..][i]) &&
          forall j :: 0 <= j < i ==> !OperatorFits(rest, ops[1..][j]);
        assert ops[i + 1] == r.value;
        r
      else r
  }

  /** The three groups of the condition pattern: variable, operator and value text. */
  function TokenizeCondition(text: string, ops: seq<string>): (r: Result<(string, string, string)>)
    ensures r.Ok? ==> r.value.0 + r.value.1 + r.value.2 == text
    ensures r.Ok? ==> r.value.0 != [] && AllWordChars(r.value.0) && r.value.1 in ops && ValueText(r.value.2)
  {
    var w := WordPrefix(text);
    if w == 0 then Err(BadCondition(text))
    else
      match PickOperator(text[w..], ops)
      case Err(_) => Err(BadCondition(text))
      case Ok(op) =>
        CutAround(text, w, op);
        Ok((text[..w], op, text[w + |op|..]))
  }

  /** Cutting `text` before and after an occurrence of `op` at `w` gives back `text` when rejoined. */
  lemma CutAround(text: string, w: nat, op: string)
    requires w + |op| <= |text| && text[w..][..|op|] == op
    ensures text[..w] + op + text[w + |op|..] == text
  {
    assert text[w..] == op + text[w + |op|..];
  }

  /** A value made only of digits is an integer; anything else stays a string. */
  function ParseValue(t: string): (v: Value)
    ensures v.I? <==> AllDigits(t)
  {
    if AllDigits(t) then I(DigitsToNat(t)) else S(t)
  }

  /** The operator table: one variant per operator token; the ordering variants need an integer. */
  function MakeCondition(x: string, op: string, v: Value): Result<Condition>
  {
    if op == "=" then Ok(Equals(x, v))
    else if op == "!=" then Ok(NotEquals(x, v))
    else if !v.I? then Err(BadCondition(x + op + ValueToString(v)))
    else if op == ">" then Ok(GreaterThan(x, v.n))
    else if op == ">=" then Ok(GreaterThanOrEqual(x, v.n))
    else if op == "<" then Ok(LessThan(x, v.n))
    else if op == "<=" then Ok(LessThanOrEqual(x, v.n))
    else Err(BadCondition(x + op + ValueToString(v)))
  }

  function ParseCondition(text: string, ops: seq<string>): Result<Condition>
  {
    match TokenizeCondition(text, ops)
    case Err(e) => Err(e)
    case Ok((x, op, t)) => MakeCondition(x, op, ParseValue(t))
  }

  /** Parses every condition text, failing on the first one that does not parse. */
  function ParseConditions(texts: seq<string>, ops: seq<string>): (r: Result<seq<Condition>>)
    ensures r.Ok? <==> forall i :: 0 <= i < |texts| ==> ParseCondition(texts[i], ops).Ok?
    ensures r.Ok? ==>
      (|r.value| == |texts| && forall i :: 0 <= i < |texts| ==> ParseCondition(texts[i], ops) == Ok(r.value[i]))
  {
    if texts == [] then Ok([])
    else
      var head := ParseCondition(texts[0], ops);
      var tail := ParseConditions(texts[1..], ops);
      if head.Err? then Err(head.error)
      else if tail.Err? then Err(tail.error)
      else Ok([head.value] + tail.value)
  }

  // ---------------------------------------------------------------------
  // Lines
  // ---------------------------------------------------------------------

  /** `s` ends with `tag` and a run of digits: the text before the tag, and the number. */
  function TakeTrailingId(s: string, tag: string): Result<(string, nat)>
  {
    var n := DigitSuffix(s);
    var r := s[..|s| - n];
    if n == 0 || !EndsWith(r, tag) then Err(BadLine(s))
    else Ok((r[..|r| - |tag|], DigitsToNat(s[|s| - n..])))
  }

  /** `s` ends with `c`: the text before it. */
  function TakeTrailingChar(s: string, c: char): Result<string>
  {
    if s != [] && s[|s| - 1] == c then Ok(s[..|s| - 1]) else Err(BadLine(s))
  }

  /**
   * The part after `<id>:` of a branch line, read from the right: the text
   * between the brackets and the two child ids.
   */
  function BranchTail(body: string): Result<(string, nat, nat)>
  {
    match TakeTrailingId(body, "no=")
    case Err(e) => Err(e)
    case Ok((r1, noId)) =>
      match TakeTrailingChar(DropOptionalSpace(r1), ',')
      case Err(e) => Err(e)
      case Ok(r2) =>
        match TakeTrailingId(r2, "yes=")
        case Err(e) => Err(e)
        case Ok((r3, yesId)) =>
          var r4 := DropOptionalSpace(r3);
          if |r4| < 2 || r4[0] != '[' || r4[|r4| - 1] != ']' then Err(BadLine(r4))
          else Ok((r4[1..|r4| - 1], yesId, noId))
  }

  /** A branch body: the bracketed conditions, split on `||or||`, and the two child ids. */
  function ParseBranch(line: string, body: string): Result<Entry>
  {
    match BranchTail(body)
    case Err(_) => Err(BadLine(line))
    case Ok((inner, yesId, noId)) =>
      match ParseConditions(Split(inner, "||or||"), Operators)
      case Err(e) => Err(e)
      case Ok(cs) => Ok(BranchEntry(cs, yesId, noId))
  }

  /** One stripped, non-blank line: its id and what it declares. */
  function ParseLine(text: string): Result<(nat, Entry)>
  {
    var k := DigitPrefix(text);
    if k == 0 || k == |text| || text[k] != ':' then Err(BadLine(text))
    else ParseBody(text, DigitsToNat(text[..k]), text[k + 1..])
  }

  /** The part of a line after `<id>:`: a leaf or a branch. */
  function ParseBody(text: string, id: nat, body: string): Result<(nat, Entry)>
  {
    if |body| >= 5 && body[..5] == "leaf=" then
      if LeafValueOk(body[5..]) then Ok((id, LeafEntry(body[5..]))) else Err(BadLine(text))
    else if body != [] && body[0] == '[' then
      match ParseBranch(text, body)
      case Err(e) => Err(e)
      case Ok(entry) => Ok((id, entry))
    else Err(BadLine(text))
  }

  /** The first pass on one raw line: blank lines are skipped, a later line with the same id wins. */
  function AddLine(nodes: map<nat, Entry>, raw: string): Result<map<nat, Entry>>
  {
    var text := Strip(raw);
    if text == [] then Ok(nodes)
    else
      match ParseLine(text)
      case Err(e) => Err(e)
      case Ok((id, entry)) => Ok(nodes[id := entry])
  }

  /** The first pass over a list of lines, stopping at the first line that does not parse. */
  function LoadFrom(nodes: map<nat, Entry>, lines: seq<string>): Result<map<nat, Entry>>
    decreases |lines|
  {
    if lines == [] then Ok(nodes)
    else
      match AddLine(nodes, lines[0])
      case Err(e) => Err(e)
      case Ok(next) => LoadFrom(next, lines[1..])
  }

  /** The entry under `k` is a branch naming a child that is not in the map. */
  predicate Dangles(nodes: map<nat, Entry>, k: nat)
    requires k in nodes
  {
    nodes[k].BranchEntry? && (nodes[k].yesId !in nodes || nodes[k].noId !in nodes)
  }

  predicate HasDangling(nodes: map<nat, Entry>)
  {
    exists k :: k in nodes && Dangles(nodes, k)
  }

  /** The tree below `id`, resolving child ids through the map; `seen` are the ids on the way down. */
  function Unfold(nodes: map<nat, Entry>, id: nat, seen: set<nat>): (r: Result<Node>)
    ensures r.Ok? ==> r.value.id == id
    decreases nodes.Keys - seen
  {
    if id in seen then Err(Cycle(id))
    else if id !in nodes then Err(DanglingChild)
    else
      match nodes[id]
      case LeafEntry(v) => Ok(Leaf(id, v))
      case BranchEntry(cs, yesId, noId) =>
        assert nodes.Keys - (seen + {id}) < nodes.Keys - seen by {
          assert id in nodes.Keys - seen;
        }
        match Unfold(nodes, yesId, seen + {id})
        case Err(e) => Err(e)
        case Ok(yes) =>
          match Unfold(nodes, noId, seen + {id})
          case Err(e) => Err(e)
          case Ok(no) => Ok(Branch(id, cs, yes, no))
  }

  /** `StrategyTree.from_string`: load the lines, check the child ids, unfold from id 0. */
  function Parse(content: string): (r: Result<StrategyTree>)
    ensures r.Ok? ==> r.value.root.id == 0
    ensures LoadFrom(map[], Split(content, "\n")).Err? ==> r == Err(LoadFrom(map[], Split(content, "\n")).error)
    ensures LoadFrom(map[], Split(content, "\n")).Ok? ==>
      var nodes := LoadFrom(map[], Split(content, "\n")).value;
      (HasDangling(nodes) ==> r == Err(DanglingChild)) &&
      (!HasDangling(nodes) && 0 !in nodes ==> r == Err(MissingRoot))
  {
    match LoadFrom(map[], Split(content, "\n"))
    case Err(e) => Err(e)
    case Ok(nodes) =>
      if HasDangling(nodes) then Err(DanglingChild)
      else if 0 !in nodes then Err(MissingRoot)
      else
        match Unfold(nodes, 0, {})
        case Err(e) => Err(e)
        case Ok(root) => Ok(StrategyTree(root))
  }

  // ---------------------------------------------------------------------
  // The parsing method
  // ---------------------------------------------------------------------

  /** The two passes of `from_string`: fill the id map line by line, then check every child id. */
  method ParseTree(content: string) returns (r: Result<StrategyTree>)
    ensures r == Parse(content)
  {
    var lines := Split(content, "\n");
    var nodes: map<nat, Entry> := map[];
    var i := 0;
    while i < |lines|
      invariant 0 <= i <= |lines|
      invariant LoadFrom(map[], lines) == LoadFrom(nodes, lines[i..])
    {
      assert lines[i..][1..] == lines[i + 1..];
      var text := Strip(lines[i]);
      if text != [] {
        var parsed := ParseLine(text);
        if parsed.Err? {
          return Err(parsed.error);
        }
        var (id, entry) := parsed.value;
        nodes := nodes[id := entry];
      }
      i := i + 1;
    }
    var pending := nodes.Keys;
    while pending != {}
      invariant pending <= nodes.Keys
      invariant forall k :: k in nodes && k !in pending ==> !Dangles(nodes, k)
      decreases pending
    {
      var k :| k in pending;
      if Dangles(nodes, k) {
        return Err(DanglingChild);
      }
      pending := pending - {k};
    }
    if 0 !in nodes {
      return Err(MissingRoot);
    }
    var root := Unfold(nodes, 0, {});
    if root.Err? {
      return Err(root.error);
    }
    r := Ok(StrategyTree(root.value));
  }

  // ---------------------------------------------------------------------
  // Reading back what was rendered
  // ---------------------------------------------------------------------

  /** The operator table maps each token to one variant, and each variant back to its token. */
  lemma OperatorTable(c: Condition)
    ensures MakeCondition(c.variable, c.Operator(), c.Operand()) == Ok(c)
  {
  }

  lemma OperatorTableInverse(x: string, op: string, v: Value, c: Condition)
    requires MakeCondition(x, op, v) == Ok(c)
    ensures c.variable == x && c.Operator() == op && c.Operand() == v
  {
  }

  lemma ValueRoundTrip(v: Value)
    requires match v case I(n) => n >= 0 case S(s) => !AllDigits(s)
    ensures ParseValue(ValueToString(v)) == v
  {
    if v.I? {
      DigitsRoundTrip(v.n);
    }
  }

  lemma {:induction false} DigitPrefixOf(a: string, b: string)
    requires AllDigits(a) && (b == [] || !IsDigit(b[0]))
    ensures DigitPrefix(a + b) == |a|
    decreases |a|
  {
    if a != [] {
      assert (a + b)[1..] == a[1..] + b;
      DigitPrefixOf(a[1..], b);
    } else {
      assert a + b == b;
    }
  }

  lemma {:induction false} WordPrefixOf(a: string, b: string)
    requires AllWordChars(a) && (b == [] || !IsWordChar(b[0]))
    ensures WordPrefix(a + b) == |a|
    decreases |a|
  {
    if a != [] {
      assert (a + b)[1..] == a[1..] + b;
      WordPrefixOf(a[1..], b);
    } else {
      assert a + b == b;
    }
  }

  lemma {:induction false} DigitSuffixOf(a: string, b: string)
    requires AllDigits(b) && (a == [] || !IsDigit(a[|a| - 1]))
    ensures DigitSuffix(a + b) == |b|
    decreases |b|
  {
    if b != [] {
      assert (a + b)[..|a + b| - 1] == a + b[..|b| - 1];
      DigitSuffixOf(a, b[..|b| - 1]);
    } else {
      assert a + b == a;
    }
  }

  /** The alternation settles on the first operator that fits. */
  lemma FirstFit(rest: string, ops: seq<string>, k: nat)
    requires k < |ops| && OperatorFits(rest, ops[k])
    requires forall j :: 0 <= j < k ==> !OperatorFits(rest, ops[j])
    ensures PickOperator(rest, ops) == Ok(ops[k])
  {
    var r := PickOperator(rest, ops);
    assert r.Ok?;
    var i :| 0 <= i < |ops| && ops[i] == r.value && OperatorFits(rest, ops[i]) &&
      forall j :: 0 <= j < i ==> !OperatorFits(rest, ops[j]);
    assert i == k;
  }

  /** The rendered operand of a readable condition is value text. */
  lemma OperandIsValueText(c: Condition)
    requires ConditionOk(c)
    ensures ValueText(ValueToString(c.Operand()))
  {
    var t := ValueToString(c.Operand());
    ConditionTextPlain(c);
    assert c.ToString() == c.variable + c.Operator() + t;
    forall i | 0 <= i < |t| ensures !IsSpace(t[i]) {
      assert t[i] == c.ToString()[|c.variable| + |c.Operator()| + i];
    }
  }

  /** With two-character operators first, an operator followed by its rendered operand is read as that operator. */
  lemma PickRenderedOperator(c: Condition)
    requires ConditionOk(c)
    ensures PickOperator(c.Operator() + ValueToString(c.Operand()), Operators) == Ok(c.Operator())
  {
    var op := c.Operator();
    var t := ValueToString(c.Operand());
    var rest := op + t;
    OperandIsValueText(c);
    assert rest[..|op|] == op && rest[|op|..] == t;
    assert OperatorFits(rest, op);
    assert rest[0] == op[0];
    match c
    case GreaterThanOrEqual(_, _) =>
      FirstFit(rest, Operators, 0);
    case LessThanOrEqual(_, _) =>
      FirstFit(rest, Operators, 1);
    case NotEquals(_, _) =>
      FirstFit(rest, Operators, 2);
    case Equals(_, _) =>
      FirstFit(rest, Operators, 3);
    case GreaterThan(_, b) =>
      assert AllDigits(t);
      assert rest[1] == t[0];
      assert !OperatorFits(rest, ">=");
      FirstFit(rest, Operators, 4);
    case LessThan(_, b) =>
      assert AllDigits(t);
      assert rest[1] == t[0];
      assert !OperatorFits(rest, "<=");
      FirstFit(rest, Operators, 5);
  }

  /** The variable is the longest word at the start; the operator is then picked from what follows. */
  lemma TokenizeAt(x: string, rest: string, ops: seq<string>, op: string)
    requires x != [] && AllWordChars(x)
    requires rest != [] && !IsWordChar(rest[0])
    requires PickOperator(rest, ops) == Ok(op)
    ensures TokenizeCondition(x + rest, ops) == Ok((x, op, rest[|op|..]))
  {
    var text := x + rest;
    WordPrefixOf(x, rest);
    assert text[|x|..] == rest;
    assert text[..|x|] == x;
    assert text[|x| + |op|..] == rest[|op|..];
  }

  /** With two-character operators first, a readable condition's text splits into its variable, operator and operand. */
  lemma TokenizeRendered(c: Condition)
    requires ConditionOk(c)
    ensures TokenizeCondition(c.ToString(), Operators) == Ok((c.variable, c.Operator(), ValueToString(c.Operand())))
  {
    var op := c.Operator();
    var t := ValueToString(c.Operand());
    assert c.ToString() == c.variable + (op + t);
    PickRenderedOperator(c);
    assert (op + t)[|op|..] == t;
    TokenizeAt(c.variable, op + t, Operators, op);
  }

  /** With two-character operators first, the text of a readable condition parses back to it. */
  lemma ConditionRoundTrip(c: Condition)
    requires ConditionOk(c)
    ensures ParseCondition(c.ToString(), Operators) == Ok(c)
  {
    TokenizeRendered(c);
    ValueRoundTrip(c.Operand());
    OperatorTable(c);
  }

  /** With two-character operators first, the texts of readable conditions parse back to them, in order. */
  lemma ConditionsRoundTrip(cs: seq<Condition>)
    requires forall i :: 0 <= i < |cs| ==> ConditionOk(cs[i])
    ensures ParseConditions(ConditionStrings(cs), Operators) == Ok(cs)
  {
    var texts := ConditionStrings(cs);
    forall i | 0 <= i < |texts| ensures ParseCondition(texts[i], Operators) == Ok(cs[i]) {
      ConditionRoundTrip(cs[i]);
    }
    EachParsed(texts, Operators, cs);
  }

  /** When each text parses to its condition, the list parses to the list of them. */
  lemma EachParsed(texts: seq<string>, ops: seq<string>, cs: seq<Condition>)
    requires |texts| == |cs|
    requires forall i :: 0 <= i < |texts| ==> ParseCondition(texts[i], ops) == Ok(cs[i])
    ensures ParseConditions(texts, ops) == Ok(cs)
  {
    var r := ParseConditions(texts, ops);
    assert r.Ok?;
    assert forall i :: 0 <= i < |cs| ==> r.value[i] == cs[i];
    assert r.value == cs;
  }

  lemma EndsWithAppend(a: string, b: string)
    ensures EndsWith(a + b, b) && (a + b)[..|a + b| - |b|] == a
  {
    assert (a + b)[|a + b| - |b|..] == b;
  }

  lemma TakeTrailingIdOf(a: string, tag: string, y: string)
    requires tag != [] && !IsDigit(tag[|tag| - 1])
    requires y != [] && AllDigits(y)
    ensures TakeTrailingId(a + tag + y, tag) == Ok((a, DigitsToNat(y)))
  {
    var s := a + tag + y;
    assert (a + tag)[|a + tag| - 1] == tag[|tag| - 1];
    DigitSuffixOf(a + tag, y);
    EndsWithAppend(a + tag, y);
    var r := s[..|s| - |y|];
    assert r == a + tag;
    EndsWithAppend(a, tag);
    assert EndsWith(r, tag) && r[..|r| - |tag|] == a;
    assert s[|s| - |y|..] == y;
  }

  /** The optional whitespace `\s?` of the branch pattern: nothing, or one whitespace character. */
  predicate OptionalSpace(s: string)
  {
    s == [] || (|s| == 1 && IsSpace(s[0]))
  }

  lemma DropSpaceOf(a: string, sp: string)
    requires a != [] && !IsSpace(a[|a| - 1]) && OptionalSpace(sp)
    ensures DropOptionalSpace(a + sp) == a
  {
    if sp == [] {
      assert a + sp == a;
    } else {
      assert (a + sp)[..|a|] == a;
    }
  }

  lemma TakeCharOf(a: string, c: char)
    ensures TakeTrailingChar(a + [c], c) == Ok(a)
  {
    assert (a + [c])[..|a|] == a;
  }

  /**
   * The right-to-left reading of a branch body, with or without whitespace
   * before `yes=` and before `no=`.
   */
  lemma BranchTailOf(inner: string, s1: string, s2: string, y: string, z: string)
    requires OptionalSpace(s1) && OptionalSpace(s2)
    requires y != [] && z != [] && AllDigits(y) && AllDigits(z)
    ensures BranchTail("[" + inner + "]" + s1 + "yes=" + y + "," + s2 + "no=" + z)
      == Ok((inner, DigitsToNat(y), DigitsToNat(z)))
  {
    var r4 := "[" + inner + "]";
    var r3 := r4 + s1;
    var r2 := r3 + "yes=" + y;
    assert "[" + inner + "]" + s1 + "yes=" + y + "," + s2 + "no=" + z == r2 + "," + s2 + "no=" + z;
    TailAfterYes(r2, s2, z);
    HeadBeforeYes(inner, s1, y);
  }

  /** The `[<conditions>]<ws?>yes=<digits>` start of a branch body. */
  lemma HeadBeforeYes(inner: string, s1: string, y: string)
    requires OptionalSpace(s1) && y != [] && AllDigits(y)
    ensures TakeTrailingId("[" + inner + "]" + s1 + "yes=" + y, "yes=") == Ok(("[" + inner + "]" + s1, DigitsToNat(y)))
    ensures DropOptionalSpace("[" + inner + "]" + s1) == "[" + inner + "]"
    ensures var r4 := "[" + inner + "]"; |r4| >= 2 && r4[0] == '[' && r4[|r4| - 1] == ']' && r4[1..|r4| - 1] == inner
  {
    var r4 := "[" + inner + "]";
    TakeTrailingIdOf(r4 + s1, "yes=", y);
    DropSpaceOf(r4, s1);
    assert r4[1..|r4| - 1] == inner;
  }

  /** The `,<ws?>no=<digits>` end of a branch body. */
  lemma TailAfterYes(r2: string, s2: string, z: string)
    requires OptionalSpace(s2) && z != [] && AllDigits(z)
    ensures TakeTrailingId(r2 + "," + s2 + "no=" + z, "no=") == Ok((r2 + "," + s2, DigitsToNat(z)))
    ensures TakeTrailingChar(DropOptionalSpace(r2 + "," + s2), ',') == Ok(r2)
  {
    TakeTrailingIdOf(r2 + "," + s2, "no=", z);
    DropSpaceOf(r2 + ",", s2);
    TakeCharOf(r2, ',');
  }

  /**
   * The part after `<id>:` of a node's line in any layout the line pattern
   * takes: `s1` and `s2` are what stands before `yes=` and before `no=`.
   */
  function WrittenBody(n: Node, s1: string, s2: string): string
  {
    match n
    case Leaf(_, v) => "leaf=" + v
    case Branch(_, cs, yes, no) =>
      "[" + Join(ConditionStrings(cs), "||or||") + "]" + s1 + "yes=" + NatToString(yes.id) + "," + s2 + "no=" + NatToString(no.id)
  }

  /** Rendering uses one space before `yes=` and one before `no=`. */
  lemma RenderedLayout(n: Node)
    ensures NodeBody(n) == WrittenBody(n, " ", " ")
  {
    if n.Branch? {
      var inner := Join(ConditionStrings(n.conditions), "||or||");
      var y := NatToString(n.yes.id);
      var z := NatToString(n.no.id);
      assert "[" + inner + "] yes=" + y + ", no=" + z == "[" + inner + "]" + " " + "yes=" + y + "," + " " + "no=" + z;
    }
  }

  /** A branch body in any accepted layout reads back as the branch's conditions and child ids. */
  lemma BranchRoundTrip(line: string, n: Node, s1: string, s2: string)
    requires n.Branch? && NodeOk(n) && OptionalSpace(s1) && OptionalSpace(s2)
    ensures ParseBranch(line, WrittenBody(n, s1, s2)) == Ok(BranchEntry(n.conditions, n.yes.id, n.no.id))
  {
    var parts := ConditionStrings(n.conditions);
    var inner := Join(parts, "||or||");
    forall i | 0 <= i < |parts| ensures '|' !in parts[i] {
      ConditionTextPlain(n.conditions[i]);
    }
    SplitJoin(parts, "||or||");
    ConditionsRoundTrip(n.conditions);
    DigitsRoundTrip(n.yes.id);
    DigitsRoundTrip(n.no.id);
    BranchTailOf(inner, s1, s2, NatToString(n.yes.id), NatToString(n.no.id));
  }

  /** What a node's line declares. */
  function EntryOf(n: Node): Entry
  {
    match n
    case Leaf(_, v) => LeafEntry(v)
    case Branch(_, cs, yes, no) => BranchEntry(cs, yes.id, no.id)
  }

  lemma LineIdParses(ids: string, body: string)
    requires ids != [] && AllDigits(ids)
    ensures ParseLine(ids + ":" + body) == ParseBody(ids + ":" + body, DigitsToNat(ids), body)
  {
    var text := ids + ":" + body;
    DigitPrefixOf(ids, ":" + body);
    assert text == ids + (":" + body);
    assert text[..|ids|] == ids && text[|ids|] == ':' && text[|ids| + 1..] == body;
  }

  /** A leaf body, or a branch body in any accepted layout, reads back as the node's entry. */
  lemma BodyRoundTrip(text: string, n: Node, s1: string, s2: string)
    requires NodeOk(n) && OptionalSpace(s1) && OptionalSpace(s2)
    ensures ParseBody(text, n.id, WrittenBody(n, s1, s2)) == Ok((n.id, EntryOf(n)))
  {
    var body := WrittenBody(n, s1, s2);
    if n.Branch? {
      assert body[0] == '[';
      assert body[..5] != "leaf=" by {
        assert body[..5][0] == '[';
      }
      BranchRoundTrip(text, n, s1, s2);
    } else {
      assert body[..5] == "leaf=" && body[5..] == n.value;
    }
  }

  /**
   * A node's line with any whitespace around it and either spacing before
   * `yes=` and `no=` strips to `<id>:<body>` and parses to the node's id
   * and entry.
   */
  lemma LineRoundTrip(n: Node, pre: string, post: string, s1: string, s2: string)
    requires NodeOk(n) && AllSpace(pre) && AllSpace(post) && OptionalSpace(s1) && OptionalSpace(s2)
    ensures Strip(pre + NatToString(n.id) + ":" + WrittenBody(n, s1, s2) + post)
      == NatToString(n.id) + ":" + WrittenBody(n, s1, s2)
    ensures ParseLine(NatToString(n.id) + ":" + WrittenBody(n, s1, s2)) == Ok((n.id, EntryOf(n)))
  {
    StripWritten(n, pre, post, s1, s2);
    LineIdParses(NatToString(n.id), WrittenBody(n, s1, s2));
    DigitsRoundTrip(n.id);
    BodyRoundTrip(NatToString(n.id) + ":" + WrittenBody(n, s1, s2), n, s1, s2);
  }

  lemma StripWritten(n: Node, pre: string, post: string, s1: string, s2: string)
    requires NodeOk(n) && AllSpace(pre) && AllSpace(post)
    ensures Strip(pre + NatToString(n.id) + ":" + WrittenBody(n, s1, s2) + post)
      == NatToString(n.id) + ":" + WrittenBody(n, s1, s2)
  {
    var ids := NatToString(n.id);
    var body := WrittenBody(n, s1, s2);
    var text := ids + ":" + body;
    assert text[0] == ids[0];
    if n.Leaf? {
      assert body[|body| - 1] == n.value[|n.value| - 1];
    } else {
      var z := NatToString(n.no.id);
      assert body[|body| - 1] == z[|z| - 1];
    }
    assert text[|text| - 1] == body[|body| - 1];
    assert pre + ids + ":" + body + post == pre + text + post;
    StripIndented(pre, text, post);
  }

  /** A rendered line is the layout with tab indentation and a space before `yes=` and `no=`. */
  lemma RenderedLine(n: Node, depth: nat)
    ensures NodeLine(n, depth) == Tabs(depth) + NatToString(n.id) + ":" + WrittenBody(n, " ", " ") + ""
    ensures AllSpace(Tabs(depth)) && AllSpace("") && OptionalSpace(" ")
  {
    RenderedLayout(n);
  }

  /** The map the first pass builds from the lines of a subtree, starting from `nodes`. */
  function Entries(nodes: map<nat, Entry>, n: Node): map<nat, Entry>
    decreases n
  {
    match n
    case Leaf(id, _) => nodes[id := EntryOf(n)]
    case Branch(id, _, yes, no) => Entries(Entries(nodes[id := EntryOf(n)], yes), no)
  }

  lemma {:induction false} LoadFromAppend(nodes: map<nat, Entry>, a: seq<string>, b: seq<string>)
    requires LoadFrom(nodes, a).Ok?
    ensures LoadFrom(nodes, a + b) == LoadFrom(LoadFrom(nodes, a).value, b)
    decreases |a|
  {
    if a == [] {
      assert a + b == b;
    } else {
      assert (a + b)[0] == a[0] && (a + b)[1..] == a[1..] + b;
      LoadFromAppend(AddLine(nodes, a[0]).value, a[1..], b);
    }
  }

  /** The first pass records a rendered line under its node's id. */
  lemma AddRenderedLine(nodes: map<nat, Entry>, n: Node, depth: nat)
    requires NodeOk(n)
    ensures AddLine(nodes, NodeLine(n, depth)) == Ok(nodes[n.id := EntryOf(n)])
  {
    RenderedLine(n, depth);
    LineRoundTrip(n, Tabs(depth), "", " ", " ");
  }

  lemma LoadFromCons(nodes: map<nat, Entry>, lines: seq<string>, next: map<nat, Entry>)
    requires lines != [] && AddLine(nodes, lines[0]) == Ok(next)
    ensures LoadFrom(nodes, lines) == LoadFrom(next, lines[1..])
  {
  }

  /** The first pass over a rendered subtree records one entry per node. */
  lemma {:induction false} LoadRendered(nodes: map<nat, Entry>, n: Node, depth: nat)
    requires NodeOk(n)
    ensures LoadFrom(nodes, NodeLines(n, depth)) == Ok(Entries(nodes, n))
    decreases n, 1
  {
    var first := nodes[n.id := EntryOf(n)];
    AddRenderedLine(nodes, n, depth);
    LoadFromCons(nodes, NodeLines(n, depth), first);
    if n.Branch? {
      NodeLinesTail(n, depth);
      LoadBranch(first, n, depth);
    }
  }

  /** The lines of the two subtrees of a branch load one after the other. */
  lemma {:induction false} LoadBranch(first: map<nat, Entry>, n: Node, depth: nat)
    requires n.Branch? && NodeOk(n)
    ensures LoadFrom(first, NodeLines(n.yes, depth + 1) + NodeLines(n.no, depth + 1))
      == Ok(Entries(Entries(first, n.yes), n.no))
    decreases n, 0
  {
    LoadRendered(first, n.yes, depth + 1);
    LoadFromAppend(first, NodeLines(n.yes, depth + 1), NodeLines(n.no, depth + 1));
    LoadRendered(Entries(first, n.yes), n.no, depth + 1);
  }

  /** Loading a subtree adds exactly its ids and leaves every other entry alone. */
  lemma {:induction false} EntriesFrame(nodes: map<nat, Entry>, n: Node)
    ensures Entries(nodes, n).Keys == nodes.Keys + IdSet(n)
    ensures forall k :: k in nodes && k !in IdSet(n) ==> Entries(nodes, n)[k] == nodes[k]
    decreases n
  {
    if n.Branch? {
      var first := nodes[n.id := EntryOf(n)];
      EntriesFrame(first, n.yes);
      EntriesFrame(Entries(first, n.yes), n.no);
    }
  }

  /** The map holds each node of the subtree under its id. */
  predicate Agrees(nodes: map<nat, Entry>, n: Node)
  {
    n.id in nodes && nodes[n.id] == EntryOf(n) &&
    match n
    case Leaf(_, _) => true
    case Branch(_, _, yes, no) => Agrees(nodes, yes) && Agrees(nodes, no)
  }

  lemma {:induction false} AgreesFrame(a: map<nat, Entry>, b: map<nat, Entry>, n: Node)
    requires Agrees(a, n)
    requires forall k :: k in IdSet(n) ==> k in a && k in b && b[k] == a[k]
    ensures Agrees(b, n)
    decreases n
  {
    if n.Branch? {
      AgreesFrame(a, b, n.yes);
      AgreesFrame(a, b, n.no);
    }
  }

  lemma {:induction false} EntriesAgree(nodes: map<nat, Entry>, n: Node)
    requires UniqueIds(n)
    ensures Agrees(Entries(nodes, n), n)
    decreases n
  {
    EntriesFrame(nodes, n);
    if n.Branch? {
      var first := nodes[n.id := EntryOf(n)];
      var middle := Entries(first, n.yes);
      var last := Entries(middle, n.no);
      EntriesFrame(first, n.yes);
      EntriesFrame(middle, n.no);
      EntriesAgree(first, n.yes);
      EntriesAgree(middle, n.no);
      AgreesFrame(middle, last, n.yes);
    }
  }

  /** Every branch entry names children among the ids `ids`. */
  predicate ChildrenWithin(nodes: map<nat, Entry>, ids: set<nat>)
  {
    forall k :: k in nodes && nodes[k].BranchEntry? ==> nodes[k].yesId in ids && nodes[k].noId in ids
  }

  lemma {:induction false} EntriesChildren(nodes: map<nat, Entry>, n: Node, ids: set<nat>)
    requires ChildrenWithin(nodes, ids) && IdSet(n) <= ids
    ensures ChildrenWithin(Entries(nodes, n), ids)
    decreases n
  {
    if n.Branch? {
      var first := nodes[n.id := EntryOf(n)];
      assert ChildrenWithin(first, ids);
      EntriesChildren(first, n.yes, ids);
      EntriesChildren(Entries(first, n.yes), n.no, ids);
    }
  }

  /** Unfolding from a node's id rebuilds the node when no id of it is among those already visited. */
  lemma {:induction false} UnfoldAgrees(nodes: map<nat, Entry>, n: Node, seen: set<nat>)
    requires Agrees(nodes, n) && UniqueIds(n) && seen !! IdSet(n)
    ensures Unfold(nodes, n.id, seen) == Ok(n)
    decreases n
  {
    if n.Branch? {
      UnfoldAgrees(nodes, n.yes, seen + {n.id});
      UnfoldAgrees(nodes, n.no, seen + {n.id});
    }
  }

  /** Text whose lines load like the rendering of a well-formed tree parses to that tree. */
  lemma ParseLoaded(t: StrategyTree, content: string)
    requires WellFormed(t)
    requires LoadFrom(map[], Split(content, "\n")) == LoadFrom(map[], NodeLines(t.root, 0))
    ensures Parse(content) == Ok(t)
  {
    LoadRendered(map[], t.root, 0);
    var nodes := Entries(map[], t.root);
    EntriesFrame(map[], t.root);
    EntriesChildren(map[], t.root, IdSet(t.root));
    assert !HasDangling(nodes);
    EntriesAgree(map[], t.root);
    UnfoldAgrees(nodes, t.root, {});
  }

  /** Parsing is the inverse of rendering on the trees the text format can carry. */
  lemma ParseRender(t: StrategyTree)
    requires WellFormed(t)
    ensures Parse(Render(t)) == Ok(t)
  {
    ParseLoaded(t, Render(t));
  }

  /** Two raw lines the first pass treats alike: both blank, or both reading as the same id and entry. */
  predicate ReadsAs(raw: string, line: string)
  {
    (Strip(raw) == [] <==> Strip(line) == []) &&
    (Strip(raw) != [] ==> ParseLine(Strip(raw)) == ParseLine(Strip(line)))
  }

  lemma {:induction false} LoadFromReadsAs(nodes: map<nat, Entry>, raws: seq<string>, lines: seq<string>)
    requires |raws| == |lines| && forall i :: 0 <= i < |raws| ==> ReadsAs(raws[i], lines[i])
    ensures LoadFrom(nodes, raws) == LoadFrom(nodes, lines)
    decreases |raws|
  {
    if raws != [] {
      assert ReadsAs(raws[0], lines[0]);
      assert AddLine(nodes, raws[0]) == AddLine(nodes, lines[0]);
      if AddLine(nodes, raws[0]).Ok? {
        LoadFromReadsAs(AddLine(nodes, raws[0]).value, raws[1..], lines[1..]);
      }
    }
  }

  /** The lines that are not blank once stripped, in order. */
  function NonBlank(lines: seq<string>): (r: seq<string>)
    ensures forall i :: 0 <= i < |r| ==> Strip(r[i]) != []
    ensures |r| <= |lines|
  {
    if lines == [] then []
    else if Strip(lines[0]) == [] then NonBlank(lines[1..])
    else [lines[0]] + NonBlank(lines[1..])
  }

  /** Blank lines do not change what the first pass loads. */
  lemma {:induction false} LoadFromNonBlank(nodes: map<nat, Entry>, lines: seq<string>)
    ensures LoadFrom(nodes, lines) == LoadFrom(nodes, NonBlank(lines))
    decreases |lines|
  {
    if lines != [] {
      if Strip(lines[0]) == [] {
        LoadFromNonBlank(nodes, lines[1..]);
      } else {
        var r := NonBlank(lines);
        assert r[0] == lines[0] && r[1..] == NonBlank(lines[1..]);
        if AddLine(nodes, lines[0]).Ok? {
          LoadFromNonBlank(AddLine(nodes, lines[0]).value, lines[1..]);
        }
      }
    }
  }

  /**
   * Text whose non-blank lines read, one for one, like the rendered lines of
   * a well-formed tree parses to that tree: indentation, trailing
   * whitespace, blank lines and the spacing before `yes=` and `no=` do not
   * matter.
   */
  lemma ParseWritten(t: StrategyTree, content: string)
    requires WellFormed(t)
    requires |NonBlank(Split(content, "\n"))| == Size(t.root)
    requires forall i :: 0 <= i < Size(t.root) ==> ReadsAs(NonBlank(Split(content, "\n"))[i], NodeLines(t.root, 0)[i])
    ensures Parse(content) == Ok(t)
  {
    LoadFromNonBlank(map[], Split(content, "\n"));
    LoadFromReadsAs(map[], NonBlank(Split(content, "\n")), NodeLines(t.root, 0));
    ParseLoaded(t, content);
  }

  /**
   * A node's line with any whitespace around it and no space or one
   * whitespace character before `yes=` and before `no=` reads like its
   * rendered line, at any depth.
   */
  lemma WrittenLineReadsAs(n: Node, depth: nat, pre: string, post: string, s1: string, s2: string)
    requires NodeOk(n) && AllSpace(pre) && AllSpace(post) && OptionalSpace(s1) && OptionalSpace(s2)
    ensures ReadsAs(pre + NatToString(n.id) + ":" + WrittenBody(n, s1, s2) + post, NodeLine(n, depth))
  {
    LineRoundTrip(n, pre, post, s1, s2);
    RenderedLine(n, depth);
    LineRoundTrip(n, Tabs(depth), "", " ", " ");
  }

  /** A line of whitespace only is dropped before the first pass. */
  lemma WhitespaceLineBlank(raw: string)
    requires AllSpace(raw)
    ensures NonBlank([raw]) == []
  {
    StripBlank(raw);
  }

  /**
   * The layout of the tree-file fixture, on a small tree: the root line
   * unindented with no space before `no=`, the child lines indented with
   * spaces, and a last line of spaces only.
   */
  lemma ParseSpacedExample(content: string)
    requires content == "0:[distance<=5] yes=1,no=2" + "\n" + ("    1:leaf=1.0" + "\n" + ("    2:leaf=2.0" + "\n" + "        "))
    ensures Parse(content) == Ok(StrategyTree(Branch(0, [LessThanOrEqual("distance", 5)], Leaf(1, "1.0"), Leaf(2, "2.0"))))
  {
    SpacedLinesRead();
    SpacedLinesSplit();
    SpacedTree();
    ParseFourLines(StrategyTree(Branch(0, [LessThanOrEqual("distance", 5)], Leaf(1, "1.0"), Leaf(2, "2.0"))),
      "0:[distance<=5] yes=1,no=2", "    1:leaf=1.0", "    2:leaf=2.0", "        ");
  }

  /** Three lines that read like the rendering of a three-node tree, then a blank line. */
  lemma ParseFourLines(t: StrategyTree, a: string, b: string, c: string, d: string)
    requires WellFormed(t) && Size(t.root) == 3
    requires '\n' !in a && '\n' !in b && '\n' !in c && '\n' !in d
    requires Strip(a) != [] && Strip(b) != [] && Strip(c) != [] && Strip(d) == []
    requires var lines := NodeLines(t.root, 0);
      ReadsAs(a, lines[0]) && ReadsAs(b, lines[1]) && ReadsAs(c, lines[2])
    ensures Parse(a + "\n" + (b + "\n" + (c + "\n" + d))) == Ok(t)
  {
    var content := a + "\n" + (b + "\n" + (c + "\n" + d));
    SplitFour(a, b, c, d, "\n");
    NonBlankFour(a, b, c, d);
    var raws := NonBlank(Split(content, "\n"));
    var lines := NodeLines(t.root, 0);
    assert raws == [a, b, c];
    forall i | 0 <= i < Size(t.root)
      ensures ReadsAs(raws[i], lines[i])
    {
      if i == 0 {
      } else if i == 1 {
      } else {
      }
    }
    ParseWritten(t, content);
  }

  lemma SpacedTree()
    ensures WellFormed(StrategyTree(Branch(0, [LessThanOrEqual("distance", 5)], Leaf(1, "1.0"), Leaf(2, "2.0"))))
    ensures Size(Branch(0, [LessThanOrEqual("distance", 5)], Leaf(1, "1.0"), Leaf(2, "2.0"))) == 3
    ensures var root := Branch(0, [LessThanOrEqual("distance", 5)], Leaf(1, "1.0"), Leaf(2, "2.0"));
      NodeLines(root, 0) == [NodeLine(root, 0), NodeLine(Leaf(1, "1.0"), 1), NodeLine(Leaf(2, "2.0"), 1)]
  {
    assert ConditionOk(LessThanOrEqual("distance", 5));
    assert LeafValueOk("1.0") && LeafValueOk("2.0");
  }

  lemma SpacedLinesSplit()
    ensures Strip("        ") == []
    ensures '\n' !in "0:[distance<=5] yes=1,no=2" && '\n' !in "    1:leaf=1.0" && '\n' !in "    2:leaf=2.0" && '\n' !in "        "
  {
    StripBlank("        ");
  }

  lemma SpacedLinesRead()
    ensures var root := Branch(0, [LessThanOrEqual("distance", 5)], Leaf(1, "1.0"), Leaf(2, "2.0"));
      Strip("0:[distance<=5] yes=1,no=2") != [] && ReadsAs("0:[distance<=5] yes=1,no=2", NodeLine(root, 0))
    ensures Strip("    1:leaf=1.0") != [] && ReadsAs("    1:leaf=1.0", NodeLine(Leaf(1, "1.0"), 1))
    ensures Strip("    2:leaf=2.0") != [] && ReadsAs("    2:leaf=2.0", NodeLine(Leaf(2, "2.0"), 1))
  {
    var root := Branch(0, [LessThanOrEqual("distance", 5)], Leaf(1, "1.0"), Leaf(2, "2.0"));
    assert NodeOk(root) by {
      assert ConditionOk(LessThanOrEqual("distance", 5));
      assert LeafValueOk("1.0") && LeafValueOk("2.0");
    }
    RootLineSpaced();
    WrittenLineReadsAs(root, 0, "", "", " ", "");
    LineRoundTrip(root, "", "", " ", "");
    ChildTexts();
    ChildLineSpaced(1, "1.0", "    1:leaf=1.0");
    ChildLineSpaced(2, "2.0", "    2:leaf=2.0");
  }

  lemma ChildTexts()
    ensures "    1:leaf=1.0" == "    " + NatToString(1) + ":" + "leaf=" + "1.0"
    ensures "    2:leaf=2.0" == "    " + NatToString(2) + ":" + "leaf=" + "2.0"
  {
  }

  lemma NonBlankFour(a: string, b: string, c: string, d: string)
    requires Strip(a) != [] && Strip(b) != [] && Strip(c) != [] && Strip(d) == []
    ensures NonBlank([a, b, c, d]) == [a, b, c]
  {
    assert [a, b, c, d][1..] == [b, c, d] && [b, c, d][1..] == [c, d] && [c, d][1..] == [d] && [d][1..] == [];
    assert NonBlank([d]) == [];
    assert NonBlank([c, d]) == [c];
    assert NonBlank([b, c, d]) == [b, c];
  }

  lemma RootLineSpaced()
    ensures "0:[distance<=5] yes=1,no=2"
      == "" + NatToString(0) + ":" + WrittenBody(Branch(0, [LessThanOrEqual("distance", 5)], Leaf(1, "1.0"), Leaf(2, "2.0")), " ", "") + ""
  {
    var root := Branch(0, [LessThanOrEqual("distance", 5)], Leaf(1, "1.0"), Leaf(2, "2.0"));
    var w := WrittenBody(root, " ", "");
    SingleConditionBody(root, " ", "");
    FixtureBoundTexts();
    assert NatToString(0) == "0" && NatToString(1) == "1" && NatToString(2) == "2";
    assert w == "[" + "distance<=5" + "]" + " " + "yes=" + "1" + "," + "" + "no=" + "2";
    EmptyEnds(NatToString(0), w);
    Reassociate("0", ":", "[", "distance<=5", "]", " ", "yes=", "1", ",", "", "no=", "2");
    LiteralSteps();
  }

  lemma EmptyEnds(p: string, w: string)
    ensures "" + p + ":" + w + "" == p + ":" + w
  {
  }

  lemma LiteralSteps()
    ensures "0" + ":" + "[" + "distance<=5" + "]" + " " + "yes=" + "1" + "," + "" + "no=" + "2" == "0:[distance<=5] yes=1,no=2"
  {
    var s := "0" + ":" + "[" + "distance<=5";
    assert s == "0:[distance<=5";
    s := s + "]" + " " + "yes=" + "1";
    assert s == "0:[distance<=5] yes=1";
    s := s + "," + "" + "no=" + "2";
    assert s == "0:[distance<=5] yes=1,no=2";
  }

  lemma Reassociate(p: string, q: string, a: string, b: string, c: string, d: string, e: string, f: string,
                    g: string, h: string, k: string, l: string)
    ensures p + q + (a + b + c + d + e + f + g + h + k + l) == p + q + a + b + c + d + e + f + g + h + k + l
  {
  }

  lemma SingleConditionBody(n: Node, s1: string, s2: string)
    requires n.Branch? && |n.conditions| == 1
    ensures WrittenBody(n, s1, s2)
      == "[" + n.conditions[0].ToString() + "]" + s1 + "yes=" + NatToString(n.yes.id) + "," + s2 + "no=" + NatToString(n.no.id)
  {
    assert ConditionStrings(n.conditions) == [n.conditions[0].ToString()];
  }

  lemma ChildLineSpaced(id: nat, v: string, line: string)
    requires LeafValueOk(v) && line == "    " + NatToString(id) + ":" + "leaf=" + v
    ensures Strip(line) != [] && ReadsAs(line, NodeLine(Leaf(id, v), 1))
  {
    assert AllSpace("    ") && AllSpace("");
    assert line == "    " + NatToString(id) + ":" + WrittenBody(Leaf(id, v), "", "") + "";
    LineRoundTrip(Leaf(id, v), "    ", "", "", "");
    WrittenLineReadsAs(Leaf(id, v), 1, "    ", "", "", "");
  }

  /** Two well-formed trees with the same rendering are equal. */
  lemma RenderInjective(a: StrategyTree, b: StrategyTree)
    requires WellFormed(a) && WellFormed(b) && Render(a) == Render(b)
    ensures a == b
  {
    ParseRender(a);
    ParseRender(b);
  }

  // ---------------------------------------------------------------------
  // The operator order of the condition pattern
  // ---------------------------------------------------------------------

  /**
   * With the alternation in the pattern's own order, the one-character
   * operator `>` or `<` fits before `>=` or `<=` is tried, so the text of a
   * `>=` or `<=` condition is read with the `=` moved into its value text.
   */
  lemma SourceOrderPicks(c: Condition)
    requires ConditionOk(c) && (c.GreaterThanOrEqual? || c.LessThanOrEqual?)
    ensures PickOperator(c.Operator() + ValueToString(c.Operand()), SourceOperators) == Ok(c.Operator()[..1])
  {
    var op := c.Operator();
    var t := ValueToString(c.Operand());
    var rest := op + t;
    OperandIsValueText(c);
    assert rest[1..] == "=" + t;
    assert ValueText("=" + t) by {
      forall i | 0 <= i < |"=" + t| ensures !IsSpace(("=" + t)[i]) {
        if i > 0 {
          assert ("=" + t)[i] == t[i - 1];
        }
      }
    }
    if c.GreaterThanOrEqual? {
      assert op[..1] == rest[..1] == ">";
      FirstFit(rest, SourceOperators, 2);
    } else {
      assert op[..1] == rest[..1] == "<";
      assert !OperatorFits(rest, ">");
      FirstFit(rest, SourceOperators, 3);
    }
  }

  lemma SourceOrderTokenizes(c: Condition)
    requires ConditionOk(c) && (c.GreaterThanOrEqual? || c.LessThanOrEqual?)
    ensures TokenizeCondition(c.ToString(), SourceOperators)
      == Ok((c.variable, c.Operator()[..1], "=" + ValueToString(c.Operand())))
  {
    var rest := c.Operator() + ValueToString(c.Operand());
    assert c.ToString() == c.variable + rest;
    assert !IsWordChar(rest[0]);
    SourceOrderPicks(c);
    assert rest[1..] == "=" + ValueToString(c.Operand());
    TokenizeAt(c.variable, rest, SourceOperators, c.Operator()[..1]);
  }

  /** The value text `=<n>` is not an integer, and an ordering operator needs one: the condition is rejected. */
  lemma SourceOrderMisreads(c: Condition)
    requires ConditionOk(c) && (c.GreaterThanOrEqual? || c.LessThanOrEqual?)
    ensures ParseCondition(c.ToString(), SourceOperators).Err?
    ensures ParseCondition(c.ToString(), Operators) == Ok(c)
  {
    SourceOrderTokenizes(c);
    var t := ValueToString(c.Operand());
    assert !IsDigit(("=" + t)[0]);
    ConditionRoundTrip(c);
  }
}
