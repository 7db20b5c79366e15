# Decision-tree to rule-list converter, modelled in Dafny

The modelled repository reads a binary decision tree from a text file and flattens it into rules. Each rule, called a strategy, reads `if (c1 && c2 ...) then v`.

- A branch node holds one or more conditions linked by OR, plus a true child and a false child.
- A leaf holds a payout.
- Every root-to-leaf walk collects the conditions it passes. Going to a true child it collects the condition; going to a false child it collects the condition's negation.
- The collected list is then pruned. A list that contradicts itself is dropped. Otherwise each variable's conditions are reduced to a minimal shape.

The project has six modules, one file each:

- `Text` (`text.dfy`): the string helpers the text formats need. These are decimal digits, split and join on a separator, tab indentation and whitespace stripping.
- `Conditions` (`conditions.dfy`): the six condition variants (`=`, `!=`, `>`, `>=`, `<`, `<=`), with their operator token, negation, asymmetric contradiction test and string form.
- `Strategies` (`strategy.dfy`): a strategy, its string form, its order-insensitive equality, and pruning.
  - `Pruned` is the specification of pruning.
  - The method `Prune` follows the source's two loops: grouping with an early exit on a contradiction, then per-variable reduction. It is proved to compute `Pruned`.
- `Trees` (`tree.dfy`): tree nodes, the node and tree string forms, and the trees the text format can carry.
- `TreeParser` (`parser.dfy`): `StrategyTree.from_string`.
  - A first pass loads an id-to-node map line by line.
  - A second pass checks every child id.
  - The tree is then unfolded from id 0.
  - The method `ParseTree` follows these passes and is proved to compute the function `Parse`. `ParseRender` proves that rendering a well-formed tree and parsing the text gives the tree back, and `ParseWritten` extends this to any indentation, whitespace-only lines and either spacing before `yes=` and `no=`.
- `Extraction` (`extract.dfy`): `get_strategies`.
  - The method `GetStrategies` runs the explicit work stack. It is proved to compute `Extract`: the pruned candidates of every walk, in the order the stack reaches the leaves.
  - `ExtractedExactly` characterises the result in terms of root-to-leaf paths.

In `src/conditions.py` and `src/strategy_tree.py`, every method body raises `NotImplementedError`: see `src/conditions.py:29-99` and `src/strategy_tree.py:21-37,56-71`. For those two files the behaviour modelled is the behaviour the repository's tests demand, so the table below cites those tests. `src/strategy.py` is implemented, and its model follows its code line by line.

Four facts about the code and the tests shape the model:

- **Ties between upper bounds.** On an equal bound the code keeps `<=` over `<` (`src/strategy.py:61-67`), and so does `TrackUpper`.
- **Two NotEquals on one variable.** `tests/test_conditions.py:66` says they contradict when their values differ, and the five-strategy extraction of `tests/test_strategy_tree.py:159-187` needs that.
  - The model keeps this cell as the single predicate `Conditions.NotEqualsClash`.
  - `tests/test_strategy.py:107-121` expects a strategy with two such conditions to be kept, which `:66` rules out. `Strategies.CategoryNotEqualsDropped` exhibits the outcome on that test's input.
  - The structural pruning lemmas (`PruneEqualsPins`, `PruneKeepsBounds`, `SimplifyGroups` and the others) do not depend on how the cell is defined.
- **Idempotence.** Under the asymmetric contradiction test, pruning is not idempotent, as `Strategies.PruneNotIdempotent` shows.
- **Operator order.** The condition pattern at `src/strategy_tree.py:46` lists `>` and `<` before `>=` and `<=`; see Findings.

The worked examples state a long expected text as the concatenation of its pieces (`"age=18" + "||or||" + ...`), which spells the same string.

## Model

| member | source | states |
|---|---|---|
| Conditions.OperatorDeterminesVariant | src/strategy_tree.py:47-54 | each variant has its own operator token (`=`, `!=`, `>`, `>=`, `<`, `<=`, as `tests/test_conditions.py:17,57,97,138,179,220` fix them), so the token determines the variant |
| Conditions.Condition.Negate | tests/test_conditions.py:22-23 | the negation keeps the variable and the compared value |
| Conditions.NegateSwapsVariants | tests/test_conditions.py:102-103 | negation maps `=`↔`!=`, `>`↔`<=` and `>=`↔`<`, in both directions (as also at `:23,63,144,185,226`) |
| Conditions.NegateInvolutive | tests/test_conditions.py:62-63 | negating twice gives back the same condition |
| Conditions.NegateComplements | src/conditions.py:15-17 | the negation holds of exactly the values the condition does not hold of (integer values for ordering variants) |
| Conditions.EqualsContradictsExactly | tests/test_conditions.py:25-43 | an Equals contradicts a condition on its variable exactly when its value fails that condition; this includes the boundary cells at 40, 50 and 60 |
| Conditions.NotEqualsRow | tests/test_conditions.py:65-83 | a NotEquals clashes with an Equals of the same value, with a NotEquals exactly as `NotEqualsClash` says, and never with an ordering condition |
| Conditions.OrderingAgainstEquals | tests/test_conditions.py:106-107 | an ordering condition contradicts an Equals on an integer exactly when that integer fails it, and never contradicts an Equals on a string (as also at `:147-148,188-189,229-230`) |
| Conditions.OppositeBounds | tests/test_conditions.py:118-124 | a lower and an upper bound on one variable contradict exactly when the lower bound is above the upper one, or the two are equal and one side is strict; the one exception is that `>=` does not contradict `<` on an equal bound (as also at `:159-165,192-198,233-239`) |
| Conditions.SameSideNeverContradicts | tests/test_conditions.py:108-116 | two lower bounds never contradict, two upper bounds never contradict, and no ordering condition contradicts a NotEquals (as also at `:149-157,190-206,231-247`) |
| Conditions.ContradictsSound | src/conditions.py:19-21 | every reported contradiction except the NotEquals/NotEquals cell is genuine: no value satisfies both conditions |
| Conditions.ContradictsAsymmetric | tests/test_conditions.py:197 | `test<50` contradicts `test>=50`, but `test>=50` does not contradict `test<50` (`:160`) |
| Conditions.NotEqualsClashNotGenuine | tests/test_conditions.py:66 | `test!=50` is reported to contradict `test!=20`, although 30 satisfies both |
| Conditions.Condition.Operator | tests/test_conditions.py:17 | the operator token has one or two characters, and two exactly for `!=`, `>=` and `<=` (as also at `:57,97,138,179,220`) |
| Conditions.Condition.Contradicts | tests/test_conditions.py:25-43 | a reported contradiction is always between conditions on the same variable, and, unless both are NotEquals, no value satisfies both |
| Conditions.Condition.ToString | tests/test_conditions.py:46 | a condition's text starts with its variable followed by its operator token |
| Conditions.RenderExamples | tests/test_conditions.py:46 | `=`, `!=` and `>` on `test` and 50 render as `test=50`, `test!=50` and `test>50` (as also at `:86,127`) |
| Conditions.RenderBoundExamples | tests/test_conditions.py:168 | `>=`, `<` and `<=` on `test` and 50 render as `test>=50`, `test<50` and `test<=50` (as also at `:209,250`) |
| Conditions.FixtureTexts | tests/test_strategy_tree.py:33-35 | the fixture conditions render as `age=18`, `status!=inactive` and `score>90` |
| Conditions.FixtureBoundTexts | tests/test_strategy_tree.py:36-42 | the fixture conditions render as `points>=100`, `time<60` and `distance<=5` |
| Conditions.ConditionStrings | src/strategy.py:16 | one rendering per condition, in order |
| Text.IntToString | tests/test_conditions.py:46 | integers render as non-empty text, which is all digits exactly when the integer is non-negative |
| Text.DigitsRoundTrip | src/strategy_tree.py:44 | reading the decimal digits of a natural number gives the number back |
| Text.SplitJoin | tests/test_strategy_tree.py:76 | splitting a joined list on its separator gives the list back, when no part holds the separator's first character |
| Text.StripIndented | tests/test_strategy_tree.py:130-150 | stripping any whitespace before and after a text that neither starts nor ends with whitespace gives the text back |
| Text.StripBlank | tests/test_strategy_tree.py:151 | a line of whitespace only strips to nothing |
| Strategies.ToString | src/strategy.py:15-17 | a rule's text starts with `if (` and ends with `) then ` followed by the value; when there is at least one condition and no condition text holds a space, the text between splits on ` && ` into the conditions' texts, in order |
| Strategies.Equal | src/strategy.py:19-25 | every strategy equals itself, and equal strategies have the same value and the same number of conditions |
| Strategies.StrategyExample | tests/test_strategy.py:149 | the six-condition fixture strategy with value 0.5 renders as `if (age=18 && status!=inactive && score>90 && points>=100 && time<60 && distance<=5) then 0.5` |
| Strategies.RuleListsEachCondition | src/strategy.py:15-17 | the ` && `-joined conditions of a rule split back into the conditions' texts |
| Strategies.EqualIgnoresOrder | src/strategy.py:19-25 | swapping two conditions gives an equal strategy |
| Strategies.EqualSameConditions | src/strategy.py:25 | equal strategies have the same value and the same conditions, each occurring the same number of times |
| Strategies.Prune | src/strategy.py:27-85 | the method computes `Pruned`: nothing on a contradiction, otherwise the reduced conditions with the same value |
| Strategies.GroupByVariable | src/strategy.py:30-36 | the grouping loop fails exactly when some condition contradicts an earlier one on its variable; otherwise it files every condition under its variable, with variables in first-seen order |
| Strategies.ClashStep | src/strategy.py:33-35 | the incremental check (the new condition against those filed under its variable) decides whether the longer prefix has a contradiction |
| Strategies.ClashExtends | src/strategy.py:34-35 | a contradiction in a prefix is a contradiction in the whole list, so returning early is sound |
| Strategies.GroupMembers | src/strategy.py:36 | a variable's group holds exactly the input conditions on that variable |
| Strategies.VariablesMembers | src/strategy.py:30-36 | the variable order lists exactly the variables of the input |
| Strategies.VariablesDistinct | src/strategy.py:42 | no variable is listed twice, so each group is reduced once |
| Strategies.VariablesCoverGroups | src/strategy.py:30-36 | a variable has a non-empty group exactly when it is listed |
| Strategies.ReduceGroup | src/strategy.py:42-80 | the per-variable loop computes `Reduce`: the first Equals alone, or the NotEquals, the kept lower bound and the kept upper bound |
| Strategies.TrackSnoc | src/strategy.py:48-67 | scanning one more condition is one more step of the reduction loop |
| Strategies.TrackStopsAtEquals | src/strategy.py:49-51 | once an Equals is tracked, the rest of the group is not looked at |
| Strategies.TrackFindsFirstEquals | src/strategy.py:48-51 | the tracked Equals is the group's first Equals |
| Strategies.TrackWithoutEquals | src/strategy.py:52-53 | without an Equals, every NotEquals is kept, in input order |
| Strategies.TrackLower | src/strategy.py:54-60 | without an Equals, a lower bound is kept exactly when the group has one. It has the largest bound, and it is `>=` whenever a `>=` has that bound |
| Strategies.TrackUpper | src/strategy.py:61-67 | without an Equals, an upper bound is kept exactly when the group has one. It has the smallest bound, and it is `<=` whenever a `<=` has that bound |
| Strategies.TrackWithin | src/strategy.py:43-67 | everything tracked comes from the group, and the tracked Equals is an Equals |
| Strategies.ReduceWithin | src/strategy.py:71-80 | the reduction keeps only conditions of the group, and at least one of a non-empty group |
| Strategies.ReduceOnVariable | src/strategy.py:42-80 | the reduction of a variable's group mentions only that variable |
| Strategies.ReduceSingle | src/strategy.py:48-80 | a one-condition group reduces to itself, whatever its variant |
| Strategies.SimplifyGroups | src/strategy.py:38-80 | for every variable, the output's conditions on it are the reduction of the input's conditions on it |
| Strategies.SimplifyVariables | src/strategy.py:42 | the output mentions the same variables as the input, in the same first-seen order |
| Strategies.SimplifyWithin | src/strategy.py:71-80 | every output condition occurs in the input |
| Strategies.PrunedKeepsValue | src/strategy.py:82-85 | pruning fails exactly on a contradiction; otherwise it keeps the value and only input conditions |
| Strategies.PruneEqualsPins | src/strategy.py:71-73 | if the input has an Equals on `x`, the output's conditions on `x` are exactly the first such Equals |
| Strategies.PruneKeepsBounds | src/strategy.py:75-80 | without an Equals on `x`, the output's conditions on `x` are its NotEquals in order, then the kept lower bound, then the kept upper bound |
| Strategies.PruneSingle | src/strategy.py:27-85 | a one-condition strategy prunes to itself |
| Strategies.PruneTwoVariables | src/strategy.py:27-85 | two conditions on different variables prune to themselves |
| Strategies.PruneNotIdempotent | src/strategy.py:33-36 | `x<50, x>=50` prunes to `x>=50, x<50`, which then prunes to nothing |
| Strategies.PriceBoundsClash | tests/test_strategy.py:81-87 | `price>100, price<90` prunes to nothing |
| Strategies.RatingBoundsClash | tests/test_strategy.py:123-130 | `rating>=4, rating<3, status=approved` prunes to nothing |
| Strategies.ValueTypeWeight | tests/test_strategy.py:89-105 | `value>50, value>=60, type=premium, weight<=100, weight<150` prunes to `value>=60, type=premium, weight<=100` |
| Strategies.TemperatureBounds | tests/test_strategy.py:132-146 | `temperature>0, >=10, <50, <=45` prunes to `temperature>=10, temperature<=45` |
| Strategies.CategoryNotEqualsDropped | tests/test_strategy.py:107-121 | with the NotEquals cell of `tests/test_conditions.py:66`, `category!=electronics, category!=furniture, status=active` prunes to nothing, where this test expects it kept |
| Trees.NodeBody | tests/test_strategy_tree.py:24 | a leaf's text starts with `leaf=`; a branch's text starts with `[` and ends with a digit (as at `:76`) |
| Trees.Render | tests/test_strategy_tree.py:127 | a well-formed tree's text splits on newlines into exactly its node lines, in pre-order |
| Trees.NodeLines | tests/test_strategy_tree.py:127 | a subtree renders to one line per node, its own line first (pre-order) |
| Trees.NodeLinesTail | tests/test_strategy_tree.py:127 | after a branch's line come its true subtree's lines, then its false subtree's lines, one tab deeper |
| Trees.BodyHasNoNewline | tests/test_strategy_tree.py:76 | the body of a well-formed node is a single line |
| Trees.LinesHaveNoNewline | tests/test_strategy_tree.py:127 | every rendered line of a well-formed tree is a single line |
| Trees.ConditionTextPlain | src/strategy_tree.py:46 | a readable condition's text has no whitespace and no `\|` |
| Trees.LeafLineExample | tests/test_strategy_tree.py:24 | the leaf with payout 0.5 renders as `leaf=0.5` |
| Trees.ConditionNodeExample | tests/test_strategy_tree.py:76 | the five-condition fixture node renders as `[age=18\|\|or\|\|status!=inactive\|\|or\|\|score>90\|\|or\|\|points>=100\|\|or\|\|time<60] yes=1, no=2` |
| TreeParser.DigitPrefix | src/strategy_tree.py:44 | the id read at the start of a line is the longest run of digits there |
| TreeParser.WordPrefix | src/strategy_tree.py:46 | the variable read is the longest run of word characters at the start of the condition |
| TreeParser.DigitSuffix | src/strategy_tree.py:45 | a child id read at the end is the longest run of digits there |
| TreeParser.DropOptionalSpace | src/strategy_tree.py:45 | at most one trailing whitespace character is dropped |
| TreeParser.PickOperator | src/strategy_tree.py:46 | the operator picked is the first one of the list that fits, or none fits |
| TreeParser.TokenizeCondition | src/strategy_tree.py:46 | a tokenized condition is a non-empty word, a listed operator and a non-blank value, which together make up the text |
| TreeParser.ParseValue | tests/test_strategy_tree.py:82-90 | a value is an integer exactly when it is all digits, otherwise a string (`300x600`, `FR:A5`) |
| TreeParser.ParseConditions | tests/test_strategy_tree.py:139 | the conditions of a branch parse exactly when each one does, one per text, in order |
| TreeParser.OperatorTable | src/strategy_tree.py:47-54 | every condition is rebuilt from its variable, its operator token and its value |
| TreeParser.OperatorTableInverse | src/strategy_tree.py:47-54 | a condition built from a token has that token, variable and value |
| TreeParser.ValueRoundTrip | tests/test_strategy_tree.py:82-90 | a rendered value reads back as itself |
| TreeParser.TokenizeRendered | src/strategy_tree.py:46 | a rendered condition tokenizes into its variable, operator and value text |
| TreeParser.ConditionRoundTrip | src/strategy_tree.py:46-54 | with two-character operators tried first, every readable condition parses back from its text, `>=` and `<=` included |
| TreeParser.ConditionsRoundTrip | tests/test_strategy_tree.py:139 | a rendered condition list parses back to itself |
| TreeParser.BranchTailOf | src/strategy_tree.py:45 | `[inner]`, then no or one whitespace character, `yes=<a>,`, no or one whitespace character and `no=<b>`, yields the inner text and both ids |
| TreeParser.RenderedLayout | tests/test_strategy_tree.py:76 | rendering puts one space before `yes=` and one before `no=`, a layout the branch pattern accepts |
| TreeParser.BranchRoundTrip | src/strategy_tree.py:45 | a branch body with no or one whitespace character before `yes=` and before `no=` parses back to its conditions and child ids |
| TreeParser.BodyRoundTrip | src/strategy_tree.py:44-45 | a leaf body, or a branch body in any of those layouts, parses back to its entry |
| TreeParser.LineRoundTrip | tests/test_strategy_tree.py:130-150 | a node's line with any whitespace before and after it, in any of those layouts, strips to `<id>:<body>` and parses back to its id and entry |
| TreeParser.WrittenLineReadsAs | tests/test_strategy_tree.py:130-150 | such a line, whatever its indentation, reads like the node's rendered line at any depth |
| TreeParser.WhitespaceLineBlank | tests/test_strategy_tree.py:151 | a line of whitespace only is dropped before the first pass |
| TreeParser.LoadFromNonBlank | src/strategy_tree.py:59-61 | blank lines do not change what the first pass loads |
| TreeParser.LoadFromReadsAs | src/strategy_tree.py:59-61 | two lists of lines that read alike line by line load the same map |
| TreeParser.LoadRendered | src/strategy_tree.py:59-61 | loading a rendered subtree's lines adds one entry per node |
| TreeParser.UnfoldAgrees | src/strategy_tree.py:59-61 | unfolding from a node's id through a map that agrees with the subtree gives the subtree back |
| TreeParser.Parse | src/strategy_tree.py:59-61 | a parsed tree's root has id 0; a line that does not parse makes the whole text fail with that line's error; otherwise a child id that is not defined gives `DanglingChild`, and a missing id 0 gives `MissingRoot` |
| TreeParser.ParseLoaded | src/strategy_tree.py:59-61 | text whose lines load like a well-formed tree's rendering parses to that tree |
| TreeParser.ParseWritten | tests/test_strategy_tree.py:129-152 | text whose non-blank lines read like a well-formed tree's rendered lines, one for one, parses to that tree: indentation, whitespace-only lines and the spacing before `yes=` and `no=` do not matter |
| TreeParser.ParseSpacedExample | tests/test_strategy_tree.py:130-152 | a three-node tree written in the fixture's layout (no space before `no=`, indentation by spaces, a last line of spaces) parses to that tree |
| TreeParser.Unfold | src/strategy_tree.py:59-61 | an unfolded node has the id it was looked up by |
| TreeParser.ParseTree | src/strategy_tree.py:59-61 | the two-pass method computes `Parse` |
| TreeParser.ParseRender | tests/test_strategy_tree.py:127-152 | a well-formed tree parses back from its rendering |
| TreeParser.RenderInjective | src/strategy_tree.py:70-71 | two well-formed trees with the same rendering are equal |
| TreeParser.SourceOrderPicks | src/strategy_tree.py:46 | with the operators in the pattern's order, `>=` and `<=` are read as `>` and `<` |
| TreeParser.SourceOrderTokenizes | src/strategy_tree.py:46 | with the pattern's order, `x>=5` tokenizes as `x`, `>`, `=5` |
| TreeParser.SourceOrderMisreads | src/strategy_tree.py:46 | with the pattern's order every `>=`/`<=` condition fails to parse; with two-character operators first it parses back as itself |
| Extraction.GetStrategies | src/strategy_tree.py:56-57 | the work-stack method computes `Extract` |
| Extraction.PushChildren | src/strategy_tree.py:56-57 | for each OR-condition left to right, it pushes the true child under the condition, then the false child under its negation |
| Extraction.Extract | src/strategy_tree.py:56-57 | there are no more strategies than root-to-leaf walks, and each one is the pruning of a root-to-leaf path |
| Extraction.WalksArePaths | src/strategy_tree.py:56-57 | the candidates are exactly the root-to-leaf paths: at a branch, one of its conditions to the true child or one negated condition to the false child |
| Extraction.PruneAllMembers | src/strategy_tree.py:56-57 | the kept strategies are exactly the successful prunings of the candidates, and there are no more of them than candidates |
| Extraction.ExtractedExactly | src/strategy_tree.py:56-57 | a strategy is extracted exactly when it is the pruning of some root-to-leaf path |
| Extraction.SimpleTreeWalks | tests/test_strategy_tree.py:159-187 | the two-level example tree has six walks, listed in stack order |
| Extraction.DropsTwoNotEquals | tests/test_strategy_tree.py:174-177 | the walk `browser!=7, browser!=8` is dropped |
| Extraction.KeepsTheEquals | tests/test_strategy_tree.py:166-169 | the walk `browser!=7, browser=8` prunes to `browser=8` |
| Extraction.SimpleTreePruned | tests/test_strategy_tree.py:163-187 | the example tree extracts to exactly five strategies, listed |
| Extraction.SimpleTreeExtraction | tests/test_strategy_tree.py:187 | the five extracted strategies equal the test's five, position by position, under order-insensitive equality |

## Left out

- `StrategyTree.from_file`, `main` and writing the rule file are file I/O. The model starts from the file's text and ends at the list of strategies.
- `tests/conftest.py` and the fixture files it points at are not part of this model.
  - The two-level tree of `tests/test_strategy_tree.py:159-187` is inferred from the expected output: root `device_type=pc||or||browser=7` paying 30, else `browser=8` paying 10 or 20.
  - The 21-node file of `:154-157` is not restated.
- The 21-node text of `tests/test_strategy_tree.py:130-151` is not restated. `TreeParser.ParseSpacedExample` uses its layout on a three-node tree, and `TreeParser.ParseWritten` covers any text in that layout.
- Leaf payouts are kept as the digits-and-dots token they were written with, not as floating-point numbers. `1.0` therefore stays `1.0`, and float rendering and float equality are not modelled.
- The regular expressions are replaced by a hand-written scanner, with `\w` as ASCII letters, digits and `_`, `\d` as ASCII digits, and `\s` as space, tab, carriage return and newline.
  - A branch line is read from the right, which matches the greedy `(.*)` of `src/strategy_tree.py:45`.
  - Unicode classes are not modelled.
- Equality is modelled without Python's hashing. Node and tree `__eq__` become datatype equality, and the `Counter` comparison of strategies becomes multiset equality.
- An ordering condition whose value is not an integer is a `BadCondition` parse error. Python would build the condition with a string value.
- An Equals on a string value never contradicts an ordering condition. Python would raise on comparing a string with an integer.
- The `TypeError` branch of `src/strategy.py:68-69` cannot be reached with six closed variants, so it has no counterpart.
- A child id that is not defined is a `DanglingChild` error. A cycle of child ids is a `Cycle` error. A repeated id lets the later line win.
- TreeParser.ParseRender: stated for well-formed trees only. These have root id 0 and unique ids; variables are words; integers are non-negative; string values are not all digits and hold no whitespace or `|`; payouts are digits and dots. Other trees have renderings that do not read back as themselves.
- Strategies.ToString: the read-back of the conditions is stated only for a non-empty list whose texts hold no space. With no conditions the middle text is empty, and a string value holding a space makes the ` && ` separator ambiguous.
- TreeParser.ParseConditions: it reads every condition text, where Python would stop at the first one that fails; the result is the same.
- The two pruning examples of `tests/test_strategy.py:36-79` each span six variables. They are not restated as lemmas; `PruneEqualsPins`, `PruneKeepsBounds` and `SimplifyVariables` state what they check.

## Findings

| source | as written | input that shows it | evidently intended | confidence | as-written member | corrected member |
|---|---|---|---|---|---|---|
| src/strategy_tree.py:46 | the operator alternation lists `>` and `<` before `>=` and `<=`, so the first alternative that fits wins | `x>=5` is read as variable `x`, operator `>`, value `=5`, and the `>=` condition is lost | try `>=`, `<=` and `!=` before the one-character operators, so every rendered condition reads back as itself | not executed | TreeParser.SourceOrderMisreads | TreeParser.ConditionRoundTrip |
