/**
 The build-time expression evaluator, internal/buildgen/build_data_iteration.go: list and object
 literals, comprehensions, the shared decreasing element budget and the depth limit.  The Go
 expression subset below them (parser.ParseExpr and buildEvalAST) is an arbitrary leaf evaluator
 that sees the text, the scope, the depth and the budget, and may spend budget.
 */
module BuildEval {
  import opened Text
  import opened BuildScanner

  const ITERATION_BUDGET := 50000
  const MAX_DEPTH := 64

  datatype Value =
    | Str(text: string)
    | Num(number: real)
    | Bool(boolean: bool)
    | Nil
    | List(items: seq<Value>)
    | Object(order: seq<string>, fields: map<string, Value>)

  type Vars = map<string, Value>

  /** Source text, scope, depth and budget to a value (None is an error) and the budget left. */
  type Leaf = (string, Vars, nat, int) -> (Option<Value>, int)

  predicate IsLiteralName(s: string) {
    && s != ""
    && (s[0] == '_' || 'A' <= s[0] <= 'Z' || 'a' <= s[0] <= 'z')
    && (forall i | 0 <= i < |s| :: s[i] == '_' || 'A' <= s[i] <= 'Z' || 'a' <= s[i] <= 'z' || '0' <= s[i] <= '9')
  }

  // ------------------------------------------------------------- literal parts

  function TrimAll(parts: seq<string>): seq<string> {
    if parts == [] then [] else [TrimSpace(parts[0])] + TrimAll(parts[1..])
  }

  /** splitLiteralElements: one trailing comma is tolerated, other empty elements are errors. */
  function SplitLiteralElements(inner: string): Option<seq<string>> {
    if TrimSpace(inner) == "" then Some([]) else CheckElements(TrimAll(SplitTop(INIT, inner, ',')))
  }

  function CheckElements(parts: seq<string>): Option<seq<string>> {
    var kept := if parts != [] && parts[|parts| - 1] == "" then parts[..|parts| - 1] else parts;
    if "" in kept then None else Some(kept)
  }

  // ------------------------------------------------------------ comprehensions

  datatype Comprehension = Comprehension(template: string, itemVar: string, indexVar: string, source: string, cond: string)

  /** parseComprehensionVars: an item variable and, optionally, a different index variable. */
  function ParseVars(spec: string): Option<(string, string)> {
    var parts := TrimAll(SplitTop(INIT, spec, ','));
    if |parts| != 1 && |parts| != 2 then None
    else
      var item, index := parts[0], if |parts| == 2 then parts[1] else "";
      if !IsLiteralName(item) || (index != "" && (!IsLiteralName(index) || index == item)) then None
      else Some((item, index))
  }

  /** The text of a comprehension taken apart; None is a syntax error. */
  function ParseComprehension(inner: string): Option<Comprehension> {
    var forIndex := IndexWord(INIT, inner, "for");
    if forIndex < 0 then None
    else ParseBinding(TrimSpace(inner[..forIndex]), TrimSpace(inner[forIndex + 3..]))
  }

  function ParseBinding(template: string, rest: string): Option<Comprehension> {
    var inIndex := IndexWord(INIT, rest, "in");
    if inIndex < 0 then None
    else
      var vars := ParseVars(TrimSpace(rest[..inIndex]));
      if vars.None? then None else ParseSource(template, vars.value, TrimSpace(rest[inIndex + 2..]))
  }

  function ParseSource(template: string, vars: (string, string), remainder: string): Option<Comprehension> {
    var ifIndex := IndexWord(INIT, remainder, "if");
    var source := if ifIndex < 0 then remainder else TrimSpace(remainder[..ifIndex]);
    var cond := if ifIndex < 0 then "" else TrimSpace(remainder[ifIndex + 2..]);
    if template == "" || source == "" then None
    else Some(Comprehension(template, vars.0, vars.1, source, cond))
  }

  /** The scope of one iteration. */
  function Bind(c: Comprehension, scope: Vars, element: Value, index: nat): Vars {
    var bound := scope[c.itemVar := element];
    if c.indexVar == "" then bound else bound[c.indexVar := Num(index as real)]
  }

  /** The name and value texts of an object field; None is a syntax error. */
  function ParseField(element: string): Option<(string, string)> {
    var colon := IndexByte(INIT, element, ':');
    if colon < 0 then None
    else
      var name, value := TrimSpace(element[..colon]), TrimSpace(element[colon + 1..]);
      if !IsLiteralName(name) || value == "" then None else Some((name, value))
  }

  function ParseFields(elements: seq<string>): seq<Option<(string, string)>> {
    if elements == [] then [] else [ParseField(elements[0])] + ParseFields(elements[1..])
  }

  // ---------------------------------------------------------------- expressions

  /** What a text is recognised as before anything is evaluated. */
  datatype Syntax =
    | Malformed
    | ListSyntax(elements: seq<string>)
    | ObjectSyntax(fields: seq<Option<(string, string)>>)
    | ComprehensionSyntax(comprehension: Comprehension)
    | LeafSyntax(source: string)

  predicate Bracketed(s: string, open: char, close: char) {
    |s| >= 2 && s[0] == open && s[|s| - 1] == close
  }

  /** The recognition part of buildEvalExprString. */
  function Parse(text: string): Syntax {
    ParseTrimmed(TrimSpace(text))
  }

  function ParseTrimmed(source: string): Syntax {
    if source == "" then Malformed
    else if Bracketed(source, '[', ']') then ParseBrackets(source[1..|source| - 1])
    else if Bracketed(source, '{', '}') then
      var elements := SplitLiteralElements(source[1..|source| - 1]);
      if elements.None? then Malformed else ObjectSyntax(ParseFields(elements.value))
    else LeafSyntax(source)
  }

  function ParseBrackets(inner: string): Syntax {
    if IndexWord(INIT, inner, "for") >= 0 then
      var c := ParseComprehension(inner);
      if c.None? then Malformed else ComprehensionSyntax(c.value)
    else
      var elements := SplitLiteralElements(inner);
      if elements.None? then Malformed else ListSyntax(elements.value)
  }

  /**
   A parser and a leaf evaluator.  The program's parser is Parse; what is said about budgets and
   meaning holds for any.
   */
  datatype Lang = Lang(parse: string -> Syntax, leaf: Leaf)

  // ---------------------------------------------------------------- evaluation

  /** A value or an error, the budget left, and how many calls of the evaluator it took. */
  datatype Outcome = Outcome(result: Option<Value>, budget: int, calls: nat)

  /** A loop in progress; once it fails it stays as it is. */
  datatype Loop = Loop(ok: bool, items: seq<Value>, budget: int, calls: nat)

  datatype FieldLoop = FieldLoop(ok: bool, order: seq<string>, fields: Vars, budget: int, calls: nat)

  function Rank(depth: nat): nat {
    if depth <= MAX_DEPTH then MAX_DEPTH + 1 - depth else 0
  }

  /** buildEvalExprString. */
  function Eval(lang: Lang, text: string, scope: Vars, depth: nat, budget: int): Outcome
    decreases Rank(depth), 2, 0
  {
    if depth > MAX_DEPTH then Outcome(None, budget, 1)
    else
      match lang.parse(text)
      case Malformed => Outcome(None, budget, 1)
      case ListSyntax(elements) => ListOutcome(EvalElements(lang, elements, scope, depth, Loop(true, [], budget, 1)))
      case ObjectSyntax(fields) => ObjectOutcome(EvalFields(lang, fields, scope, depth, FieldLoop(true, [], map[], budget, 1)))
      case ComprehensionSyntax(c) => EvalComprehension(lang, c, scope, depth, budget)
      case LeafSyntax(source) =>
        var (r, b) := lang.leaf(source, scope, depth, budget);
        Outcome(r, b, 1)
  }

  function ObjectOutcome(end: FieldLoop): Outcome {
    Outcome(if end.ok then Some(Object(end.order, end.fields)) else None, end.budget, end.calls)
  }

  function ListOutcome(end: Loop): Outcome {
    Outcome(if end.ok then Some(List(end.items)) else None, end.budget, end.calls)
  }

  /** The loop of buildEvalListLiteral: pay for an element, then evaluate it one level deeper. */
  function EvalElements(lang: Lang, elements: seq<string>, scope: Vars, depth: nat, acc: Loop): Loop
    requires depth <= MAX_DEPTH
    decreases Rank(depth), 0, |elements|
  {
    if elements == [] || !acc.ok then acc
    else if acc.budget < 1 then acc.(ok := false, budget := acc.budget - 1)
    else
      var o := Eval(lang, elements[0], scope, depth + 1, acc.budget - 1);
      EvalElements(lang, elements[1..], scope, depth, After(acc, o))
  }

  /** The loop state after one more evaluated element. */
  function After(acc: Loop, o: Outcome): Loop {
    if o.result.None? then acc.(ok := false, budget := o.budget, calls := acc.calls + o.calls)
    else Loop(true, acc.items + [o.result.value], o.budget, acc.calls + o.calls)
  }

  /** The loop of buildEvalObjectLiteral; field errors and duplicates come before the payment. */
  function EvalFields(lang: Lang, elements: seq<Option<(string, string)>>, scope: Vars, depth: nat, acc: FieldLoop): FieldLoop
    requires depth <= MAX_DEPTH
    decreases Rank(depth), 0, |elements|
  {
    if elements == [] || !acc.ok then acc
    else
      var field := elements[0];
      if field.None? || field.value.0 in acc.fields then acc.(ok := false)
      else if acc.budget < 1 then acc.(ok := false, budget := acc.budget - 1)
      else
        var o := Eval(lang, field.value.1, scope, depth + 1, acc.budget - 1);
        EvalFields(lang, elements[1..], scope, depth, AfterField(acc, field.value.0, o))
  }

  function AfterField(acc: FieldLoop, name: string, o: Outcome): FieldLoop {
    if o.result.None? then acc.(ok := false, budget := o.budget, calls := acc.calls + o.calls)
    else FieldLoop(true, acc.order + [name], acc.fields[name := o.result.value], o.budget, acc.calls + o.calls)
  }

  /** buildEvalComprehension, on the parsed text. */
  function EvalComprehension(lang: Lang, c: Comprehension, scope: Vars, depth: nat, budget: int): Outcome
    requires depth <= MAX_DEPTH
    decreases Rank(depth), 1, 0
  {
    var source := Eval(lang, c.source, scope, depth + 1, budget);
    if source.result.None? || !source.result.value.List? then Outcome(None, source.budget, source.calls + 1)
    else ListOutcome(Iterate(lang, c, source.result.value.items, 0, scope, depth, Loop(true, [], source.budget, source.calls + 1)))
  }

  /** One iteration: pay, bind, filter, map. */
  function Iteration(lang: Lang, c: Comprehension, element: Value, index: nat, scope: Vars, depth: nat, acc: Loop): Loop
    requires depth <= MAX_DEPTH
    decreases Rank(depth), 0, 1
  {
    if acc.budget < 1 then acc.(ok := false, budget := acc.budget - 1)
    else if c.cond == "" then
      After(acc, Eval(lang, c.template, Bind(c, scope, element, index), depth + 1, acc.budget - 1))
    else FilteredIteration(lang, c, Bind(c, scope, element, index), depth, acc)
  }

  function FilteredIteration(lang: Lang, c: Comprehension, bound: Vars, depth: nat, acc: Loop): Loop
    requires depth <= MAX_DEPTH
    decreases Rank(depth), 0, 0
  {
    var keep := Eval(lang, c.cond, bound, depth + 1, acc.budget - 1);
    if Keeps(keep) then After(Filtered(acc, keep), Eval(lang, c.template, bound, depth + 1, keep.budget)) else Filtered(acc, keep)
  }

  /** The filter is a boolean and holds. */
  predicate Keeps(keep: Outcome) {
    keep.result.Some? && keep.result.value.Bool? && keep.result.value.boolean
  }

  /** The loop state once the filter has been evaluated; a filter that is not a boolean is an error. */
  function Filtered(acc: Loop, keep: Outcome): Loop {
    Loop(acc.ok && keep.result.Some? && keep.result.value.Bool?, acc.items, keep.budget, acc.calls + keep.calls)
  }

  /** The loop of buildEvalComprehension over the remaining elements, the first of which has the given index. */
  function Iterate(lang: Lang, c: Comprehension, items: seq<Value>, index: nat, scope: Vars, depth: nat, acc: Loop): Loop
    requires depth <= MAX_DEPTH
    decreases Rank(depth), 0, |items| + 2
  {
    if items == [] || !acc.ok then acc
    else Iterate(lang, c, items[1..], index + 1, scope, depth, Iteration(lang, c, items[0], index, scope, depth, acc))
  }

  // ----------------------------------------------------------------- work bound

  /** The leaf evaluator only spends budget, and fails when it overspends. */
  ghost predicate Thrifty(leaf: Leaf) {
    forall text, scope, depth, b: int ::
      leaf(text, scope, depth, b).1 <= b && (b >= 0 && leaf(text, scope, depth, b).0.Some? ==> leaf(text, scope, depth, b).1 >= 0)
  }

  /** Budget that was really there and is gone: what was overdrawn does not count. */
  function Spent(before: nat, after: int): nat
    requires after <= before
  {
    if after < 0 then before else before - after
  }

  lemma SpentChain(a: nat, b: int, c: int)
    requires c <= b <= a && b >= 0
    ensures Spent(a, c) == Spent(a, b) + Spent(b, c)
  {
  }

  /** levels * (1 + 2 * spent): the bound for one call with so many levels left below the limit. */
  function Bound(levels: nat, spent: nat): nat {
    levels * (1 + 2 * spent)
  }

  lemma BoundSum(levels: nat, a: nat, b: nat)
    ensures Bound(levels, a) + levels * (2 * b) == Bound(levels, a + b)
    ensures Bound(levels, a) <= levels * (2 * (1 + a))
    ensures levels * (2 * a) + levels * (2 * b) == levels * (2 * (a + b))
  {
    assert levels * (1 + 2 * a) + levels * (2 * b) == levels * (1 + 2 * a + 2 * b);
    assert levels * (2 * (1 + a)) == levels * (1 + 2 * a) + levels;
  }

  lemma BoundNext(levels: nat, a: nat)
    ensures 1 + Bound(levels, a) <= Bound(levels + 1, a)
    ensures 1 + levels * (2 * a) <= Bound(levels + 1, a)
  {
    assert (levels + 1) * (1 + 2 * a) == levels * (1 + 2 * a) + (1 + 2 * a);
    assert levels * (1 + 2 * a) == levels + levels * (2 * a);
  }

  /** What is claimed of one call: it never earns budget, succeeds only within it, and stays below the bound. */
  ghost predicate Bounded(o: Outcome, depth: nat, budget: nat)
    requires depth <= MAX_DEPTH + 1
  {
    && o.budget <= budget
    && (o.result.Some? ==> o.budget >= 0)
    && o.calls <= Bound(MAX_DEPTH + 2 - depth, Spent(budget, o.budget))
  }

  /** And of a loop at a given depth: two calls per element paid for, at most. */
  ghost predicate LoopBounded(depth: nat, budget: nat, calls: nat, ok: bool, budget': int, calls': nat)
    requires depth <= MAX_DEPTH
  {
    && budget' <= budget
    && (ok ==> budget' >= 0)
    && calls' <= calls + (MAX_DEPTH + 1 - depth) * (2 * Spent(budget, budget'))
  }

  lemma LoopChain(depth: nat, b0: nat, c0: nat, b1: int, c1: nat, ok2: bool, b2: int, c2: nat)
    requires depth <= MAX_DEPTH && LoopBounded(depth, b0, c0, true, b1, c1) && LoopBounded(depth, b1, c1, ok2, b2, c2)
    ensures LoopBounded(depth, b0, c0, ok2, b2, c2)
  {
    SpentChain(b0, b1, b2);
    BoundSum(MAX_DEPTH + 1 - depth, Spent(b0, b1), Spent(b1, b2));
  }

  /** Paying for an element and evaluating one expression for it. */
  lemma PaidCall(depth: nat, budget: nat, calls: nat, o: Outcome)
    requires depth <= MAX_DEPTH && budget >= 1 && Bounded(o, depth + 1, budget - 1)
    ensures LoopBounded(depth, budget, calls, o.result.Some?, o.budget, calls + o.calls)
  {
    BoundSum(MAX_DEPTH + 1 - depth, Spent(budget - 1, o.budget), 0);
  }

  /** Paying once for a filter and a template. */
  lemma PaidTwoCalls(depth: nat, budget: nat, calls: nat, keep: Outcome, o: Outcome)
    requires depth <= MAX_DEPTH && budget >= 1
    requires Bounded(keep, depth + 1, budget - 1) && keep.result.Some? && Bounded(o, depth + 1, keep.budget)
    ensures LoopBounded(depth, budget, calls, o.result.Some?, o.budget, calls + keep.calls + o.calls)
  {
    var levels := MAX_DEPTH + 1 - depth;
    var s1, s2 := Spent(budget - 1, keep.budget), Spent(keep.budget, o.budget);
    SpentChain(budget - 1, keep.budget, o.budget);
    assert levels * (1 + 2 * s1) + levels * (1 + 2 * s2) == levels * (2 * (1 + s1 + s2));
  }

  lemma LoopIntoCall(depth: nat, budget: nat, end: Loop, before: nat)
    requires depth <= MAX_DEPTH && LoopBounded(depth, budget, before, end.ok, end.budget, end.calls) && before == 1
    ensures Bounded(ListOutcome(end), depth, budget)
  {
    BoundNext(MAX_DEPTH + 1 - depth, Spent(budget, end.budget));
  }

  lemma {:induction false} EvalWork(lang: Lang, text: string, scope: Vars, depth: nat, budget: nat)
    requires Thrifty(lang.leaf) && depth <= MAX_DEPTH + 1
    ensures Bounded(Eval(lang, text, scope, depth, budget), depth, budget)
    decreases Rank(depth), 2, 0
  {
    BoundNext(MAX_DEPTH + 1 - depth, 0);
    if depth <= MAX_DEPTH {
      match lang.parse(text)
      case Malformed =>
      case ListSyntax(elements) =>
        ElementsWork(lang, elements, scope, depth, Loop(true, [], budget, 1));
        LoopIntoCall(depth, budget, EvalElements(lang, elements, scope, depth, Loop(true, [], budget, 1)), 1);
      case ObjectSyntax(fields) =>
        FieldsWork(lang, fields, scope, depth, FieldLoop(true, [], map[], budget, 1));
        var end := EvalFields(lang, fields, scope, depth, FieldLoop(true, [], map[], budget, 1));
        BoundNext(MAX_DEPTH + 1 - depth, Spent(budget, end.budget));
      case ComprehensionSyntax(c) =>
        ComprehensionWork(lang, c, scope, depth, budget);
      case LeafSyntax(source) =>
        var (r, b) := lang.leaf(source, scope, depth, budget);
        BoundNext(MAX_DEPTH + 1 - depth, Spent(budget, b));
    }
  }

  lemma {:induction false} ElementsWork(lang: Lang, elements: seq<string>, scope: Vars, depth: nat, acc: Loop)
    requires Thrifty(lang.leaf) && depth <= MAX_DEPTH && acc.ok && acc.budget >= 0
    ensures var end := EvalElements(lang, elements, scope, depth, acc);
            LoopBounded(depth, acc.budget, acc.calls, end.ok, end.budget, end.calls)
    decreases Rank(depth), 0, |elements|
  {
    if elements != [] && acc.budget >= 1 {
      EvalWork(lang, elements[0], scope, depth + 1, acc.budget - 1);
      var o := Eval(lang, elements[0], scope, depth + 1, acc.budget - 1);
      PaidCall(depth, acc.budget, acc.calls, o);
      if o.result.Some? {
        var next := After(acc, o);
        ElementsWork(lang, elements[1..], scope, depth, next);
        var end := EvalElements(lang, elements[1..], scope, depth, next);
        LoopChain(depth, acc.budget, acc.calls, next.budget, next.calls, end.ok, end.budget, end.calls);
      }
    }
  }

  lemma {:induction false} FieldsWork(lang: Lang, elements: seq<Option<(string, string)>>, scope: Vars, depth: nat, acc: FieldLoop)
    requires Thrifty(lang.leaf) && depth <= MAX_DEPTH && acc.ok && acc.budget >= 0
    ensures var end := EvalFields(lang, elements, scope, depth, acc);
            LoopBounded(depth, acc.budget, acc.calls, end.ok, end.budget, end.calls)
    decreases Rank(depth), 0, |elements|
  {
    if elements != [] && acc.budget >= 1 {
      var field := elements[0];
      if field.Some? && field.value.0 !in acc.fields {
        EvalWork(lang, field.value.1, scope, depth + 1, acc.budget - 1);
        var o := Eval(lang, field.value.1, scope, depth + 1, acc.budget - 1);
        PaidCall(depth, acc.budget, acc.calls, o);
        if o.result.Some? {
          var next := AfterField(acc, field.value.0, o);
          FieldsWork(lang, elements[1..], scope, depth, next);
          var end := EvalFields(lang, elements[1..], scope, depth, next);
          LoopChain(depth, acc.budget, acc.calls, next.budget, next.calls, end.ok, end.budget, end.calls);
        }
      }
    }
  }

  lemma {:induction false} IterationWork(lang: Lang, c: Comprehension, element: Value, index: nat, scope: Vars, depth: nat, acc: Loop)
    requires Thrifty(lang.leaf) && depth <= MAX_DEPTH && acc.ok && acc.budget >= 0
    ensures var next := Iteration(lang, c, element, index, scope, depth, acc);
            LoopBounded(depth, acc.budget, acc.calls, next.ok, next.budget, next.calls)
    decreases Rank(depth), 0, 2
  {
    var bound := Bind(c, scope, element, index);
    if acc.budget < 1 {
    } else if c.cond == "" {
      EvalWork(lang, c.template, bound, depth + 1, acc.budget - 1);
      PaidCall(depth, acc.budget, acc.calls, Eval(lang, c.template, bound, depth + 1, acc.budget - 1));
    } else {
      FilteredIterationWork(lang, c, bound, depth, acc);
    }
  }

  lemma {:induction false} FilteredIterationWork(lang: Lang, c: Comprehension, bound: Vars, depth: nat, acc: Loop)
    requires Thrifty(lang.leaf) && depth <= MAX_DEPTH && acc.ok && acc.budget >= 1
    ensures var next := FilteredIteration(lang, c, bound, depth, acc);
            LoopBounded(depth, acc.budget, acc.calls, next.ok, next.budget, next.calls)
    decreases Rank(depth), 0, 1
  {
    FilteredWork(lang, c, bound, depth, acc.budget, acc.calls);
  }

  /** The filter's call, alone and together with the template's. */
  lemma {:induction false} FilteredWork(lang: Lang, c: Comprehension, bound: Vars, depth: nat, budget: nat, calls: nat)
    requires Thrifty(lang.leaf) && depth <= MAX_DEPTH && budget >= 1
    ensures var keep := Eval(lang, c.cond, bound, depth + 1, budget - 1);
            && LoopBounded(depth, budget, calls, keep.result.Some?, keep.budget, calls + keep.calls)
            && (keep.result.Some? ==>
                var o := Eval(lang, c.template, bound, depth + 1, keep.budget);
                LoopBounded(depth, budget, calls, o.result.Some?, o.budget, calls + keep.calls + o.calls))
    decreases Rank(depth), 0, 0
  {
    EvalWork(lang, c.cond, bound, depth + 1, budget - 1);
    var keep := Eval(lang, c.cond, bound, depth + 1, budget - 1);
    PaidCall(depth, budget, calls, keep);
    if keep.result.Some? {
      EvalWork(lang, c.template, bound, depth + 1, keep.budget);
      PaidTwoCalls(depth, budget, calls, keep, Eval(lang, c.template, bound, depth + 1, keep.budget));
    }
  }

  lemma {:induction false} IterateWork(lang: Lang, c: Comprehension, items: seq<Value>, index: nat, scope: Vars, depth: nat, acc: Loop)
    requires Thrifty(lang.leaf) && depth <= MAX_DEPTH && acc.ok && acc.budget >= 0
    ensures var end := Iterate(lang, c, items, index, scope, depth, acc);
            LoopBounded(depth, acc.budget, acc.calls, end.ok, end.budget, end.calls)
    decreases Rank(depth), 0, |items| + 3
  {
    if items != [] {
      IterationWork(lang, c, items[0], index, scope, depth, acc);
      var next := Iteration(lang, c, items[0], index, scope, depth, acc);
      if next.ok {
        IterateWork(lang, c, items[1..], index + 1, scope, depth, next);
        var end := Iterate(lang, c, items[1..], index + 1, scope, depth, next);
        LoopChain(depth, acc.budget, acc.calls, next.budget, next.calls, end.ok, end.budget, end.calls);
      }
    }
  }

  lemma {:induction false} ComprehensionWork(lang: Lang, c: Comprehension, scope: Vars, depth: nat, budget: nat)
    requires Thrifty(lang.leaf) && depth <= MAX_DEPTH
    ensures Bounded(EvalComprehension(lang, c, scope, depth, budget), depth, budget)
    decreases Rank(depth), 1, 0
  {
    EvalWork(lang, c.source, scope, depth + 1, budget);
    var source := Eval(lang, c.source, scope, depth + 1, budget);
    var levels := MAX_DEPTH + 1 - depth;
    BoundNext(levels, Spent(budget, source.budget));
    if source.result.Some? && source.result.value.List? {
      var start := Loop(true, [], source.budget, source.calls + 1);
      IterateWork(lang, c, source.result.value.items, 0, scope, depth, start);
      var end := Iterate(lang, c, source.result.value.items, 0, scope, depth, start);
      SpentChain(budget, source.budget, end.budget);
      BoundSum(levels, Spent(budget, source.budget), Spent(source.budget, end.budget));
      BoundNext(levels, Spent(budget, end.budget));
    }
  }

  /**
   The work bound: evaluating any text from the top, with any leaf evaluator that respects the
   budget, makes at most 66 * (1 + 2c) evaluator calls, where c is the budget consumed as far as
   it was available; no element is evaluated on overdrawn budget.
   */
  lemma WorkBound(lang: Lang, text: string, scope: Vars, budget: nat)
    requires Thrifty(lang.leaf)
    ensures var o := Eval(lang, text, scope, 0, budget);
            && o.budget <= budget
            && o.calls <= 66 * (1 + 2 * (budget - o.budget))
            && o.calls <= 66 * (1 + 2 * budget)
            && (o.result.Some? ==> o.budget >= 0)
  {
    EvalWork(lang, text, scope, 0, budget);
  }
}
