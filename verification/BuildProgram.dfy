/**
 The evaluator of internal/buildgen/build_data_iteration.go as it runs: environments that share
 one mutable budget, scopes filled in place, loops that append.  Every method computes what the
 functions of BuildEval say and changes nothing but the budget, so loop variables never reach the
 parent scope or a sibling iteration.
 */
module BuildProgram {
  import opened Text
  import opened BuildScanner
  import opened BuildEval

  class Budget {
    var left: int

    constructor (left: int)
      ensures this.left == left
    {
      this.left := left;
    }
  }

  class Scope {
    var vars: Vars

    constructor (vars: Vars)
      ensures this.vars == vars
    {
      this.vars := vars;
    }
  }

  /** buildEnv; the route parameters and the build data are part of the leaf evaluator. */
  class BuildEnv {
    const scope: Scope
    const budget: Budget
    const depth: nat

    constructor (scope: Scope, budget: Budget, depth: nat)
      ensures this.scope == scope && this.budget == budget && this.depth == depth
    {
      this.scope, this.budget, this.depth := scope, budget, depth;
    }

    /** A nested environment with a copy of the scope and the same budget. */
    method Child() returns (env: BuildEnv)
      ensures fresh(env) && fresh(env.scope) && env.scope.vars == scope.vars
      ensures env.budget == budget && env.depth == depth + 1
    {
      var copied := new Scope(scope.vars);
      env := new BuildEnv(copied, budget, depth + 1);
    }

    /** A nested environment that shares the scope and the budget. */
    method Deeper() returns (env: BuildEnv)
      ensures fresh(env) && env.scope == scope && env.budget == budget && env.depth == depth + 1
    {
      env := new BuildEnv(scope, budget, depth + 1);
    }

    method Consume(count: nat) returns (ok: bool)
      modifies budget
      ensures budget.left == old(budget.left) - count
      ensures ok <==> budget.left >= 0
    {
      budget.left := budget.left - count;
      ok := budget.left >= 0;
    }
  }

  /** The language of the program: its own parser over some leaf evaluator. */
  ghost predicate Understands(lang: Lang, leaf: Leaf) {
    lang.leaf == leaf && forall text {:trigger Parse(text)} :: lang.parse(text) == Parse(text)
  }

  // ------------------------------------------------------------------- parsing

  lemma {:induction false} TrimAllAt(parts: seq<string>)
    ensures |TrimAll(parts)| == |parts|
    ensures forall i | 0 <= i < |parts| :: TrimAll(parts)[i] == TrimSpace(parts[i])
  {
    if parts != [] {
      TrimAllAt(parts[1..]);
    }
  }

  method SplitElements(inner: string) returns (result: Option<seq<string>>)
    ensures result == SplitLiteralElements(inner)
  {
    if TrimSpace(inner) == "" {
      return Some([]);
    }
    var parts := SplitTopLevel(inner, ',');
    TrimAllAt(parts);
    result := TrimElements(parts, TrimAll(parts));
  }

  method TrimElements(split: seq<string>, ghost trimmed: seq<string>) returns (result: Option<seq<string>>)
    requires split != [] && |trimmed| == |split| && forall i | 0 <= i < |split| :: trimmed[i] == TrimSpace(split[i])
    ensures result == CheckElements(trimmed)
  {
    var parts := split;
    if TrimSpace(parts[|parts| - 1]) == "" {
      parts := parts[..|parts| - 1];
    }
    var elements: seq<string> := [];
    for i := 0 to |parts|
      invariant elements == trimmed[..i] && "" !in elements
    {
      var part := TrimSpace(parts[i]);
      if part == "" {
        assert trimmed[i] == "" && trimmed[..|parts|][i] == "";
        assert trimmed[..|trimmed|] == trimmed;
        return None;
      }
      elements := elements + [part];
    }
    assert trimmed[..|trimmed|] == trimmed;
    result := Some(elements);
  }

  method ParseComprehensionVars(spec: string) returns (vars: Option<(string, string)>)
    ensures vars == ParseVars(spec)
  {
    var parts := SplitTopLevel(spec, ',');
    TrimAllAt(parts);
    var item, index := "", "";
    if |parts| == 1 {
      item := TrimSpace(parts[0]);
    } else if |parts| == 2 {
      item, index := TrimSpace(parts[0]), TrimSpace(parts[1]);
    } else {
      return None;
    }
    if !IsLiteralName(item) {
      return None;
    }
    if index != "" && (!IsLiteralName(index) || index == item) {
      return None;
    }
    vars := Some((item, index));
  }

  method ParseComprehensionText(inner: string) returns (c: Option<Comprehension>)
    ensures c == ParseComprehension(inner)
  {
    var forIndex := IndexTopLevelWord(inner, "for");
    if forIndex < 0 {
      return None;
    }
    c := ParseBindingText(TrimSpace(inner[..forIndex]), TrimSpace(inner[forIndex + 3..]));
  }

  method ParseBindingText(template: string, rest: string) returns (c: Option<Comprehension>)
    ensures c == ParseBinding(template, rest)
  {
    var inIndex := IndexTopLevelWord(rest, "in");
    if inIndex < 0 {
      return None;
    }
    var vars := ParseComprehensionVars(TrimSpace(rest[..inIndex]));
    if vars.None? {
      return None;
    }
    c := ParseSourceText(template, vars.value, TrimSpace(rest[inIndex + 2..]));
  }

  method ParseSourceText(template: string, vars: (string, string), remainder: string) returns (c: Option<Comprehension>)
    ensures c == ParseSource(template, vars, remainder)
  {
    var source, cond := remainder, "";
    var ifIndex := IndexTopLevelWord(remainder, "if");
    if ifIndex >= 0 {
      source := TrimSpace(remainder[..ifIndex]);
      cond := TrimSpace(remainder[ifIndex + 2..]);
    }
    if template == "" || source == "" {
      return None;
    }
    c := Some(Comprehension(template, vars.0, vars.1, source, cond));
  }

  method ParseObjectField(element: string) returns (field: Option<(string, string)>)
    ensures field == ParseField(element)
  {
    var colon := IndexTopLevelByte(element, ':');
    if colon < 0 {
      return None;
    }
    var name := TrimSpace(element[..colon]);
    var value := TrimSpace(element[colon + 1..]);
    if !IsLiteralName(name) || value == "" {
      return None;
    }
    field := Some((name, value));
  }

  // ---------------------------------------------------------------- evaluation

  /** buildEvalExprString; the ghost result counts the calls of this method. */
  method EvalExprString(ghost lang: Lang, leaf: Leaf, text: string, env: BuildEnv) returns (result: Option<Value>, ghost calls: nat)
    requires Understands(lang, leaf)
    modifies env.budget
    ensures Outcome(result, env.budget.left, calls) == Eval(lang, text, env.scope.vars, env.depth, old(env.budget.left))
    decreases Rank(env.depth), 3
  {
    if env.depth > MAX_DEPTH {
      return None, 1;
    }
    assert lang.parse(text) == Parse(text);
    result, calls := EvalTrimmed(lang, leaf, TrimSpace(text), lang.parse(text), env);
  }

  /** What the evaluation of a recognised text amounts to. */
  ghost function EvalSyntax(lang: Lang, syntax: Syntax, scope: Vars, depth: nat, budget: int): Outcome
    requires depth <= MAX_DEPTH
  {
    match syntax
    case Malformed => Outcome(None, budget, 1)
    case ListSyntax(elements) => ListOutcome(EvalElements(lang, elements, scope, depth, Loop(true, [], budget, 1)))
    case ObjectSyntax(fields) => ObjectOutcome(EvalFields(lang, fields, scope, depth, FieldLoop(true, [], map[], budget, 1)))
    case ComprehensionSyntax(c) => EvalComprehension(lang, c, scope, depth, budget)
    case LeafSyntax(source) => Outcome(lang.leaf(source, scope, depth, budget).0, lang.leaf(source, scope, depth, budget).1, 1)
  }

  method EvalTrimmed(ghost lang: Lang, leaf: Leaf, source: string, ghost syntax: Syntax, env: BuildEnv)
    returns (result: Option<Value>, ghost calls: nat)
    requires Understands(lang, leaf) && env.depth <= MAX_DEPTH && syntax == ParseTrimmed(source)
    modifies env.budget
    ensures Outcome(result, env.budget.left, calls) == EvalSyntax(lang, syntax, env.scope.vars, env.depth, old(env.budget.left))
    decreases Rank(env.depth), 2
  {
    if source == "" {
      return None, 1;
    }
    if Bracketed(source, '[', ']') {
      var inner := source[1..|source| - 1];
      var forIndex := IndexTopLevelWord(inner, "for");
      if forIndex >= 0 {
        var c := ParseComprehensionText(inner);
        if c.None? {
          return None, 1;
        }
        result, calls := EvalParsedComprehension(lang, leaf, c.value, env);
      } else {
        var elements := SplitElements(inner);
        if elements.None? {
          return None, 1;
        }
        result, calls := EvalListLiteral(lang, leaf, elements.value, env);
      }
    } else if Bracketed(source, '{', '}') {
      var elements := SplitElements(source[1..|source| - 1]);
      if elements.None? {
        return None, 1;
      }
      result, calls := EvalObjectLiteral(lang, leaf, elements.value, ParseFields(elements.value), env);
    } else {
      var (value, left) := leaf(source, env.scope.vars, env.depth, env.budget.left);
      env.budget.left := left;
      result, calls := value, 1;
    }
  }

  /** buildEvalListLiteral after the split: pay, evaluate one level deeper, append. */
  method EvalListLiteral(ghost lang: Lang, leaf: Leaf, elements: seq<string>, env: BuildEnv) returns (result: Option<Value>, ghost calls: nat)
    requires Understands(lang, leaf) && env.depth <= MAX_DEPTH
    modifies env.budget
    ensures Outcome(result, env.budget.left, calls)
            == ListOutcome(EvalElements(lang, elements, env.scope.vars, env.depth, Loop(true, [], old(env.budget.left), 1)))
    decreases Rank(env.depth), 1
  {
    calls := 1;
    ghost var vars := env.scope.vars;
    ghost var end := EvalElements(lang, elements, vars, env.depth, Loop(true, [], env.budget.left, 1));
    var items: seq<Value> := [];
    assert elements[0..] == elements;
    for i := 0 to |elements|
      invariant end == EvalElements(lang, elements[i..], vars, env.depth, Loop(true, items, env.budget.left, calls))
    {
      assert elements[i..][1..] == elements[i + 1..];
      var paid := env.Consume(1);
      if !paid {
        return None, calls;
      }
      var deeper := env.Deeper();
      var value, spent := EvalExprString(lang, leaf, elements[i], deeper);
      calls := calls + spent;
      if value.None? {
        return None, calls;
      }
      items := items + [value.value];
    }
    result := Some(List(items));
  }

  lemma {:induction false} ParseFieldsAt(elements: seq<string>)
    ensures |ParseFields(elements)| == |elements|
    ensures forall i | 0 <= i < |elements| :: ParseFields(elements)[i] == ParseField(elements[i])
  {
    if elements != [] {
      ParseFieldsAt(elements[1..]);
    }
  }

  /** buildEvalObjectLiteral after the split: each field is taken apart when the loop reaches it. */
  method EvalObjectLiteral(ghost lang: Lang, leaf: Leaf, elements: seq<string>, ghost parsed: seq<Option<(string, string)>>, env: BuildEnv)
    returns (result: Option<Value>, ghost calls: nat)
    requires Understands(lang, leaf) && env.depth <= MAX_DEPTH && parsed == ParseFields(elements)
    modifies env.budget
    ensures Outcome(result, env.budget.left, calls)
            == ObjectOutcome(EvalFields(lang, parsed, env.scope.vars, env.depth, FieldLoop(true, [], map[], old(env.budget.left), 1)))
    decreases Rank(env.depth), 1
  {
    calls := 1;
    ParseFieldsAt(elements);
    ghost var vars := env.scope.vars;
    ghost var end := EvalFields(lang, parsed, vars, env.depth, FieldLoop(true, [], map[], env.budget.left, 1));
    var order: seq<string> := [];
    var fields: Vars := map[];
    assert parsed[0..] == parsed;
    for i := 0 to |elements|
      invariant end == EvalFields(lang, parsed[i..], vars, env.depth, FieldLoop(true, order, fields, env.budget.left, calls))
    {
      FieldByField(lang, parsed[i..], vars, env.depth, FieldLoop(true, order, fields, env.budget.left, calls));
      assert parsed[i..][1..] == parsed[i + 1..];
      var field := ParseObjectField(elements[i]);
      var ok;
      order, fields, ok, calls := EvalField(lang, leaf, field, env, order, fields, calls);
      if !ok {
        return None, calls;
      }
    }
    result := Some(Object(order, fields));
  }

  lemma FieldByField(lang: Lang, elements: seq<Option<(string, string)>>, scope: Vars, depth: nat, acc: FieldLoop)
    requires depth <= MAX_DEPTH && elements != []
    ensures EvalFields(lang, elements, scope, depth, acc)
            == EvalFields(lang, elements[1..], scope, depth, EvalFields(lang, [elements[0]], scope, depth, acc))
  {
    assert [elements[0]][1..] == [];
  }

  /** One field: reject a malformed or repeated one, pay, evaluate, record. */
  method EvalField(ghost lang: Lang, leaf: Leaf, field: Option<(string, string)>, env: BuildEnv, order: seq<string>, fields: Vars, ghost before: nat)
    returns (order': seq<string>, fields': Vars, ok: bool, ghost calls: nat)
    requires Understands(lang, leaf) && env.depth <= MAX_DEPTH
    modifies env.budget
    ensures FieldLoop(ok, order', fields', env.budget.left, calls)
            == EvalFields(lang, [field], env.scope.vars, env.depth, FieldLoop(true, order, fields, old(env.budget.left), before))
    decreases Rank(env.depth), 0
  {
    order', fields', ok, calls := order, fields, false, before;
    if field.None? || field.value.0 in fields {
      return;
    }
    var paid := env.Consume(1);
    if !paid {
      return;
    }
    var deeper := env.Deeper();
    var value, spent := EvalExprString(lang, leaf, field.value.1, deeper);
    calls := calls + spent;
    if value.None? {
      return;
    }
    order', fields', ok := order + [field.value.0], fields[field.value.0 := value.value], true;
  }

  /** buildEvalComprehension after its text is taken apart. */
  method EvalParsedComprehension(ghost lang: Lang, leaf: Leaf, c: Comprehension, env: BuildEnv) returns (result: Option<Value>, ghost calls: nat)
    requires Understands(lang, leaf) && env.depth <= MAX_DEPTH
    modifies env.budget
    ensures Outcome(result, env.budget.left, calls)
            == EvalComprehension(lang, c, env.scope.vars, env.depth, old(env.budget.left))
    decreases Rank(env.depth), 1
  {
    calls := 1;
    ghost var vars := env.scope.vars;
    var deeper := env.Deeper();
    var source, spent := EvalExprString(lang, leaf, c.source, deeper);
    calls := calls + spent;
    if source.None? || !source.value.List? {
      return None, calls;
    }
    var elements := source.value.items;
    ghost var end := Iterate(lang, c, elements, 0, vars, env.depth, Loop(true, [], env.budget.left, calls));
    var items: seq<Value> := [];
    assert elements[0..] == elements;
    for i := 0 to |elements|
      invariant end == Iterate(lang, c, elements[i..], i, vars, env.depth, Loop(true, items, env.budget.left, calls))
    {
      assert elements[i..][1..] == elements[i + 1..];
      ghost var next := Iteration(lang, c, elements[i], i, vars, env.depth, Loop(true, items, env.budget.left, calls));
      var added, ok, spentHere := EvalIteration(lang, leaf, c, elements[i], i, env, items, calls);
      calls := spentHere;
      items := added;
      assert next == Loop(ok, items, env.budget.left, calls);
      if !ok {
        return None, calls;
      }
    }
    result := Some(List(items));
  }

  /**
   One iteration: pay, bind the variables in a scope of its own, filter, map, append.  Only the
   budget changes: the parent scope and every other existing scope keep their bindings.
   */
  method EvalIteration(ghost lang: Lang, leaf: Leaf, c: Comprehension, element: Value, index: nat, env: BuildEnv, items: seq<Value>, ghost before: nat)
    returns (added: seq<Value>, ok: bool, ghost calls: nat)
    requires Understands(lang, leaf) && env.depth <= MAX_DEPTH
    modifies env.budget
    ensures Loop(ok, added, env.budget.left, calls)
            == Iteration(lang, c, element, index, env.scope.vars, env.depth, Loop(true, items, old(env.budget.left), before))
    decreases Rank(env.depth), 0
  {
    added, calls := items, before;
    ok := env.Consume(1);
    if !ok {
      return;
    }
    var child := env.Child();
    child.scope.vars := child.scope.vars[c.itemVar := element];
    if c.indexVar != "" {
      child.scope.vars := child.scope.vars[c.indexVar := Num(index as real)];
    }
    if c.cond != "" {
      var keep, spentOnFilter := EvalExprString(lang, leaf, c.cond, child);
      calls := calls + spentOnFilter;
      if keep.None? || !keep.value.Bool? {
        ok := false;
        return;
      }
      if !keep.value.boolean {
        return;
      }
    }
    var mapped, spentOnTemplate := EvalExprString(lang, leaf, c.template, child);
    calls := calls + spentOnTemplate;
    if mapped.None? {
      ok := false;
      return;
    }
    added := added + [mapped.value];
  }
}
