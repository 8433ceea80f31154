/**
 A whole build block, parseBuildDataFromBlocks of internal/buildgen/data.go: records of named
 fields, evaluated in source order on one shared budget, each seeing the fields resolved before it.
 */
module BuildBlock {
  import opened Text
  import opened BuildEval
  import opened BuildProgram

  datatype Field = Field(name: string, expr: string)

  /** The leaf evaluator reads the fields resolved so far. */
  type Leaves = Vars -> Leaf

  /** A block in progress: the data so far, the budget left, evaluator calls and fields evaluated. */
  datatype Block = Block(ok: bool, data: Vars, budget: int, calls: nat, fields: nat)

  /** A string field must carry text. */
  predicate Meaningful(v: Value) {
    v.Str? ==> TrimSpace(v.text) != ""
  }

  /** One field: evaluated before it can be found to be a duplicate. */
  function EvalField(leaves: Leaves, acc: Block, f: Field): Block {
    if !acc.ok then acc
    else if !IsLiteralName(f.name) then acc.(ok := false)
    else Recorded(acc, f.name, Eval(Lang(Parse, leaves(acc.data)), f.expr, map[], 0, acc.budget))
  }

  function Recorded(acc: Block, name: string, o: Outcome): Block {
    var ok := o.result.Some? && Meaningful(o.result.value) && name !in acc.data;
    Block(ok, if ok then acc.data[name := o.result.value] else acc.data, o.budget, acc.calls + o.calls, acc.fields + 1)
  }

  /** What one more field does to a block. */
  type Step = (Block, Field) -> Block

  function StepOf(leaves: Leaves): Step {
    (acc, f) => EvalField(leaves, acc, f)
  }

  /** The first n fields, in order. */
  function EvalFields(step: Step, start: Block, fields: seq<Field>, n: nat): Block
    requires n <= |fields|
  {
    if n == 0 then start else step(EvalFields(step, start, fields, n - 1), fields[n - 1])
  }

  /** The first n records; the first record of a block must not be empty. */
  function EvalRecords(step: Step, budget: int, records: seq<seq<Field>>, n: nat): Block
    requires n <= |records|
  {
    if n == 0 then Block(true, map[], budget, 0, 0)
    else
      var before := EvalRecords(step, budget, records, n - 1);
      if n == 1 && records[0] == [] then before.(ok := false)
      else EvalFields(step, before, records[n - 1], |records[n - 1]|)
  }

  /** A failed block stays as it is. */
  ghost predicate Sticky(step: Step) {
    forall acc: Block, f: Field | !acc.ok :: step(acc, f) == acc
  }

  // ------------------------------------------------------------------- the program

  method EvalBlock(leaves: Leaves, records: seq<seq<Field>>) returns (result: Option<Vars>, consumed: int, ghost calls: nat, fields: nat)
    ensures var end := EvalRecords(StepOf(leaves), ITERATION_BUDGET, records, |records|);
            && result == (if end.ok then Some(end.data) else None)
            && consumed == ITERATION_BUDGET - end.budget && fields == end.fields
    ensures calls == EvalRecords(StepOf(leaves), ITERATION_BUDGET, records, |records|).calls
  {
    var budget := new Budget(ITERATION_BUDGET);
    var scope := new Scope(map[]);
    var env := new BuildEnv(scope, budget, 0);
    var ok, data;
    ok, data, calls, fields := EvalAll(leaves, records, env, StepOf(leaves));
    result := if ok then Some(data) else None;
    consumed := ITERATION_BUDGET - budget.left;
  }

  /** The loop over the records, on one environment. */
  method EvalAll(leaves: Leaves, records: seq<seq<Field>>, env: BuildEnv, ghost step: Step)
    returns (ok: bool, data: Vars, ghost calls: nat, fields: nat)
    requires env.depth == 0 && env.scope.vars == map[] && Sticky(step)
    requires forall acc, f {:trigger EvalField(leaves, acc, f)} :: step(acc, f) == EvalField(leaves, acc, f)
    modifies env.budget
    ensures Block(ok, data, env.budget.left, calls, fields) == EvalRecords(step, old(env.budget.left), records, |records|)
  {
    ghost var start := env.budget.left;
    ok, data, calls, fields := true, map[], 0, 0;
    for index := 0 to |records|
      invariant Block(ok, data, env.budget.left, calls, fields) == EvalRecords(step, start, records, index)
    {
      if index == 0 && records[0] == [] {
        ok := false;
      } else if ok {
        ok, data, calls, fields := EvalRecord(leaves, records[index], env, data, calls, fields, step);
      } else {
        FailedFrom(step, EvalRecords(step, start, records, index), records[index], 0, |records[index]|);
      }
    }
  }

  lemma {:induction false} FailedFrom(step: Step, start: Block, fields: seq<Field>, k: nat, n: nat)
    requires Sticky(step) && k <= n <= |fields| && !EvalFields(step, start, fields, k).ok
    ensures EvalFields(step, start, fields, n) == EvalFields(step, start, fields, k)
    decreases n
  {
    if k < n {
      FailedFrom(step, start, fields, k, n - 1);
    }
  }

  /** The loop over the fields of one record; it stops at the first error. */
  method EvalRecord(leaves: Leaves, record: seq<Field>, env: BuildEnv, before: Vars, ghost made: nat, count: nat, ghost step: Step)
    returns (ok: bool, data: Vars, ghost calls: nat, fields: nat)
    requires env.depth == 0 && env.scope.vars == map[] && Sticky(step)
    requires forall acc, f {:trigger EvalField(leaves, acc, f)} :: step(acc, f) == EvalField(leaves, acc, f)
    modifies env.budget
    ensures Block(ok, data, env.budget.left, calls, fields)
            == EvalFields(step, Block(true, before, old(env.budget.left), made, count), record, |record|)
  {
    ghost var start := Block(true, before, env.budget.left, made, count);
    ok, data, calls, fields := true, before, made, count;
    for i := 0 to |record|
      invariant ok && Block(ok, data, env.budget.left, calls, fields) == EvalFields(step, start, record, i)
    {
      ok, data, calls, fields := EvalNamed(leaves, record[i], env, data, calls, fields, step);
      if !ok {
        FailedFrom(step, start, record, i + 1, |record|);
        return;
      }
    }
  }

  /** buildFieldValueFromString, and the check for a duplicate that follows it. */
  method EvalNamed(leaves: Leaves, f: Field, env: BuildEnv, before: Vars, ghost made: nat, count: nat, ghost step: Step)
    returns (ok: bool, data: Vars, ghost calls: nat, fields: nat)
    requires env.depth == 0 && env.scope.vars == map[]
    requires forall acc, f {:trigger EvalField(leaves, acc, f)} :: step(acc, f) == EvalField(leaves, acc, f)
    modifies env.budget
    ensures Block(ok, data, env.budget.left, calls, fields) == step(Block(true, before, old(env.budget.left), made, count), f)
  {
    ghost var expected := EvalField(leaves, Block(true, before, env.budget.left, made, count), f);
    ok, data, calls, fields := false, before, made, count;
    if !IsLiteralName(f.name) {
      return;
    }
    var leaf := leaves(data);
    var value, spent := EvalExprString(Lang(Parse, leaf), leaf, f.expr, env);
    calls, fields := calls + spent, fields + 1;
    if value.None? || !Meaningful(value.value) || f.name in data {
      return;
    }
    ok, data := true, data[f.name := value.value];
  }

  // -------------------------------------------------------------------- work bound

  /** Every leaf evaluator of the block respects the budget. */
  ghost predicate AllThrifty(leaves: Leaves) {
    forall data :: Thrifty(leaves(data))
  }

  /** What is claimed of a block in progress. */
  ghost predicate Within(b: Block, budget: nat) {
    && b.budget <= budget
    && (b.ok ==> b.budget >= 0)
    && b.calls <= 66 * (b.fields + 2 * Spent(budget, b.budget))
  }

  lemma FieldWithin(leaves: Leaves, acc: Block, f: Field, budget: nat)
    requires AllThrifty(leaves) && Within(acc, budget)
    ensures Within(EvalField(leaves, acc, f), budget)
  {
    if acc.ok && IsLiteralName(f.name) {
      var lang := Lang(Parse, leaves(acc.data));
      EvalWork(lang, f.expr, map[], 0, acc.budget);
      var o := Eval(lang, f.expr, map[], 0, acc.budget);
      SpentChain(budget, acc.budget, o.budget);
    }
  }

  lemma {:induction false} FieldsWithin(leaves: Leaves, start: Block, fields: seq<Field>, n: nat, budget: nat)
    requires AllThrifty(leaves) && Within(start, budget) && n <= |fields|
    ensures Within(EvalFields(StepOf(leaves), start, fields, n), budget)
  {
    if n > 0 {
      FieldsWithin(leaves, start, fields, n - 1, budget);
      FieldWithin(leaves, EvalFields(StepOf(leaves), start, fields, n - 1), fields[n - 1], budget);
    }
  }

  /**
   The work of a whole block: with n fields evaluated and c elements consumed on the one budget,
   at most 66 * (n + 2c) evaluator calls; a block that succeeds consumed no more than the budget.
   */
  lemma {:induction false} BlockBound(leaves: Leaves, budget: nat, records: seq<seq<Field>>, n: nat)
    requires AllThrifty(leaves) && n <= |records|
    ensures var end := EvalRecords(StepOf(leaves), budget, records, n);
            && Within(end, budget)
            && end.calls <= 66 * (end.fields + 2 * (budget - end.budget)) && end.calls <= 66 * (end.fields + 2 * budget)
  {
    if n > 0 {
      BlockBound(leaves, budget, records, n - 1);
      var before := EvalRecords(StepOf(leaves), budget, records, n - 1);
      FieldsWithin(leaves, before, records[n - 1], |records[n - 1]|, budget);
    }
  }

  // ------------------------------------------------------------- what the fields hold

  /** A field that is recorded was new, and holds the value of its text in the data before it. */
  ghost predicate Records(leaves: Leaves, before: Block, f: Field, after: Block) {
    && before.ok && f.name !in before.data
    && Eval(Lang(Parse, leaves(before.data)), f.expr, map[], 0, before.budget).result.Some?
    && after.data == before.data[f.name := Eval(Lang(Parse, leaves(before.data)), f.expr, map[], 0, before.budget).result.value]
  }

  lemma FieldRecords(leaves: Leaves, before: Block, f: Field)
    requires EvalField(leaves, before, f).ok
    ensures Records(leaves, before, f, EvalField(leaves, before, f))
  {
  }

  /** A step that succeeds continues a block that was fine, and overwrites nothing. */
  predicate Continues(before: Block, after: Block) {
    after.ok ==> before.ok && forall name | name in before.data :: name in after.data && after.data[name] == before.data[name]
  }

  ghost predicate Growing(step: Step) {
    forall acc: Block, f: Field :: Continues(acc, step(acc, f))
  }

  lemma StepsGrow(leaves: Leaves)
    ensures Growing(StepOf(leaves))
  {
    forall acc: Block, f: Field
      ensures Continues(acc, StepOf(leaves)(acc, f))
    {
      FieldContinues(leaves, acc, f);
    }
  }

  lemma FieldContinues(leaves: Leaves, acc: Block, f: Field)
    ensures Continues(acc, EvalField(leaves, acc, f))
  {
  }

  lemma {:induction false} Kept(step: Step, start: Block, fields: seq<Field>, k: nat, n: nat)
    requires Growing(step) && k <= n <= |fields|
    ensures Continues(EvalFields(step, start, fields, k), EvalFields(step, start, fields, n))
    decreases n
  {
    if k < n {
      Kept(step, start, fields, k, n - 1);
      assert Continues(EvalFields(step, start, fields, n - 1), EvalFields(step, start, fields, n));
    }
  }

  lemma StepHolds(step: Step, start: Block, fields: seq<Field>, k: nat)
    requires Growing(step) && k < |fields| && EvalFields(step, start, fields, |fields|).ok
    ensures var after := step(EvalFields(step, start, fields, k), fields[k]);
            after == EvalFields(step, start, fields, k + 1) && after.ok && Continues(after, EvalFields(step, start, fields, |fields|))
  {
    Kept(step, start, fields, k + 1, |fields|);
  }

  lemma StepRecords(leaves: Leaves, before: Block, f: Field)
    requires StepOf(leaves)(before, f).ok
    ensures Records(leaves, before, f, StepOf(leaves)(before, f))
  {
    FieldRecords(leaves, before, f);
  }

  /**
   Lexical scoping of fields: in a record that evaluates, each field holds the value its text has
   in the data of the fields before it, under a name that was not taken, and keeps it.
   */
  lemma FieldHolds(leaves: Leaves, start: Block, fields: seq<Field>, k: nat)
    requires k < |fields| && EvalFields(StepOf(leaves), start, fields, |fields|).ok
    ensures var before, after := EvalFields(StepOf(leaves), start, fields, k), EvalFields(StepOf(leaves), start, fields, k + 1);
            Records(leaves, before, fields[k], after) && Continues(after, EvalFields(StepOf(leaves), start, fields, |fields|))
  {
    StepsGrow(leaves);
    StepHolds(StepOf(leaves), start, fields, k);
    StepRecords(leaves, EvalFields(StepOf(leaves), start, fields, k), fields[k]);
  }
}
