/**
 What a build block means apart from the budget: it resolves exactly when its fields resolve one
 after the other, each in the data of those before it.
 */
module BuildBlockMeaning {
  import opened Text
  import opened BuildEval
  import opened BuildMeaning
  import opened BuildBlock

  ghost predicate AllBehaved(leaves: Leaves) {
    forall data: Vars :: WellBehaved(Lang(Parse, leaves(data)))
  }

  /** A field adds its value under a literal name that is new; a text must not be blank. */
  ghost predicate Resolves(leaves: Leaves, before: Vars, f: Field, after: Vars) {
    && IsLiteralName(f.name) && f.name !in before
    && exists v :: Meaning(Lang(Parse, leaves(before)), f.expr, map[], 0) == Some(v) && (v.Str? ==> TrimSpace(v.text) != "")
         && after == before[f.name := v]
  }

  /** The data before and after every field. */
  ghost predicate Chain(leaves: Leaves, fields: seq<Field>, datas: seq<Vars>) {
    && |datas| == |fields| + 1 && datas[0] == map[]
    && forall k | 0 <= k < |fields| :: Resolves(leaves, datas[k], fields[k], datas[k + 1])
  }

  function Flat(records: seq<seq<Field>>): seq<Field> {
    if records == [] then [] else Flat(records[..|records| - 1]) + records[|records| - 1]
  }

  function Start(budget: int): Block {
    Block(true, map[], budget, 0, 0)
  }

  // ---------------------------------------------------------- records and fields

  lemma {:induction false} FieldsAppend(step: Step, start: Block, a: seq<Field>, b: seq<Field>, n: nat)
    requires n <= |b|
    ensures BuildBlock.EvalFields(step, start, a + b, |a| + n) == BuildBlock.EvalFields(step, BuildBlock.EvalFields(step, start, a, |a|), b, n)
  {
    if n > 0 {
      FieldsAppend(step, start, a, b, n - 1);
      assert (a + b)[|a| + n - 1] == b[n - 1];
    } else {
      FieldsPrefix(step, start, a, b, |a|);
    }
  }

  lemma {:induction false} FieldsPrefix(step: Step, start: Block, a: seq<Field>, b: seq<Field>, n: nat)
    requires n <= |a|
    ensures BuildBlock.EvalFields(step, start, a + b, n) == BuildBlock.EvalFields(step, start, a, n)
  {
    if n > 0 {
      FieldsPrefix(step, start, a, b, n - 1);
      assert (a + b)[n - 1] == a[n - 1];
    }
  }

  lemma {:induction false} RecordsFlat(step: Step, budget: int, records: seq<seq<Field>>, n: nat)
    requires n <= |records| && (n > 0 ==> records[0] != [])
    ensures EvalRecords(step, budget, records, n) == BuildBlock.EvalFields(step, Start(budget), Flat(records[..n]), |Flat(records[..n])|)
  {
    if n > 0 {
      var before, last := records[..n - 1], records[n - 1];
      RecordsFlat(step, budget, records, n - 1);
      assert records[..n][..n - 1] == before;
      FieldsAppend(step, Start(budget), Flat(before), last, |last|);
    }
  }

  lemma {:induction false} EmptyFails(step: Step, budget: int, records: seq<seq<Field>>, n: nat)
    requires Sticky(step) && 0 < n <= |records| && records[0] == []
    ensures !EvalRecords(step, budget, records, n).ok
  {
    if n > 1 {
      EmptyFails(step, budget, records, n - 1);
      FailedFrom(step, EvalRecords(step, budget, records, n - 1), records[n - 1], 0, |records[n - 1]|);
    }
  }

  lemma StepsStick(leaves: Leaves)
    ensures Sticky(StepOf(leaves))
  {
  }

  // ------------------------------------------------------------- one field at a time

  lemma FieldResolves(leaves: Leaves, acc: Block, f: Field)
    requires AllBehaved(leaves) && acc.budget >= 0 && EvalField(leaves, acc, f).ok
    ensures acc.ok && EvalField(leaves, acc, f).budget >= 0 && Resolves(leaves, acc.data, f, EvalField(leaves, acc, f).data)
  {
    hide Eval, Meaning, Bound, Spent, IsLiteralName, TrimSpace;
    var lang := Lang(Parse, leaves(acc.data));
    EvalWork(lang, f.expr, map[], 0, acc.budget);
    MeaningIs(lang, f.expr, map[], 0, acc.budget);
  }

  /** Enough budget for one field, and how much of it the field may use. */
  lemma EnoughForField(leaves: Leaves, before: Vars, f: Field, after: Vars) returns (b: nat)
    requires AllBehaved(leaves) && Resolves(leaves, before, f, after)
    ensures forall acc: Block | acc.ok && acc.data == before && acc.budget >= b ::
              var next := EvalField(leaves, acc, f); next.ok && next.data == after && next.budget >= acc.budget - b
  {
    hide Eval, Meaning, IsLiteralName, TrimSpace;
    b := EnoughFor(Lang(Parse, leaves(before)), f.expr, map[], 0);
  }

  lemma {:induction false} FieldsResolve(leaves: Leaves, budget: nat, fields: seq<Field>, n: nat) returns (datas: seq<Vars>)
    requires AllBehaved(leaves) && n <= |fields| && BuildBlock.EvalFields(StepOf(leaves), Start(budget), fields, n).ok
    ensures var end := BuildBlock.EvalFields(StepOf(leaves), Start(budget), fields, n);
            Chain(leaves, fields[..n], datas) && datas[n] == end.data && end.budget >= 0
  {
    hide Resolves, EvalField, AllBehaved;
    if n == 0 {
      datas := [map[]];
    } else {
      var before := BuildBlock.EvalFields(StepOf(leaves), Start(budget), fields, n - 1);
      FieldNeeds(leaves, before, fields[n - 1]);
      var earlier := FieldsResolve(leaves, budget, fields, n - 1);
      FieldResolves(leaves, before, fields[n - 1]);
      datas := earlier + [EvalField(leaves, before, fields[n - 1]).data];
      forall k | 0 <= k < n
        ensures Resolves(leaves, datas[k], fields[..n][k], datas[k + 1])
      {
        assert k < n - 1 ==> fields[..n][k] == fields[..n - 1][k];
      }
    }
  }

  lemma FieldNeeds(leaves: Leaves, acc: Block, f: Field)
    requires EvalField(leaves, acc, f).ok
    ensures acc.ok
  {
  }

  lemma {:induction false} ResolvedFields(leaves: Leaves, fields: seq<Field>, datas: seq<Vars>, n: nat) returns (b: nat)
    requires AllBehaved(leaves) && Chain(leaves, fields, datas) && n <= |fields|
    ensures forall budget: int | budget >= b ::
              var end := BuildBlock.EvalFields(StepOf(leaves), Start(budget), fields, n); end.ok && end.data == datas[n] && end.budget >= budget - b
  {
    hide Resolves, EvalField, AllBehaved;
    b := 0;
    if n > 0 {
      var earlier := ResolvedFields(leaves, fields, datas, n - 1);
      var now := EnoughForField(leaves, datas[n - 1], fields[n - 1], datas[n]);
      b := earlier + now;
      forall budget: int | budget >= b
        ensures var end := BuildBlock.EvalFields(StepOf(leaves), Start(budget), fields, n); end.ok && end.data == datas[n] && end.budget >= budget - b
      {
        var before := BuildBlock.EvalFields(StepOf(leaves), Start(budget), fields, n - 1);
        assert before.ok && before.data == datas[n - 1] && before.budget >= now;
        assert BuildBlock.EvalFields(StepOf(leaves), Start(budget), fields, n) == EvalField(leaves, before, fields[n - 1]);
      }
    }
  }

  /** With this budget the block gives this data. */
  ghost predicate Gives(leaves: Leaves, records: seq<seq<Field>>, budget: nat, data: Vars) {
    var end := EvalRecords(StepOf(leaves), budget, records, |records|);
    end.ok && end.data == data
  }

  lemma GivesFields(leaves: Leaves, records: seq<seq<Field>>, budget: nat, data: Vars)
    ensures Gives(leaves, records, budget, data) <==>
              && (records == [] || records[0] != [])
              && var fields := Flat(records);
                 var end := BuildBlock.EvalFields(StepOf(leaves), Start(budget), fields, |fields|);
                 end.ok && end.data == data
  {
    hide EvalRecords, BuildBlock.EvalFields, Sticky;
    assert records[..|records|] == records;
    if records != [] && records[0] == [] {
      StepsStick(leaves);
      EmptyFails(StepOf(leaves), budget, records, |records|);
    } else {
      RecordsFlat(StepOf(leaves), budget, records, |records|);
    }
  }

  lemma GivesChain(leaves: Leaves, records: seq<seq<Field>>, budget: nat, data: Vars)
    requires AllBehaved(leaves) && Gives(leaves, records, budget, data)
    ensures (records == [] || records[0] != []) && exists datas :: Chain(leaves, Flat(records), datas) && |datas| > 0 && datas[|datas| - 1] == data
  {
    hide Chain, AllBehaved, BuildBlock.EvalFields, Gives;
    var fields := Flat(records);
    GivesFields(leaves, records, budget, data);
    var datas := FieldsResolve(leaves, budget, fields, |fields|);
    assert fields[..|fields|] == fields;
    ChainLength(leaves, fields, datas);
  }

  lemma ChainGives(leaves: Leaves, records: seq<seq<Field>>, datas: seq<Vars>) returns (budget: nat)
    requires AllBehaved(leaves) && (records == [] || records[0] != []) && Chain(leaves, Flat(records), datas)
    ensures |datas| > 0 && Gives(leaves, records, budget, datas[|datas| - 1])
  {
    hide Chain, AllBehaved, BuildBlock.EvalFields, Gives;
    var fields := Flat(records);
    ChainLength(leaves, fields, datas);
    budget := ResolvedFields(leaves, fields, datas, |fields|);
    var end := BuildBlock.EvalFields(StepOf(leaves), Start(budget), fields, |fields|);
    assert end.ok && end.data == datas[|fields|];
    GivesFields(leaves, records, budget, datas[|datas| - 1]);
  }

  /**
   Exactly which data a block can give: with enough budget the loop ends in it if and only if the
   first record is not empty and the fields resolve to it, one after the other.
   */
  lemma BlockIff(leaves: Leaves, records: seq<seq<Field>>, data: Vars)
    requires AllBehaved(leaves)
    ensures (exists budget: nat :: Gives(leaves, records, budget, data))
            <==> (records == [] || records[0] != []) && exists datas :: Chain(leaves, Flat(records), datas) && |datas| > 0 && datas[|datas| - 1] == data
  {
    hide Chain, AllBehaved, Gives;
    if budget: nat :| Gives(leaves, records, budget, data) {
      GivesChain(leaves, records, budget, data);
    }
    if records == [] || records[0] != [] {
      forall datas | Chain(leaves, Flat(records), datas) && |datas| > 0 && datas[|datas| - 1] == data
        ensures exists budget: nat :: Gives(leaves, records, budget, data)
      {
        var budget := ChainGives(leaves, records, datas);
      }
    }
  }

  lemma ChainLength(leaves: Leaves, fields: seq<Field>, datas: seq<Vars>)
    requires Chain(leaves, fields, datas)
    ensures |datas| == |fields| + 1
  {
  }
}
