/**
 What build expressions mean apart from the budget: a larger budget never changes a successful
 evaluation, so every expression has one value; and a comprehension is filter-then-map over its
 source, enumerated with the original indices.
 */
module BuildMeaning {
  import opened Text
  import opened BuildScanner
  import opened BuildEval

  /** The leaf evaluator's successes do not depend on how much budget is left over. */
  ghost predicate Uniform(leaf: Leaf) {
    forall text, scope, depth, b: int, b': int ::
      0 <= b <= b' && leaf(text, scope, depth, b).0.Some? ==>
        leaf(text, scope, depth, b') == (leaf(text, scope, depth, b).0, leaf(text, scope, depth, b).1 + (b' - b))
  }

  ghost predicate WellBehaved(lang: Lang) {
    Thrifty(lang.leaf) && Uniform(lang.leaf)
  }

  function More(o: Outcome, k: nat): Outcome {
    o.(budget := o.budget + k)
  }

  function MoreLoop(l: Loop, k: nat): Loop {
    l.(budget := l.budget + k)
  }

  function MoreFields(l: FieldLoop, k: nat): FieldLoop {
    l.(budget := l.budget + k)
  }

  // --------------------------------------------- extra budget is just left over

  lemma {:induction false} EvalShift(lang: Lang, text: string, scope: Vars, depth: nat, b: nat, k: nat)
    requires WellBehaved(lang) && depth <= MAX_DEPTH + 1
    requires Eval(lang, text, scope, depth, b).result.Some?
    ensures Eval(lang, text, scope, depth, b + k) == More(Eval(lang, text, scope, depth, b), k)
    decreases Rank(depth), 2, 0
  {
    match lang.parse(text)
    case ListSyntax(elements) => ElementsShift(lang, elements, scope, depth, Loop(true, [], b, 1), k);
    case ObjectSyntax(fields) => FieldsShift(lang, fields, scope, depth, FieldLoop(true, [], map[], b, 1), k);
    case ComprehensionSyntax(c) => ComprehensionShift(lang, c, scope, depth, b, k);
    case LeafSyntax(source) => assert lang.leaf(source, scope, depth, b).0.Some?;
    case Malformed =>
  }

  lemma {:induction false} ElementsShift(lang: Lang, elements: seq<string>, scope: Vars, depth: nat, acc: Loop, k: nat)
    requires WellBehaved(lang) && depth <= MAX_DEPTH && acc.ok && acc.budget >= 0
    requires EvalElements(lang, elements, scope, depth, acc).ok
    ensures EvalElements(lang, elements, scope, depth, MoreLoop(acc, k)) == MoreLoop(EvalElements(lang, elements, scope, depth, acc), k)
    decreases Rank(depth), 0, |elements|
  {
    if elements != [] {
      EvalWork(lang, elements[0], scope, depth + 1, acc.budget - 1);
      EvalShift(lang, elements[0], scope, depth + 1, acc.budget - 1, k);
      ElementsShift(lang, elements[1..], scope, depth, After(acc, Eval(lang, elements[0], scope, depth + 1, acc.budget - 1)), k);
    }
  }

  lemma {:induction false} FieldsShift(lang: Lang, elements: seq<Option<(string, string)>>, scope: Vars, depth: nat, acc: FieldLoop, k: nat)
    requires WellBehaved(lang) && depth <= MAX_DEPTH && acc.ok && acc.budget >= 0
    requires EvalFields(lang, elements, scope, depth, acc).ok
    ensures EvalFields(lang, elements, scope, depth, MoreFields(acc, k)) == MoreFields(EvalFields(lang, elements, scope, depth, acc), k)
    decreases Rank(depth), 0, |elements|
  {
    if elements != [] {
      FieldPaid(lang, elements, scope, depth, acc);
      var field := elements[0].value;
      var next := AfterField(acc, field.0, Eval(lang, field.1, scope, depth + 1, acc.budget - 1));
      FieldShift(lang, field.1, scope, depth, acc, field.0, k);
      FieldsShift(lang, elements[1..], scope, depth, next, k);
      FieldStep(lang, elements, scope, depth, MoreFields(acc, k));
    }
  }

  /** One field on more budget. */
  lemma {:induction false} FieldShift(lang: Lang, text: string, scope: Vars, depth: nat, acc: FieldLoop, name: string, k: nat)
    requires WellBehaved(lang) && depth <= MAX_DEPTH && acc.ok && acc.budget >= 1
    requires Eval(lang, text, scope, depth + 1, acc.budget - 1).result.Some?
    ensures var next := AfterField(acc, name, Eval(lang, text, scope, depth + 1, acc.budget - 1));
            && next.ok && next.budget >= 0
            && AfterField(MoreFields(acc, k), name, Eval(lang, text, scope, depth + 1, MoreFields(acc, k).budget - 1)) == MoreFields(next, k)
    decreases Rank(depth), 0, 0
  {
    EvalWork(lang, text, scope, depth + 1, acc.budget - 1);
    EvalShift(lang, text, scope, depth + 1, acc.budget - 1, k);
    assert MoreFields(acc, k).budget - 1 == acc.budget - 1 + k;
  }

  /** An affordable, new field is evaluated and the loop goes on behind it. */
  lemma FieldStep(lang: Lang, elements: seq<Option<(string, string)>>, scope: Vars, depth: nat, acc: FieldLoop)
    requires depth <= MAX_DEPTH && acc.ok && acc.budget >= 1 && elements != []
    requires elements[0].Some? && elements[0].value.0 !in acc.fields
    ensures EvalFields(lang, elements, scope, depth, acc)
            == EvalFields(lang, elements[1..], scope, depth,
                          AfterField(acc, elements[0].value.0, Eval(lang, elements[0].value.1, scope, depth + 1, acc.budget - 1)))
  {
  }

  /** A field loop that succeeds got past its first field. */
  lemma FieldPaid(lang: Lang, elements: seq<Option<(string, string)>>, scope: Vars, depth: nat, acc: FieldLoop)
    requires depth <= MAX_DEPTH && acc.ok && elements != []
    requires EvalFields(lang, elements, scope, depth, acc).ok
    ensures elements[0].Some? && elements[0].value.0 !in acc.fields && acc.budget >= 1
    ensures Eval(lang, elements[0].value.1, scope, depth + 1, acc.budget - 1).result.Some?
    ensures var next := AfterField(acc, elements[0].value.0, Eval(lang, elements[0].value.1, scope, depth + 1, acc.budget - 1));
            EvalFields(lang, elements[1..], scope, depth, next) == EvalFields(lang, elements, scope, depth, acc)
  {
  }

  lemma {:induction false} FilteredShift(lang: Lang, c: Comprehension, bound: Vars, depth: nat, acc: Loop, k: nat)
    requires WellBehaved(lang) && depth <= MAX_DEPTH && acc.ok && acc.budget >= 1
    requires FilteredIteration(lang, c, bound, depth, acc).ok
    ensures FilteredIteration(lang, c, bound, depth, MoreLoop(acc, k)) == MoreLoop(FilteredIteration(lang, c, bound, depth, acc), k)
    decreases Rank(depth), 0, 0
  {
    hide Bound, Spent, Thrifty, Uniform;
    EvalWork(lang, c.cond, bound, depth + 1, acc.budget - 1);
    EvalShift(lang, c.cond, bound, depth + 1, acc.budget - 1, k);
    var keep := Eval(lang, c.cond, bound, depth + 1, acc.budget - 1);
    if Keeps(keep) {
      EvalShift(lang, c.template, bound, depth + 1, keep.budget, k);
    }
  }

  lemma {:induction false} IterationShift(lang: Lang, c: Comprehension, element: Value, index: nat, scope: Vars, depth: nat, acc: Loop, k: nat)
    requires WellBehaved(lang) && depth <= MAX_DEPTH && acc.ok && acc.budget >= 0
    requires Iteration(lang, c, element, index, scope, depth, acc).ok
    ensures Iteration(lang, c, element, index, scope, depth, MoreLoop(acc, k))
            == MoreLoop(Iteration(lang, c, element, index, scope, depth, acc), k)
    decreases Rank(depth), 0, 1
  {
    var bound := Bind(c, scope, element, index);
    if c.cond == "" {
      EvalShift(lang, c.template, bound, depth + 1, acc.budget - 1, k);
    } else {
      FilteredShift(lang, c, bound, depth, acc, k);
    }
  }

  lemma {:induction false} IterateShift(lang: Lang, c: Comprehension, items: seq<Value>, index: nat, scope: Vars, depth: nat, acc: Loop, k: nat)
    requires WellBehaved(lang) && depth <= MAX_DEPTH && acc.ok && acc.budget >= 0
    requires Iterate(lang, c, items, index, scope, depth, acc).ok
    ensures Iterate(lang, c, items, index, scope, depth, MoreLoop(acc, k)) == MoreLoop(Iterate(lang, c, items, index, scope, depth, acc), k)
    decreases Rank(depth), 0, |items| + 2
  {
    if items != [] {
      IterationShift(lang, c, items[0], index, scope, depth, acc, k);
      IterationWork(lang, c, items[0], index, scope, depth, acc);
      IterateShift(lang, c, items[1..], index + 1, scope, depth, Iteration(lang, c, items[0], index, scope, depth, acc), k);
    }
  }

  lemma {:induction false} ComprehensionShift(lang: Lang, c: Comprehension, scope: Vars, depth: nat, b: nat, k: nat)
    requires WellBehaved(lang) && depth <= MAX_DEPTH
    requires EvalComprehension(lang, c, scope, depth, b).result.Some?
    ensures EvalComprehension(lang, c, scope, depth, b + k) == More(EvalComprehension(lang, c, scope, depth, b), k)
    decreases Rank(depth), 1, 0
  {
    EvalWork(lang, c.source, scope, depth + 1, b);
    EvalShift(lang, c.source, scope, depth + 1, b, k);
    var source := Eval(lang, c.source, scope, depth + 1, b);
    IterateShift(lang, c, source.result.value.items, 0, scope, depth, Loop(true, [], source.budget, source.calls + 1), k);
  }

  // -------------------------------------------------------------------- meaning

  ghost predicate HasValue(lang: Lang, text: string, scope: Vars, depth: nat) {
    exists b: nat :: Eval(lang, text, scope, depth, b).result.Some?
  }

  /** The value of an expression with enough budget; None when no budget is enough. */
  ghost function Meaning(lang: Lang, text: string, scope: Vars, depth: nat): Option<Value> {
    if HasValue(lang, text, scope, depth) then
      var b: nat :| Eval(lang, text, scope, depth, b).result.Some?;
      Eval(lang, text, scope, depth, b).result
    else None
  }

  /** An evaluation that succeeds, on whatever budget, yields the meaning. */
  lemma MeaningIs(lang: Lang, text: string, scope: Vars, depth: nat, b: nat)
    requires WellBehaved(lang) && depth <= MAX_DEPTH + 1
    requires Eval(lang, text, scope, depth, b).result.Some?
    ensures Meaning(lang, text, scope, depth) == Eval(lang, text, scope, depth, b).result
  {
    assert HasValue(lang, text, scope, depth);
    var a: nat :| Eval(lang, text, scope, depth, a).result.Some? && Meaning(lang, text, scope, depth) == Eval(lang, text, scope, depth, a).result;
    EvalShift(lang, text, scope, depth, a, b);
    EvalShift(lang, text, scope, depth, b, a);
  }

  datatype Indexed = Indexed(index: nat, element: Value)

  function Enumerate(items: seq<Value>, start: nat): seq<Indexed> {
    if items == [] then [] else [Indexed(start, items[0])] + Enumerate(items[1..], start + 1)
  }

  /** The comprehension's filter on one element: true without a filter, None when it is not a boolean. */
  ghost function Keep(lang: Lang, c: Comprehension, scope: Vars, depth: nat, p: Indexed): Option<bool> {
    if c.cond == "" then Some(true)
    else
      var v := Meaning(lang, c.cond, Bind(c, scope, p.element, p.index), depth + 1);
      if v.Some? && v.value.Bool? then Some(v.value.boolean) else None
  }

  ghost function Filter(lang: Lang, c: Comprehension, scope: Vars, depth: nat, ps: seq<Indexed>): seq<Indexed> {
    if ps == [] then []
    else (if Keep(lang, c, scope, depth, ps[0]) == Some(true) then [ps[0]] else []) + Filter(lang, c, scope, depth, ps[1..])
  }

  ghost function MapTemplate(lang: Lang, c: Comprehension, scope: Vars, depth: nat, ps: seq<Indexed>): seq<Option<Value>> {
    if ps == [] then []
    else [Meaning(lang, c.template, Bind(c, scope, ps[0].element, ps[0].index), depth + 1)] + MapTemplate(lang, c, scope, depth, ps[1..])
  }

  ghost function Somes(vs: seq<Value>): seq<Option<Value>> {
    if vs == [] then [] else [Some(vs[0])] + Somes(vs[1..])
  }

  ghost predicate FilterDefined(lang: Lang, c: Comprehension, scope: Vars, depth: nat, ps: seq<Indexed>) {
    forall i | 0 <= i < |ps| :: Keep(lang, c, scope, depth, ps[i]).Some?
  }

  /** The declarative reading: every filter is a boolean, and the values are the template mapped over the kept elements. */
  ghost predicate FilterMaps(lang: Lang, c: Comprehension, scope: Vars, depth: nat, ps: seq<Indexed>, vs: seq<Value>) {
    FilterDefined(lang, c, scope, depth, ps) && MapTemplate(lang, c, scope, depth, Filter(lang, c, scope, depth, ps)) == Somes(vs)
  }

  /** What one successful iteration adds. */
  lemma IterationMeaning(lang: Lang, c: Comprehension, element: Value, index: nat, scope: Vars, depth: nat, acc: Loop)
    requires WellBehaved(lang) && depth <= MAX_DEPTH && acc.ok && acc.budget >= 0
    requires Iteration(lang, c, element, index, scope, depth, acc).ok
    ensures var next := Iteration(lang, c, element, index, scope, depth, acc);
            var p := Indexed(index, element);
            && Keep(lang, c, scope, depth, p).Some?
            && (if Keep(lang, c, scope, depth, p).value
                then var v := Meaning(lang, c.template, Bind(c, scope, element, index), depth + 1);
                     v.Some? && next.items == acc.items + [v.value]
                else next.items == acc.items)
  {
    var bound := Bind(c, scope, element, index);
    if c.cond == "" {
      MeaningIs(lang, c.template, bound, depth + 1, acc.budget - 1);
    } else {
      EvalWork(lang, c.cond, bound, depth + 1, acc.budget - 1);
      MeaningIs(lang, c.cond, bound, depth + 1, acc.budget - 1);
      var keep := Eval(lang, c.cond, bound, depth + 1, acc.budget - 1);
      if keep.result.value.boolean {
        MeaningIs(lang, c.template, bound, depth + 1, keep.budget);
      }
    }
  }

  lemma {:induction false} IterateMeaning(lang: Lang, c: Comprehension, items: seq<Value>, index: nat, scope: Vars, depth: nat, acc: Loop)
    returns (vs: seq<Value>)
    requires WellBehaved(lang) && depth <= MAX_DEPTH && acc.ok && acc.budget >= 0
    requires Iterate(lang, c, items, index, scope, depth, acc).ok
    ensures Iterate(lang, c, items, index, scope, depth, acc).items == acc.items + vs
    ensures FilterMaps(lang, c, scope, depth, Enumerate(items, index), vs)
    decreases |items|
  {
    vs := [];
    if items != [] {
      var next := Iteration(lang, c, items[0], index, scope, depth, acc);
      IterationMeaning(lang, c, items[0], index, scope, depth, acc);
      IterationWork(lang, c, items[0], index, scope, depth, acc);
      var rest := IterateMeaning(lang, c, items[1..], index + 1, scope, depth, next);
      var p := Indexed(index, items[0]);
      FilterMapsStep(lang, c, scope, depth, p, Enumerate(items[1..], index + 1), rest);
      if Keep(lang, c, scope, depth, p).value {
        var v := Meaning(lang, c.template, Bind(c, scope, items[0], index), depth + 1).value;
        vs := [v] + rest;
        assert acc.items + [v] + rest == acc.items + vs;
      } else {
        vs := rest;
      }
    }
  }

  lemma FilterMapsStep(lang: Lang, c: Comprehension, scope: Vars, depth: nat, p: Indexed, ps: seq<Indexed>, vs: seq<Value>)
    requires FilterMaps(lang, c, scope, depth, ps, vs) && Keep(lang, c, scope, depth, p).Some?
    ensures var v := Meaning(lang, c.template, Bind(c, scope, p.element, p.index), depth + 1);
            if !Keep(lang, c, scope, depth, p).value then FilterMaps(lang, c, scope, depth, [p] + ps, vs)
            else v.Some? ==> FilterMaps(lang, c, scope, depth, [p] + ps, [v.value] + vs)
  {
    var all := [p] + ps;
    assert all[1..] == ps;
    var kept := Filter(lang, c, scope, depth, ps);
    if Keep(lang, c, scope, depth, p).value {
      assert Filter(lang, c, scope, depth, all) == [p] + kept;
      assert ([p] + kept)[1..] == kept;
      var v := Meaning(lang, c.template, Bind(c, scope, p.element, p.index), depth + 1);
      if v.Some? {
        assert ([v.value] + vs)[1..] == vs;
      }
    } else {
      assert Filter(lang, c, scope, depth, all) == [] + kept == kept;
    }
  }

  /**
   Comprehension refinement: when the loop over a source succeeds, every filter was a boolean and
   the result is the template mapped over the elements the filter keeps, each seen with its
   original index and with bindings of its own.
   */
  lemma ComprehensionRefines(lang: Lang, c: Comprehension, items: seq<Value>, scope: Vars, depth: nat, budget: nat, calls: nat)
    requires WellBehaved(lang) && depth <= MAX_DEPTH
    requires Iterate(lang, c, items, 0, scope, depth, Loop(true, [], budget, calls)).ok
    ensures FilterMaps(lang, c, scope, depth, Enumerate(items, 0), Iterate(lang, c, items, 0, scope, depth, Loop(true, [], budget, calls)).items)
  {
    var vs := IterateMeaning(lang, c, items, 0, scope, depth, Loop(true, [], budget, calls));
    assert [] + vs == vs;
  }

  /** Taking a filter-map reading apart again. */
  lemma FilterMapsInv(lang: Lang, c: Comprehension, scope: Vars, depth: nat, p: Indexed, ps: seq<Indexed>, vs: seq<Value>)
    requires FilterMaps(lang, c, scope, depth, [p] + ps, vs)
    ensures Keep(lang, c, scope, depth, p).Some?
    ensures if Keep(lang, c, scope, depth, p).value
            then && vs != []
                 && Meaning(lang, c.template, Bind(c, scope, p.element, p.index), depth + 1) == Some(vs[0])
                 && FilterMaps(lang, c, scope, depth, ps, vs[1..])
            else FilterMaps(lang, c, scope, depth, ps, vs)
  {
    var all := [p] + ps;
    assert all[0] == p && all[1..] == ps;
    forall i | 0 <= i < |ps|
      ensures Keep(lang, c, scope, depth, ps[i]).Some?
    {
      assert all[i + 1] == ps[i];
    }
    var kept := Filter(lang, c, scope, depth, ps);
    if Keep(lang, c, scope, depth, p).value {
      assert Filter(lang, c, scope, depth, all) == [p] + kept;
      assert ([p] + kept)[1..] == kept;
      var mapped := MapTemplate(lang, c, scope, depth, [p] + kept);
      assert mapped[1..] == MapTemplate(lang, c, scope, depth, kept);
      assert Somes(vs)[1..] == Somes(vs[1..]);
    } else {
      assert Filter(lang, c, scope, depth, all) == [] + kept == kept;
    }
  }

  /** Enough budget to evaluate an expression that has a value. */
  lemma EnoughFor(lang: Lang, text: string, scope: Vars, depth: nat) returns (b: nat)
    requires WellBehaved(lang) && depth <= MAX_DEPTH + 1 && Meaning(lang, text, scope, depth).Some?
    ensures forall a: int | a >= b :: Eval(lang, text, scope, depth, a).result == Meaning(lang, text, scope, depth)
    ensures forall a: int | a >= b :: Eval(lang, text, scope, depth, a).budget >= a - b
  {
    assert HasValue(lang, text, scope, depth);
    b :| Eval(lang, text, scope, depth, b).result.Some?;
    MeaningIs(lang, text, scope, depth, b);
    EvalWork(lang, text, scope, depth, b);
    forall a: int | a >= b
      ensures Eval(lang, text, scope, depth, a).result == Meaning(lang, text, scope, depth)
      ensures Eval(lang, text, scope, depth, a).budget >= a - b
    {
      EvalShift(lang, text, scope, depth, b, a - b);
    }
  }

  /** Enough budget for one iteration, with as much as one likes left over. */
  lemma EnoughForIteration(lang: Lang, c: Comprehension, element: Value, index: nat, scope: Vars, depth: nat) returns (b: nat)
    requires WellBehaved(lang) && depth <= MAX_DEPTH
    requires Keep(lang, c, scope, depth, Indexed(index, element)).Some?
    requires Keep(lang, c, scope, depth, Indexed(index, element)).value ==>
               Meaning(lang, c.template, Bind(c, scope, element, index), depth + 1).Some?
    ensures forall acc: Loop | acc.ok && acc.budget >= b :: Iteration(lang, c, element, index, scope, depth, acc).ok
    ensures forall acc: Loop | acc.ok && acc.budget >= b :: Iteration(lang, c, element, index, scope, depth, acc).budget >= acc.budget - b
  {
    var bound := Bind(c, scope, element, index);
    var kept := Keep(lang, c, scope, depth, Indexed(index, element)).value;
    var forCond: nat := 0;
    var forTemplate: nat := 0;
    if c.cond != "" {
      forCond := EnoughFor(lang, c.cond, bound, depth + 1);
    }
    if kept {
      forTemplate := EnoughFor(lang, c.template, bound, depth + 1);
    }
    b := 1 + forCond + forTemplate;
    forall acc: Loop | acc.ok && acc.budget >= b
      ensures Iteration(lang, c, element, index, scope, depth, acc).ok
      ensures Iteration(lang, c, element, index, scope, depth, acc).budget >= acc.budget - b
    {
      if c.cond == "" {
        assert Eval(lang, c.template, bound, depth + 1, acc.budget - 1).result.Some?;
      } else {
        var keep := Eval(lang, c.cond, bound, depth + 1, acc.budget - 1);
        assert keep.result == Meaning(lang, c.cond, bound, depth + 1) && keep.budget >= acc.budget - 1 - forCond;
        if kept {
          assert Eval(lang, c.template, bound, depth + 1, keep.budget).result.Some?;
        }
      }
    }
  }

  /** Whatever has a filter-map reading, the loop computes, given enough budget. */
  lemma {:induction false} IterateSucceeds(lang: Lang, c: Comprehension, items: seq<Value>, index: nat, scope: Vars, depth: nat, vs: seq<Value>)
    returns (b: nat)
    requires WellBehaved(lang) && depth <= MAX_DEPTH
    requires FilterMaps(lang, c, scope, depth, Enumerate(items, index), vs)
    ensures forall acc: Loop | acc.ok && acc.budget >= b :: Iterate(lang, c, items, index, scope, depth, acc).ok
    decreases |items|
  {
    b := 0;
    if items != [] {
      var p, ps := Indexed(index, items[0]), Enumerate(items[1..], index + 1);
      FilterMapsInv(lang, c, scope, depth, p, ps, vs);
      var later := IterateSucceeds(lang, c, items[1..], index + 1, scope, depth,
                                   if Keep(lang, c, scope, depth, p).value then vs[1..] else vs);
      var now := EnoughForIteration(lang, c, items[0], index, scope, depth);
      b := now + later;
    }
  }

  lemma {:induction false} SomesInjective(a: seq<Value>, b: seq<Value>)
    requires Somes(a) == Somes(b)
    ensures a == b
  {
    if a == [] || b == [] {
      assert |Somes(a)| == 0 <==> a == [];
    } else {
      assert Somes(a)[0] == Some(a[0]) && Somes(b)[0] == Some(b[0]);
      assert Somes(a)[1..] == Somes(a[1..]) && Somes(b)[1..] == Somes(b[1..]);
      SomesInjective(a[1..], b[1..]);
      assert a == [a[0]] + a[1..] && b == [b[0]] + b[1..];
    }
  }

  /**
   Both directions: with enough budget the loop of a comprehension yields a list if and only if
   that list is filter-then-map over the enumerated source.
   */
  lemma ComprehensionIffFilterMap(lang: Lang, c: Comprehension, items: seq<Value>, scope: Vars, depth: nat, vs: seq<Value>)
    requires WellBehaved(lang) && depth <= MAX_DEPTH
    ensures FilterMaps(lang, c, scope, depth, Enumerate(items, 0), vs) <==>
              exists b: nat :: var end := Iterate(lang, c, items, 0, scope, depth, Loop(true, [], b, 0)); end.ok && end.items == vs
  {
    forall b: nat | Iterate(lang, c, items, 0, scope, depth, Loop(true, [], b, 0)).ok
      ensures FilterMaps(lang, c, scope, depth, Enumerate(items, 0), Iterate(lang, c, items, 0, scope, depth, Loop(true, [], b, 0)).items)
    {
      ComprehensionRefines(lang, c, items, scope, depth, b, 0);
    }
    if FilterMaps(lang, c, scope, depth, Enumerate(items, 0), vs) {
      var b := IterateSucceeds(lang, c, items, 0, scope, depth, vs);
      var end := Iterate(lang, c, items, 0, scope, depth, Loop(true, [], b, 0));
      assert end.ok;
      SomesInjective(end.items, vs);
    }
  }
}
