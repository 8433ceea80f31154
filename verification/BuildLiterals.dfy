/**
 What list and object literals mean apart from the budget, and which texts are turned down: a
 literal has a value if and only if its parts have, and an object only with proper, distinct names.
 */
module BuildLiterals {
  import opened Text
  import opened BuildScanner
  import opened BuildEval
  import opened BuildMeaning
  import opened BuildRoundTrip

  // ------------------------------------------------------------------------ lists

  /** The values are those of the elements, one by one, a level deeper. */
  ghost predicate Values(lang: Lang, elements: seq<string>, scope: Vars, depth: nat, vs: seq<Value>) {
    |vs| == |elements| && forall i | 0 <= i < |elements| :: Meaning(lang, elements[i], scope, depth + 1) == Some(vs[i])
  }

  lemma ValuesCons(lang: Lang, elements: seq<string>, scope: Vars, depth: nat, v: Value, vs: seq<Value>)
    requires elements != [] && Meaning(lang, elements[0], scope, depth + 1) == Some(v) && Values(lang, elements[1..], scope, depth, vs)
    ensures Values(lang, elements, scope, depth, [v] + vs)
  {
    hide Meaning;
    forall i | 0 <= i < |elements|
      ensures Meaning(lang, elements[i], scope, depth + 1) == Some(([v] + vs)[i])
    {
      assert i > 0 ==> elements[i] == elements[1..][i - 1];
    }
  }

  lemma ValuesTail(lang: Lang, elements: seq<string>, scope: Vars, depth: nat, vs: seq<Value>)
    requires elements != [] && Values(lang, elements, scope, depth, vs)
    ensures Meaning(lang, elements[0], scope, depth + 1) == Some(vs[0]) && Values(lang, elements[1..], scope, depth, vs[1..])
  {
    hide Meaning;
  }

  /** A list loop that succeeds has paid for its first element and evaluated it. */
  lemma ElementPaid(lang: Lang, elements: seq<string>, scope: Vars, depth: nat, acc: Loop)
    requires depth <= MAX_DEPTH && acc.ok && elements != [] && EvalElements(lang, elements, scope, depth, acc).ok
    ensures acc.budget >= 1 && Eval(lang, elements[0], scope, depth + 1, acc.budget - 1).result.Some?
    ensures EvalElements(lang, elements[1..], scope, depth, After(acc, Eval(lang, elements[0], scope, depth + 1, acc.budget - 1)))
            == EvalElements(lang, elements, scope, depth, acc)
  {
    hide Eval;
  }

  lemma {:induction false} ElementsMean(lang: Lang, elements: seq<string>, scope: Vars, depth: nat, acc: Loop) returns (vs: seq<Value>)
    requires WellBehaved(lang) && depth <= MAX_DEPTH && acc.ok && acc.budget >= 0
    requires EvalElements(lang, elements, scope, depth, acc).ok
    ensures EvalElements(lang, elements, scope, depth, acc).items == acc.items + vs && Values(lang, elements, scope, depth, vs)
    decreases |elements|
  {
    hide *;
    if elements == [] {
      vs := [];
      ElementsNone(lang, scope, depth, acc);
      assert acc.items + [] == acc.items;
    } else {
      var o, next := ElementRuns(lang, elements, scope, depth, acc);
      var later := ElementsMean(lang, elements[1..], scope, depth, next);
      vs := [o] + later;
      ValuesCons(lang, elements, scope, depth, o, later);
      assert acc.items + [o] + later == acc.items + vs;
    }
  }

  lemma ElementsNone(lang: Lang, scope: Vars, depth: nat, acc: Loop)
    requires depth <= MAX_DEPTH
    ensures EvalElements(lang, [], scope, depth, acc) == acc && Values(lang, [], scope, depth, [])
  {
  }

  /** The value of the first element, and the loop after it. */
  lemma ElementRuns(lang: Lang, elements: seq<string>, scope: Vars, depth: nat, acc: Loop) returns (v: Value, next: Loop)
    requires WellBehaved(lang) && depth <= MAX_DEPTH && acc.ok && acc.budget >= 0 && elements != []
    requires EvalElements(lang, elements, scope, depth, acc).ok
    ensures Meaning(lang, elements[0], scope, depth + 1) == Some(v)
    ensures next.ok && next.budget >= 0 && next.items == acc.items + [v]
    ensures EvalElements(lang, elements[1..], scope, depth, next) == EvalElements(lang, elements, scope, depth, acc)
  {
    hide Eval, EvalElements, Meaning, Bound, Spent, Thrifty, Uniform;
    ElementPaid(lang, elements, scope, depth, acc);
    var o := Eval(lang, elements[0], scope, depth + 1, acc.budget - 1);
    EvalWork(lang, elements[0], scope, depth + 1, acc.budget - 1);
    MeaningIs(lang, elements[0], scope, depth + 1, acc.budget - 1);
    v, next := o.result.value, After(acc, o);
  }

  lemma {:induction false} ElementsSucceed(lang: Lang, elements: seq<string>, scope: Vars, depth: nat, vs: seq<Value>) returns (b: nat)
    requires WellBehaved(lang) && depth <= MAX_DEPTH && Values(lang, elements, scope, depth, vs)
    ensures forall acc: Loop | acc.ok && acc.budget >= b :: EvalElements(lang, elements, scope, depth, acc).ok
    decreases |elements|
  {
    b := 0;
    if elements != [] {
      ValuesTail(lang, elements, scope, depth, vs);
      var now := EnoughFor(lang, elements[0], scope, depth + 1);
      var later := ElementsSucceed(lang, elements[1..], scope, depth, vs[1..]);
      b := 1 + now + later;
      forall acc: Loop | acc.ok && acc.budget >= b
        ensures EvalElements(lang, elements, scope, depth, acc).ok
      {
        var o := Eval(lang, elements[0], scope, depth + 1, acc.budget - 1);
        assert o.result == Meaning(lang, elements[0], scope, depth + 1) && o.budget >= acc.budget - 1 - now;
        assert After(acc, o).ok && After(acc, o).budget >= later;
      }
    }
  }

  lemma {:induction false} SameValues(lang: Lang, elements: seq<string>, scope: Vars, depth: nat, vs: seq<Value>, ws: seq<Value>)
    requires Values(lang, elements, scope, depth, vs) && Values(lang, elements, scope, depth, ws)
    ensures vs == ws
  {
    hide Meaning;
    forall i | 0 <= i < |vs|
      ensures vs[i] == ws[i]
    {
      assert Some(vs[i]) == Meaning(lang, elements[i], scope, depth + 1) == Some(ws[i]);
    }
  }

  /** A list literal has a value exactly when every element has, and then the list of theirs. */
  lemma ListIff(lang: Lang, text: string, elements: seq<string>, scope: Vars, depth: nat, v: Value)
    requires WellBehaved(lang) && depth <= MAX_DEPTH && lang.parse(text) == ListSyntax(elements)
    ensures Meaning(lang, text, scope, depth) == Some(v) <==> v.List? && Values(lang, elements, scope, depth, v.items)
  {
    if Meaning(lang, text, scope, depth) == Some(v) {
      var b := EnoughFor(lang, text, scope, depth);
      ListYields(lang, text, elements, scope, depth, v, b);
    }
    if v.List? && Values(lang, elements, scope, depth, v.items) {
      var b := ElementsSucceed(lang, elements, scope, depth, v.items);
      var start := Loop(true, [], b, 1);
      var vs := ElementsMean(lang, elements, scope, depth, start);
      assert [] + vs == vs;
      SameValues(lang, elements, scope, depth, vs, v.items);
      ListRuns(lang, text, elements, scope, depth, b);
      MeaningIs(lang, text, scope, depth, b);
    }
  }

  lemma ListRuns(lang: Lang, text: string, elements: seq<string>, scope: Vars, depth: nat, b: nat)
    requires depth <= MAX_DEPTH && lang.parse(text) == ListSyntax(elements)
    ensures Eval(lang, text, scope, depth, b) == ListOutcome(EvalElements(lang, elements, scope, depth, Loop(true, [], b, 1)))
  {
  }

  lemma ListYields(lang: Lang, text: string, elements: seq<string>, scope: Vars, depth: nat, v: Value, b: nat)
    requires WellBehaved(lang) && depth <= MAX_DEPTH && lang.parse(text) == ListSyntax(elements)
    requires Eval(lang, text, scope, depth, b).result == Some(v)
    ensures v.List? && Values(lang, elements, scope, depth, v.items)
  {
    ListRuns(lang, text, elements, scope, depth, b);
    var vs := ElementsMean(lang, elements, scope, depth, Loop(true, [], b, 1));
    assert [] + vs == vs;
  }

  // ---------------------------------------------------------------------- objects

  type Fields = seq<Option<(string, string)>>

  /** Every field is well formed, and no name is used before or twice. */
  ghost predicate Proper(fields: Fields, before: Vars) {
    && (forall i | 0 <= i < |fields| :: fields[i].Some? && fields[i].value.0 !in before)
    && (forall i, j | 0 <= i < j < |fields| :: fields[i].value.0 != fields[j].value.0)
  }

  function NamesOf(fields: Fields): (names: seq<string>)
    requires forall i | 0 <= i < |fields| :: fields[i].Some?
    ensures |names| == |fields| && forall i | 0 <= i < |fields| :: names[i] == fields[i].value.0
  {
    seq(|fields|, i requires 0 <= i < |fields| => fields[i].value.0)
  }

  /** The result holds what was there before, and each field's value under its name. */
  ghost predicate Holds(lang: Lang, fields: Fields, scope: Vars, depth: nat, before: Vars, after: Vars) {
    && (forall i | 0 <= i < |fields| :: fields[i].Some?)
    && (forall name :: name in after <==> name in before || name in NamesOf(fields))
    && (forall name | name in before :: name in after && (name !in NamesOf(fields) ==> after[name] == before[name]))
    && (forall i | 0 <= i < |fields| :: Meaning(lang, fields[i].value.1, scope, depth + 1) == Some(after[fields[i].value.0]))
  }

  lemma ProperTail(fields: Fields, before: Vars, v: Value)
    requires fields != []
    ensures Proper(fields, before) <==>
              fields[0].Some? && fields[0].value.0 !in before && Proper(fields[1..], before[fields[0].value.0 := v])
  {
    var rest := fields[1..];
    if fields[0].Some? && fields[0].value.0 !in before && Proper(rest, before[fields[0].value.0 := v]) {
      forall i | 0 <= i < |fields|
        ensures fields[i].Some? && fields[i].value.0 !in before && (i > 0 ==> fields[i].value.0 != fields[0].value.0)
      {
        assert i > 0 ==> fields[i] == rest[i - 1];
      }
      forall i, j | 0 <= i < j < |fields|
        ensures fields[i].value.0 != fields[j].value.0
      {
        assert fields[j] == rest[j - 1];
        if i > 0 {
          assert fields[i] == rest[i - 1];
        }
      }
    }
  }

  lemma HoldsCons(lang: Lang, fields: Fields, scope: Vars, depth: nat, before: Vars, v: Value, after: Vars)
    requires fields != [] && Proper(fields, before) && Meaning(lang, fields[0].value.1, scope, depth + 1) == Some(v)
    requires Holds(lang, fields[1..], scope, depth, before[fields[0].value.0 := v], after)
    ensures Holds(lang, fields, scope, depth, before, after)
  {
    hide Meaning;
    var rest, name := fields[1..], fields[0].value.0;
    NamesCons(fields);
    assert name !in NamesOf(rest);
    forall i | 0 <= i < |fields|
      ensures Meaning(lang, fields[i].value.1, scope, depth + 1) == Some(after[fields[i].value.0])
    {
      assert i > 0 ==> fields[i] == rest[i - 1];
    }
  }

  lemma {:induction false} FieldsMean(lang: Lang, fields: Fields, scope: Vars, depth: nat, acc: FieldLoop)
    requires WellBehaved(lang) && depth <= MAX_DEPTH && acc.ok && acc.budget >= 0
    requires EvalFields(lang, fields, scope, depth, acc).ok
    ensures var end := EvalFields(lang, fields, scope, depth, acc);
            Proper(fields, acc.fields) && end.order == acc.order + NamesOf(fields) && Holds(lang, fields, scope, depth, acc.fields, end.fields)
    decreases |fields|
  {
    if fields != [] {
      hide Meaning, Eval, EvalFields, Holds, Proper, Bound, Spent, Thrifty, Uniform;
      FieldPaid(lang, fields, scope, depth, acc);
      var name, text := fields[0].value.0, fields[0].value.1;
      var o := Eval(lang, text, scope, depth + 1, acc.budget - 1);
      EvalWork(lang, text, scope, depth + 1, acc.budget - 1);
      MeaningIs(lang, text, scope, depth + 1, acc.budget - 1);
      FieldsMean(lang, fields[1..], scope, depth, AfterField(acc, name, o));
      FieldMeans(lang, fields, scope, depth, acc, o.result.value, EvalFields(lang, fields[1..], scope, depth, AfterField(acc, name, o)));
    }
  }

  /** One field in front of others that have been dealt with. */
  lemma FieldMeans(lang: Lang, fields: Fields, scope: Vars, depth: nat, acc: FieldLoop, v: Value, end: FieldLoop)
    requires fields != [] && fields[0].Some? && fields[0].value.0 !in acc.fields && Meaning(lang, fields[0].value.1, scope, depth + 1) == Some(v)
    requires var name, rest := fields[0].value.0, fields[1..];
             && Proper(rest, acc.fields[name := v]) && (forall i | 0 <= i < |rest| :: rest[i].Some?)
             && end.order == acc.order + [name] + NamesOf(rest) && Holds(lang, rest, scope, depth, acc.fields[name := v], end.fields)
    ensures Proper(fields, acc.fields) && (forall i | 0 <= i < |fields| :: fields[i].Some?)
    ensures end.order == acc.order + NamesOf(fields) && Holds(lang, fields, scope, depth, acc.fields, end.fields)
  {
    hide *;
    ProperTail(fields, acc.fields, v);
    HoldsCons(lang, fields, scope, depth, acc.fields, v, end.fields);
    AllProper(fields, acc.fields);
    NamesCons(fields);
    assert acc.order + [fields[0].value.0] + NamesOf(fields[1..]) == acc.order + NamesOf(fields);
  }

  lemma NamesCons(fields: Fields)
    requires fields != [] && forall i | 0 <= i < |fields| :: fields[i].Some?
    ensures NamesOf(fields) == [fields[0].value.0] + NamesOf(fields[1..])
  {
  }

  lemma AllProper(fields: Fields, before: Vars)
    requires Proper(fields, before)
    ensures forall i | 0 <= i < |fields| :: fields[i].Some?
  {
  }

  lemma {:induction false} FieldsSucceed(lang: Lang, fields: Fields, scope: Vars, depth: nat, before: Vars) returns (b: nat)
    requires WellBehaved(lang) && depth <= MAX_DEPTH && Proper(fields, before)
    requires forall i | 0 <= i < |fields| :: Meaning(lang, fields[i].value.1, scope, depth + 1).Some?
    ensures forall acc: FieldLoop | acc.ok && acc.budget >= b && acc.fields.Keys == before.Keys :: EvalFields(lang, fields, scope, depth, acc).ok
    decreases |fields|
  {
    b := 0;
    if fields != [] {
      var name, text := fields[0].value.0, fields[0].value.1;
      var v := Meaning(lang, text, scope, depth + 1).value;
      ProperTail(fields, before, v);
      var now := EnoughFor(lang, text, scope, depth + 1);
      var later := FieldsSucceed(lang, fields[1..], scope, depth, before[name := v]);
      b := 1 + now + later;
      forall acc: FieldLoop | acc.ok && acc.budget >= b && acc.fields.Keys == before.Keys
        ensures EvalFields(lang, fields, scope, depth, acc).ok
      {
        var o := Eval(lang, text, scope, depth + 1, acc.budget - 1);
        assert o.result == Some(v) && o.budget >= acc.budget - 1 - now;
        var next := AfterField(acc, name, o);
        assert name !in acc.fields && next.ok && next.budget >= later && next.fields.Keys == before[name := v].Keys;
        FieldStep(lang, fields, scope, depth, acc);
      }
    }
  }

  /** The object of these fields: their names in order, each with its value. */
  ghost predicate IsObject(lang: Lang, fields: Fields, scope: Vars, depth: nat, v: Value) {
    && v.Object? && Proper(fields, map[]) && v.order == NamesOf(fields)
    && Holds(lang, fields, scope, depth, map[], v.fields)
  }

  /**
   An object literal has a value exactly when its fields are well formed, under distinct names, and
   every field's text has a value.
   */
  lemma ObjectIff(lang: Lang, text: string, fields: Fields, scope: Vars, depth: nat, v: Value)
    requires WellBehaved(lang) && depth <= MAX_DEPTH && lang.parse(text) == ObjectSyntax(fields)
    ensures Meaning(lang, text, scope, depth) == Some(v) <==> IsObject(lang, fields, scope, depth, v)
  {
    var none: Vars := map[];
    if Meaning(lang, text, scope, depth) == Some(v) {
      var b := EnoughFor(lang, text, scope, depth);
      ObjectYields(lang, text, fields, scope, depth, v, b);
    }
    if IsObject(lang, fields, scope, depth, v) {
      var b := FieldsSucceed(lang, fields, scope, depth, none);
      var start := FieldLoop(true, [], none, b, 1);
      ObjectRuns(lang, text, fields, scope, depth, b);
      FieldsMean(lang, fields, scope, depth, start);
      var end := EvalFields(lang, fields, scope, depth, start);
      assert [] + NamesOf(fields) == NamesOf(fields);
      SameObject(lang, fields, scope, depth, end.fields, v.fields);
      MeaningIs(lang, text, scope, depth, b);
    }
  }

  lemma SameObject(lang: Lang, fields: Fields, scope: Vars, depth: nat, a: Vars, b: Vars)
    requires Holds(lang, fields, scope, depth, map[], a) && Holds(lang, fields, scope, depth, map[], b)
    ensures a == b
  {
    hide Meaning;
    forall name | name in a
      ensures name in b && a[name] == b[name]
    {
      var i :| 0 <= i < |fields| && fields[i].value.0 == name;
      assert Some(a[name]) == Meaning(lang, fields[i].value.1, scope, depth + 1) == Some(b[name]);
    }
    assert a.Keys == b.Keys;
  }

  lemma ObjectRuns(lang: Lang, text: string, fields: Fields, scope: Vars, depth: nat, b: nat)
    requires depth <= MAX_DEPTH && lang.parse(text) == ObjectSyntax(fields)
    ensures Eval(lang, text, scope, depth, b) == ObjectOutcome(EvalFields(lang, fields, scope, depth, FieldLoop(true, [], map[], b, 1)))
  {
  }

  lemma ObjectYields(lang: Lang, text: string, fields: Fields, scope: Vars, depth: nat, v: Value, b: nat)
    requires WellBehaved(lang) && depth <= MAX_DEPTH && lang.parse(text) == ObjectSyntax(fields)
    requires Eval(lang, text, scope, depth, b).result == Some(v)
    ensures IsObject(lang, fields, scope, depth, v)
  {
    ObjectRuns(lang, text, fields, scope, depth, b);
    FieldsMean(lang, fields, scope, depth, FieldLoop(true, [], map[], b, 1));
    assert [] + NamesOf(fields) == NamesOf(fields);
  }

  // -------------------------------------------------------------- what is turned down

  /** One literal name, or two different ones, bind variables; anything else is a syntax error. */
  lemma VarsIff(parts: seq<string>)
    requires parts != [] && Parts(parts)
    ensures ParseVars(Join(parts, ", "))
            == if |parts| == 1 && IsLiteralName(parts[0]) then Some((parts[0], ""))
               else if |parts| == 2 && IsLiteralName(parts[0]) && IsLiteralName(parts[1]) && parts[0] != parts[1] then Some((parts[0], parts[1]))
               else None
  {
    hide SplitTop, IsLiteralName;
    SplitUndoesJoin(parts);
    assert Part(parts[|parts| - 1]);
  }

  lemma {:induction false} NoByte(s: Scan, text: string, c: char)
    requires Quiet(s, text, c)
    ensures IndexByte(s, text, c) == -1
    decreases |text|
  {
    if text != "" {
      NoByte(Step(s, text[0]).0, text[1..], c);
    }
  }

  /** A field is a literal name, the first top-level colon, and a value that is not blank. */
  lemma FieldIff(name: string, value: string)
    requires Closed(name) && Quiet(INIT, name, ':')
    ensures ParseField(name) == None
    ensures ParseField(name + ":" + value)
            == if IsLiteralName(TrimSpace(name)) && TrimSpace(value) != "" then Some((TrimSpace(name), TrimSpace(value))) else None
  {
    hide IsLiteralName, TrimSpace;
    NoByte(INIT, name, ':');
    var text := name + [':'] + value;
    assert name + ":" + value == text;
    IndexByteQuiet(INIT, name, ':', value);
    assert text[..|name|] == name && text[|name| + 1..] == value;
  }
}
