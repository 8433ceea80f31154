/**
 Comprehensions from text to value: the text of a comprehension is recognised as what was written,
 and evaluates to filter-then-map over its source, with each iteration in a scope of its own.
 */
module BuildComprehension {
  import opened Text
  import opened BuildScanner
  import opened BuildEval
  import opened BuildMeaning
  import opened BuildRoundTrip

  // ------------------------------------------------------------- strings are closed

  const IN_STRING := Scan(0, true, false, false)
  const IN_RAW_STRING := Scan(0, false, false, true)

  /** The content of a quoted string: no bare quote, and no backslash but before a character it escapes. */
  predicate Content(text: string)
    decreases |text|
  {
    text == ""
    || (text[0] == '\\' && |text| >= 2 && Content(text[2..]))
    || (text[0] != '\\' && text[0] != '"' && Content(text[1..]))
  }

  lemma {:induction false} ContentScans(text: string, c: char)
    requires Content(text)
    ensures Run(IN_STRING, text) == IN_STRING && NoDip(IN_STRING, text) && Quiet(IN_STRING, text, c)
    decreases |text|
  {
    if text == "" {
    } else if text[0] == '\\' {
      assert text[1..][1..] == text[2..];
      ContentScans(text[2..], c);
    } else {
      ContentScans(text[1..], c);
    }
  }

  /** Whatever stands in a quoted string, brackets and keywords included, is never at top level. */
  lemma QuotedIsClosed(text: string, c: char)
    requires Content(text)
    ensures Closed("\"" + text + "\"") && Quiet(INIT, "\"" + text + "\"", c)
  {
    var whole, rest := "\"" + text + "\"", text + "\"";
    assert whole[1..] == rest && "\""[1..] == "";
    ContentScans(text, c);
    RunAppend(IN_STRING, text, "\"");
    NoDipAppend(IN_STRING, text, "\"");
    QuietAppend(IN_STRING, text, "\"", c);
    assert Step(INIT, '"') == (IN_STRING, false) && Step(IN_STRING, '"') == (INIT, false);
  }

  lemma {:induction false} RawScans(text: string, c: char)
    requires '`' !in text
    ensures Run(IN_RAW_STRING, text) == IN_RAW_STRING && NoDip(IN_RAW_STRING, text) && Quiet(IN_RAW_STRING, text, c)
    decreases |text|
  {
    if text != "" {
      RawScans(text[1..], c);
    }
  }

  /** The same for raw strings, in which nothing is escaped. */
  lemma RawIsClosed(text: string, c: char)
    requires '`' !in text
    ensures Closed("`" + text + "`") && Quiet(INIT, "`" + text + "`", c)
  {
    var whole, rest := "`" + text + "`", text + "`";
    assert whole[1..] == rest && "`"[1..] == "";
    RawScans(text, c);
    RunAppend(IN_RAW_STRING, text, "`");
    NoDipAppend(IN_RAW_STRING, text, "`");
    QuietAppend(IN_RAW_STRING, text, "`", c);
    assert Step(INIT, '`') == (IN_RAW_STRING, false) && Step(IN_RAW_STRING, '`') == (INIT, false);
  }

  // ---------------------------------------------------------- top-level words

  /** No top-level space of the text is followed by the word and another space, or by the word at the end. */
  predicate WordFree(s: Scan, text: string, word: string)
    decreases |text|
  {
    text == ""
    || (!(Step(s, text[0]).1 && text[0] == ' ' && HasPrefix(text[1..] + " ", word + " ")) && WordFree(Step(s, text[0]).0, text[1..], word))
  }

  /** A text that can stand before a keyword: closed, trimmed, and without that word at top level. */
  predicate Phrase(text: string, word: string) {
    text != "" && Trimmed(text) && Closed(text) && WordFree(INIT, text, word)
  }

  /** A word cannot begin within a phrase and end behind it. */
  lemma WordBoundary(text: string, word: string, rest: string)
    requires word != "" && ' ' !in word
    ensures HasPrefix(text + " " + rest, word + " ") <==> HasPrefix(text + " ", word + " ")
  {
    var whole := text + " " + rest;
    assert whole == (text + " ") + rest;
    if |text| < |word| {
      assert whole[|text|] == ' ' && word[|text|] != ' ' && (word + " ")[|text|] == word[|text|];
    } else {
      assert whole[..|word| + 1] == (text + " ")[..|word| + 1];
    }
  }

  lemma {:induction false} IndexWordAfter(s: Scan, text: string, word: string, rest: string)
    requires word != "" && ' ' !in word
    requires WordFree(s, text, word) && Run(s, text) == INIT
    ensures IndexWord(s, text + " " + (word + " " + rest), word) == |text| + 1
    decreases |text|
  {
    var tail := word + " " + rest;
    var whole := text + " " + tail;
    if text == "" {
      assert whole[0] == ' ' && whole[1..] == tail;
      assert Step(INIT, ' ') == (INIT, true);
      assert tail[..|word| + 1] == word + " ";
    } else {
      assert whole[0] == text[0] && whole[1..] == text[1..] + " " + tail;
      WordBoundary(text[1..], word, tail);
      IndexWordAfter(Step(s, text[0]).0, text[1..], word, rest);
    }
  }

  lemma {:induction false} IndexWordNone(s: Scan, text: string, word: string)
    requires WordFree(s, text, word)
    ensures IndexWord(s, text, word) < 0
    decreases |text|
  {
    if text != "" {
      if HasPrefix(text[1..], word + " ") {
        assert HasPrefix(text[1..] + " ", word + " ");
      }
      IndexWordNone(Step(s, text[0]).0, text[1..], word);
    }
  }

  // ---------------------------------------------------------- the text of a comprehension

  function VarsText(c: Comprehension): string {
    if c.indexVar == "" then c.itemVar else c.itemVar + ", " + c.indexVar
  }

  function SourceText(c: Comprehension): string {
    if c.cond == "" then c.source else c.source + " if " + c.cond
  }

  /** [template for item, index in source if filter], index and filter being optional. */
  function PrintComprehension(c: Comprehension): string {
    "[" + c.template + " for " + VarsText(c) + " in " + SourceText(c) + "]"
  }

  /** Template and source are phrases, the variables are two different names, and nothing is a keyword out of place. */
  predicate Writable(c: Comprehension) {
    && Phrase(c.template, "for") && Phrase(c.source, "if") && Trimmed(c.cond)
    && IsLiteralName(c.itemVar)
    && (c.indexVar != "" ==> IsLiteralName(c.indexVar) && c.indexVar != c.itemVar && c.indexVar != "in")
  }

  lemma {:induction false} NameIsWordFree(name: string, word: string)
    requires forall i | 0 <= i < |name| :: NameChar(name[i])
    ensures WordFree(INIT, name, word)
  {
    if name != "" {
      assert NameChar(name[0]);
      assert forall i | 0 <= i < |name[1..]| :: name[1..][i] == name[i + 1];
      NameIsWordFree(name[1..], word);
      assert Step(INIT, name[0]) == (INIT, true);
    }
  }

  lemma {:induction false} WordFreeAppend(s: Scan, name: string, text: string, word: string)
    requires forall i | 0 <= i < |name| :: NameChar(name[i])
    requires s == INIT && WordFree(INIT, text, word)
    ensures WordFree(s, name + text, word)
    decreases |name|
  {
    if name == "" {
      assert name + text == text;
    } else {
      assert NameChar(name[0]) && Step(INIT, name[0]) == (INIT, true);
      assert (name + text)[1..] == name[1..] + text;
      assert forall i | 0 <= i < |name[1..]| :: name[1..][i] == name[i + 1];
      WordFreeAppend(INIT, name[1..], text, word);
    }
  }

  /** The variables can stand before "in", and are read back. */
  lemma VarsParse(c: Comprehension)
    requires Writable(c)
    ensures Phrase(VarsText(c), "in") && ParseVars(VarsText(c)) == Some((c.itemVar, c.indexVar))
  {
    NamePart(c.itemVar);
    NameIsPlain(c.itemVar);
    if c.indexVar == "" {
      NameIsWordFree(c.itemVar, "in");
      SplitNothing(INIT, c.itemVar, ',');
      TrimSpaceTrims(c.itemVar);
      TrimOne(c.itemVar, []);
    } else {
      TwoVars(c.itemVar, c.indexVar);
    }
  }

  lemma NamePart(name: string)
    requires IsLiteralName(name)
    ensures Part(name)
  {
    NameIsPlain(name);
    NameScans(name, ',');
  }

  lemma TwoVars(item: string, index: string)
    requires IsLiteralName(item) && IsLiteralName(index) && index != item && index != "in"
    ensures Phrase(item + ", " + index, "in") && ParseVars(item + ", " + index) == Some((item, index))
  {
    hide Closed, Quiet, SplitTop, WordFree, TrimSpace, IsLiteralName;
    var parts := [item, index];
    NamePart(item);
    NamePart(index);
    assert parts[1..] == [index] && item + ", " + index == Join(parts, ", ");
    SplitUndoesJoin(parts);
    JoinParts(parts);
    TwoWordFree(item, index);
  }

  lemma TwoWordFree(item: string, index: string)
    requires IsLiteralName(item) && IsLiteralName(index) && index != "in"
    ensures WordFree(INIT, item + ", " + index, "in")
  {
    hide WordFree, IsLiteralName;
    NameIsPlain(item);
    CommaIndexWordFree(index);
    WordFreeAppend(INIT, item, ", " + index, "in");
    assert item + ", " + index == item + (", " + index);
  }

  lemma CommaIndexWordFree(index: string)
    requires IsLiteralName(index) && index != "in"
    ensures WordFree(INIT, ", " + index, "in")
  {
    var text := ", " + index;
    assert text[1..] == " " + index && (" " + index)[1..] == index;
    assert Step(INIT, ',') == (INIT, true) && Step(INIT, ' ') == (INIT, true);
    NameIsPlain(index);
    NameIsWordFree(index, "in");
    NotIn(index);
  }

  lemma NotIn(index: string)
    requires index != "in" && index != "" && forall i | 0 <= i < |index| :: NameChar(index[i])
    ensures !HasPrefix(index + " ", "in" + " ")
  {
    var whole, word := index + " ", "in" + " ";
    if |index| == 2 {
      assert index == [index[0], index[1]] && whole[0] == index[0] && whole[1] == index[1];
    } else if |index| > 2 {
      assert whole[2] == index[2] != ' ' && word[2] == ' ';
    }
  }

  lemma SourceParses(c: Comprehension)
    requires Writable(c)
    ensures ParseSource(c.template, (c.itemVar, c.indexVar), SourceText(c)) == Some(c)
    ensures SourceText(c) != "" && Trimmed(SourceText(c))
  {
    TrimSpaceTrims(c.source);
    TrimSpaceTrims(c.cond);
    if c.cond == "" {
      IndexWordNone(INIT, c.source, "if");
    } else {
      var text := c.source + " " + ("if" + " " + c.cond);
      assert SourceText(c) == text;
      IndexWordAfter(INIT, c.source, "if", c.cond);
      assert text[..|c.source| + 1] == c.source + " " && text[|c.source| + 3..] == " " + c.cond;
      TrimSpacePadded(c.source);
      TrimSpacePadded(c.cond);
    }
  }

  function BindingText(c: Comprehension): string {
    VarsText(c) + " " + ("in" + " " + SourceText(c))
  }

  lemma BindingParses(c: Comprehension)
    requires Writable(c)
    ensures ParseBinding(c.template, BindingText(c)) == Some(c)
    ensures BindingText(c) != "" && Trimmed(BindingText(c))
  {
    hide ParseVars, ParseSource, Writable, Phrase, VarsText, SourceText, IndexWord, TrimSpace;
    var vars, text := VarsText(c), BindingText(c);
    VarsParse(c);
    PhraseMeans(vars, "in");
    SourceParses(c);
    IndexWordAfter(INIT, vars, "in", SourceText(c));
    assert text[..|vars| + 1] == vars + " " && text[|vars| + 3..] == " " + SourceText(c);
    TrimSpacePadded(vars);
    TrimSpacePadded(SourceText(c));
    assert text[0] == vars[0] && text[|text| - 1] == SourceText(c)[|SourceText(c)| - 1];
  }

  function InnerText(c: Comprehension): string {
    c.template + " " + ("for" + " " + BindingText(c))
  }

  lemma InnerParses(c: Comprehension)
    requires Writable(c)
    ensures IndexWord(INIT, InnerText(c), "for") >= 0 && ParseComprehension(InnerText(c)) == Some(c)
  {
    hide ParseBinding, IndexWord, Phrase, BindingText, TrimSpace;
    var inner := InnerText(c);
    BindingParses(c);
    PhraseMeans(c.template, "for");
    IndexWordAfter(INIT, c.template, "for", BindingText(c));
    assert inner[..|c.template| + 1] == c.template + " " && inner[|c.template| + 4..] == " " + BindingText(c);
    TrimSpacePadded(c.template);
    TrimSpacePadded(BindingText(c));
  }

  lemma PhraseMeans(text: string, word: string)
    requires Phrase(text, word)
    ensures text != "" && Trimmed(text) && Run(INIT, text) == INIT && WordFree(INIT, text, word)
  {
  }

  lemma PrintedIs(c: Comprehension)
    ensures PrintComprehension(c) == "[" + InnerText(c) + "]"
  {
    var source := SourceText(c);
    assert c.template + " for " + VarsText(c) + " in " + source == InnerText(c);
  }

  /** What a comprehension prints is recognised as that comprehension. */
  lemma ParsePrintedComprehension(c: Comprehension)
    requires Writable(c)
    ensures Parse(PrintComprehension(c)) == ComprehensionSyntax(c)
  {
    hide Writable, ParseComprehension, IndexWord, InnerText, PrintComprehension;
    var text := PrintComprehension(c);
    PrintedIs(c);
    InnerParses(c);
    TrimSpaceTrims(text);
    assert text[1..|text| - 1] == InnerText(c);
  }

  // ------------------------------------------------------------------ scopes

  /**
   The scope of one iteration: the item variable holds the element, the index variable, if there
   is one, its position, and every other name what it held before.
   */
  ghost predicate IterationScope(c: Comprehension, scope: Vars, element: Value, index: nat, bound: Vars) {
    && c.itemVar in bound && bound[c.itemVar] == element
    && (c.indexVar != "" ==> c.indexVar in bound && bound[c.indexVar] == Num(index as real))
    && (forall name | name != c.itemVar && (c.indexVar == "" || name != c.indexVar) ::
          (name in bound <==> name in scope) && (name in scope ==> bound[name] == scope[name]))
  }

  /** There is exactly one such scope, and the evaluator uses it. */
  lemma BindIs(c: Comprehension, scope: Vars, element: Value, index: nat, bound: Vars)
    requires c.indexVar != c.itemVar
    ensures IterationScope(c, scope, element, index, bound) <==> bound == Bind(c, scope, element, index)
  {
    var used := Bind(c, scope, element, index);
    if IterationScope(c, scope, element, index, bound) {
      assert bound.Keys == used.Keys by {
        forall name
          ensures name in bound <==> name in used
        {
        }
      }
      assert forall name | name in bound :: bound[name] == used[name];
    }
  }

  // -------------------------------------------------------------- text to value

  /**
   From the text to its value: with enough budget the text of a comprehension yields a list if and
   only if its source yields a list, every filter is a boolean, and the list is the template mapped
   over the elements the filter keeps.
   */
  lemma TextIsFilterMap(leaf: Leaf, c: Comprehension, scope: Vars, depth: nat, vs: seq<Value>)
    requires WellBehaved(Lang(Parse, leaf)) && depth <= MAX_DEPTH && Writable(c)
    ensures var lang := Lang(Parse, leaf);
            Meaning(lang, PrintComprehension(c), scope, depth) == Some(List(vs)) <==>
              exists items :: Meaning(lang, c.source, scope, depth + 1) == Some(List(items))
                && FilterMaps(lang, c, scope, depth, Enumerate(items, 0), vs)
  {
    var lang := Lang(Parse, leaf);
    var text := PrintComprehension(c);
    ParsePrintedComprehension(c);
    assert lang.parse(text) == ComprehensionSyntax(c);
    if Meaning(lang, text, scope, depth) == Some(List(vs)) {
      TextYields(lang, c, text, scope, depth, vs);
    }
    if items :| Meaning(lang, c.source, scope, depth + 1) == Some(List(items)) && FilterMaps(lang, c, scope, depth, Enumerate(items, 0), vs) {
      YieldsText(lang, c, text, scope, depth, items, vs);
    }
  }

  lemma EvalRecognised(lang: Lang, c: Comprehension, text: string, scope: Vars, depth: nat, b: int)
    requires depth <= MAX_DEPTH && lang.parse(text) == ComprehensionSyntax(c)
    ensures Eval(lang, text, scope, depth, b) == EvalComprehension(lang, c, scope, depth, b)
  {
  }

  lemma TextYields(lang: Lang, c: Comprehension, text: string, scope: Vars, depth: nat, vs: seq<Value>)
    requires WellBehaved(lang) && depth <= MAX_DEPTH && lang.parse(text) == ComprehensionSyntax(c)
    requires Meaning(lang, text, scope, depth) == Some(List(vs))
    ensures exists items :: Meaning(lang, c.source, scope, depth + 1) == Some(List(items))
              && FilterMaps(lang, c, scope, depth, Enumerate(items, 0), vs)
  {
    hide FilterMaps, Iterate, Eval;
    assert HasValue(lang, text, scope, depth);
    var b: nat :| Eval(lang, text, scope, depth, b).result.Some?;
    MeaningIs(lang, text, scope, depth, b);
    EvalRecognised(lang, c, text, scope, depth, b);
    var source := Eval(lang, c.source, scope, depth + 1, b);
    EvalWork(lang, c.source, scope, depth + 1, b);
    MeaningIs(lang, c.source, scope, depth + 1, b);
    ComprehensionRefines(lang, c, source.result.value.items, scope, depth, source.budget, source.calls + 1);
  }

  lemma YieldsText(lang: Lang, c: Comprehension, text: string, scope: Vars, depth: nat, items: seq<Value>, vs: seq<Value>)
    requires WellBehaved(lang) && depth <= MAX_DEPTH && lang.parse(text) == ComprehensionSyntax(c)
    requires Meaning(lang, c.source, scope, depth + 1) == Some(List(items)) && FilterMaps(lang, c, scope, depth, Enumerate(items, 0), vs)
    ensures Meaning(lang, text, scope, depth) == Some(List(vs))
  {
    hide FilterMaps, Iterate, Eval;
    var forSource := EnoughFor(lang, c.source, scope, depth + 1);
    var forLoop := IterateSucceeds(lang, c, items, 0, scope, depth, vs);
    var b := forSource + forLoop;
    var source := Eval(lang, c.source, scope, depth + 1, b);
    assert source.result == Some(List(items)) && source.budget >= forLoop;
    var end := Iterate(lang, c, items, 0, scope, depth, Loop(true, [], source.budget, source.calls + 1));
    assert end.ok;
    ComprehensionRefines(lang, c, items, scope, depth, source.budget, source.calls + 1);
    SameFilterMap(lang, c, scope, depth, Enumerate(items, 0), end.items, vs);
    EvalRecognised(lang, c, text, scope, depth, b);
    MeaningIs(lang, text, scope, depth, b);
  }

  lemma SameFilterMap(lang: Lang, c: Comprehension, scope: Vars, depth: nat, ps: seq<Indexed>, a: seq<Value>, b: seq<Value>)
    requires FilterMaps(lang, c, scope, depth, ps, a) && FilterMaps(lang, c, scope, depth, ps, b)
    ensures a == b
  {
    SomesInjective(a, b);
  }

  // --------------------------------------------------------------- element lists

  /** One trailing comma is tolerated. */
  lemma TrailingComma(parts: seq<string>)
    requires parts != [] && Parts(parts)
    ensures SplitLiteralElements(Join(parts, ", ") + ",") == Some(parts)
  {
    var text := Join(parts, ", ");
    JoinParts(parts);
    SplitUndoesJoin(parts);
    SplitBefore(INIT, text, "");
    assert text + "," + "" == text + ",";
    NotBlank(text, ",");
    TrimAllAppend(SplitTop(INIT, text, ','), [""]);
    assert TrimSpace("") == "" && TrimAll([""]) == [""];
    assert TrimAll(SplitTop(INIT, text + ",", ',')) == parts + [""];
    assert Part(parts[|parts| - 1]);
    assert (parts + [""])[..|parts|] == parts;
  }

  /** An empty element anywhere else is an error. */
  lemma EmptyElement(before: seq<string>, after: seq<string>)
    requires before != [] && Parts(before) && after != [] && Parts(after)
    ensures SplitLiteralElements(Join(before, ", ") + ",," + Join(after, ", ")).None?
  {
    hide SplitTop, TrimAll, TrimSpace, Part;
    var a, b := Join(before, ", "), Join(after, ", ");
    JoinParts(before);
    NotBlank(a, ",," + b);
    assert a + ",," + b == a + (",," + b);
    EmptyBetween(before, after);
    var all := before + ([""] + after);
    assert all[|before|] == "" && all[|all| - 1] == after[|after| - 1];
    PartNotEmpty(after[|after| - 1]);
    assert "" in all;
  }

  lemma PartNotEmpty(p: string)
    requires Part(p)
    ensures p != ""
  {
  }

  lemma EmptyBetween(before: seq<string>, after: seq<string>)
    requires before != [] && Parts(before) && after != [] && Parts(after)
    ensures TrimAll(SplitTop(INIT, Join(before, ", ") + ",," + Join(after, ", "), ',')) == before + ([""] + after)
  {
    hide SplitTop, TrimAll, TrimSpace, Parts, Closed;
    var a, b := Join(before, ", "), Join(after, ", ");
    JoinParts(before);
    SplitUndoesJoin(before);
    SplitUndoesJoin(after);
    assert a + ",," + b == a + "," + ("," + b);
    ClosedRuns(a);
    SplitBefore(INIT, a, "," + b);
    EmptyFirst(b);
    var rest := [""] + SplitTop(INIT, b, ',');
    TrimAllAppend(SplitTop(INIT, a, ','), rest);
    TrimOne("", SplitTop(INIT, b, ','));
    BlankTrims();
  }

  lemma ClosedRuns(text: string)
    requires Closed(text)
    ensures Run(INIT, text) == INIT
  {
  }

  lemma BlankTrims()
    ensures TrimSpace("") == ""
  {
  }

  lemma EmptyFirst(text: string)
    ensures SplitTop(INIT, "," + text, ',') == [""] + SplitTop(INIT, text, ',')
  {
    assert ("," + text)[1..] == text && Step(INIT, ',') == (INIT, true);
  }

  lemma NotBlank(text: string, rest: string)
    requires text != "" && Trimmed(text)
    ensures TrimSpace(text + rest) != ""
  {
    assert (text + rest)[0] == text[0] && !IsSpace(text[0]);
    assert TrimLeft(text + rest) == text + rest;
    TrimRightKeeps(text + rest);
  }

  lemma {:induction false} TrimRightKeeps(text: string)
    requires text != "" && !IsSpace(text[0])
    ensures TrimRight(text) != ""
  {
    if IsSpace(text[|text| - 1]) {
      TrimRightKeeps(text[..|text| - 1]);
    }
  }

  /** Splitting a closed text followed by a comma. */
  lemma {:induction false} SplitBefore(s: Scan, text: string, rest: string)
    requires Run(s, text) == INIT
    ensures SplitTop(s, text + "," + rest, ',') == SplitTop(s, text, ',') + SplitTop(INIT, rest, ',')
    decreases |text|
  {
    var whole := text + "," + rest;
    if text == "" {
      assert whole[0] == ',' && whole[1..] == rest && Step(INIT, ',') == (INIT, true);
    } else {
      assert whole[0] == text[0] && whole[1..] == text[1..] + "," + rest;
      SplitBefore(Step(s, text[0]).0, text[1..], rest);
    }
  }

  lemma {:induction false} TrimAllAppend(a: seq<string>, b: seq<string>)
    ensures TrimAll(a + b) == TrimAll(a) + TrimAll(b)
  {
    if a == [] {
      assert a + b == b;
    } else {
      assert (a + b)[1..] == a[1..] + b;
      TrimAllAppend(a[1..], b);
    }
  }
}
