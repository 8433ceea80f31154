/**
 Printing a tree of lists and objects and evaluating the text gives the tree back: the splitter
 undoes the join, the parser recognises what the printer wrote, and the evaluator rebuilds the
 value whenever the tree is within the depth limit and the budget, and only then.
 */
module BuildRoundTrip {
  import opened Text
  import opened BuildScanner
  import opened BuildEval

  // ----------------------------------------------------------- scanner algebra

  /** No occurrence of c in the text is at top level. */
  predicate Quiet(s: Scan, text: string, c: char)
    decreases |text|
  {
    text == "" || (!(Step(s, text[0]).1 && text[0] == c) && Quiet(Step(s, text[0]).0, text[1..], c))
  }

  /** A closing bracket outside strings that has nothing to close. */
  predicate Dips(s: Scan, c: char) {
    !s.escaped && !s.inRawString && !s.inString && Closes(c) && s.depth == 0
  }

  predicate NoDip(s: Scan, text: string)
    decreases |text|
  {
    text == "" || (!Dips(s, text[0]) && NoDip(Step(s, text[0]).0, text[1..]))
  }

  /** Brackets and strings closed within the text itself. */
  predicate Closed(text: string) {
    NoDip(INIT, text) && Run(INIT, text) == INIT
  }

  lemma {:induction false} RunAppend(s: Scan, a: string, b: string)
    ensures Run(s, a + b) == Run(Run(s, a), b)
    decreases |a|
  {
    if a == "" {
      assert a + b == b;
    } else {
      assert (a + b)[1..] == a[1..] + b;
      RunAppend(Step(s, a[0]).0, a[1..], b);
    }
  }

  lemma {:induction false} NoDipAppend(s: Scan, a: string, b: string)
    requires NoDip(s, a) && NoDip(Run(s, a), b)
    ensures NoDip(s, a + b)
    decreases |a|
  {
    if a == "" {
      assert a + b == b;
    } else {
      assert (a + b)[1..] == a[1..] + b;
      NoDipAppend(Step(s, a[0]).0, a[1..], b);
    }
  }

  lemma {:induction false} QuietAppend(s: Scan, a: string, b: string, c: char)
    requires Quiet(s, a, c) && Quiet(Run(s, a), b, c)
    ensures Quiet(s, a + b, c)
    decreases |a|
  {
    if a == "" {
      assert a + b == b;
    } else {
      assert (a + b)[1..] == a[1..] + b;
      QuietAppend(Step(s, a[0]).0, a[1..], b, c);
    }
  }

  function Up(s: Scan): Scan {
    s.(depth := s.depth + 1)
  }

  /** One bracket further in, a text without dips scans the same way and nothing in it is top level. */
  lemma {:induction false} Lift(s: Scan, text: string, c: char)
    requires NoDip(s, text)
    ensures Run(Up(s), text) == Up(Run(s, text))
    ensures NoDip(Up(s), text) && Quiet(Up(s), text, c)
    decreases |text|
  {
    if text != "" {
      Lift(Step(s, text[0]).0, text[1..], c);
      assert Step(Up(s), text[0]) == (Up(Step(s, text[0]).0), false);
    }
  }

  lemma ClosedAppend(a: string, b: string)
    requires Closed(a) && Closed(b)
    ensures Closed(a + b)
    ensures forall c | Quiet(INIT, a, c) && Quiet(INIT, b, c) :: Quiet(INIT, a + b, c)
  {
    NoDipAppend(INIT, a, b);
    RunAppend(INIT, a, b);
    forall c | Quiet(INIT, a, c) && Quiet(INIT, b, c)
      ensures Quiet(INIT, a + b, c)
    {
      QuietAppend(INIT, a, b, c);
    }
  }

  /** Bracketing a closed text gives a closed text with nothing at top level. */
  lemma Wrap(open: char, inner: string, close: char, c: char)
    requires Opens(open) && Closes(close) && Closed(inner)
    ensures Closed([open] + inner + [close]) && Quiet(INIT, [open] + inner + [close], c)
  {
    var text := [open] + inner + [close];
    var rest := inner + [close];
    assert text[1..] == rest;
    Lift(INIT, inner, c);
    assert Run(Up(INIT), inner) == Up(INIT);
    assert [close][1..] == "";
    assert NoDip(Up(INIT), [close]) && Quiet(Up(INIT), [close], c);
    NoDipAppend(Up(INIT), inner, [close]);
    QuietAppend(Up(INIT), inner, [close], c);
    RunAppend(Up(INIT), inner, [close]);
    assert Step(INIT, open) == (Up(INIT), false);
    assert Step(Up(INIT), close) == (INIT, false);
    assert Run(Up(INIT), [close]) == INIT;
  }

  // ------------------------------------------------------- splitting undoes join

  lemma {:induction false} SplitQuiet(s: Scan, a: string, sep: char, rest: string)
    requires Quiet(s, a, sep) && Run(s, a) == INIT && Step(INIT, sep) == (INIT, true)
    ensures SplitTop(s, a + [sep] + rest, sep) == [a] + SplitTop(INIT, rest, sep)
    decreases |a|
  {
    var text := a + [sep] + rest;
    if a == "" {
      assert text[1..] == rest;
    } else {
      assert text[1..] == a[1..] + [sep] + rest;
      SplitQuiet(Step(s, a[0]).0, a[1..], sep, rest);
      assert [a[0]] + a[1..] == a;
    }
  }

  lemma {:induction false} SplitNothing(s: Scan, a: string, sep: char)
    requires Quiet(s, a, sep)
    ensures SplitTop(s, a, sep) == [a]
    decreases |a|
  {
    if a != "" {
      SplitNothing(Step(s, a[0]).0, a[1..], sep);
      assert [a[0]] + a[1..] == a;
    }
  }

  /** What may stand between the commas of a literal. */
  predicate Part(p: string) {
    p != "" && Trimmed(p) && Closed(p) && Quiet(INIT, p, ',')
  }

  predicate Parts(ps: seq<string>) {
    forall i | 0 <= i < |ps| :: Part(ps[i])
  }

  /** splitTopLevel(join(parts)) == parts, up to the space after each comma. */
  lemma {:induction false} SplitUndoesJoin(parts: seq<string>)
    requires parts != [] && Parts(parts)
    ensures SplitTop(INIT, Join(parts, ", "), ',')[0] == parts[0]
    ensures TrimAll(SplitTop(INIT, Join(parts, ", "), ',')) == parts
  {
    var p := parts[0];
    TrimSpacePadded(p);
    if |parts| == 1 {
      SplitNothing(INIT, p, ',');
      TrimOne(p, []);
      assert parts == [p] + [];
      assert TrimAll([]) == [];
    } else {
      var tail := Join(parts[1..], ", ");
      SplitUndoesJoin(parts[1..]);
      assert p + ", " + tail == p + [','] + (" " + tail);
      SplitQuiet(INIT, p, ',', " " + tail);
      SplitPadded(tail);
      TrimOne(p, SplitTop(INIT, " " + tail, ','));
      assert parts == [p] + parts[1..];
    }
  }

  /** A space in front only pads the first part. */
  lemma SplitPadded(text: string)
    requires var first := SplitTop(INIT, text, ',')[0]; first != "" && Trimmed(first)
    ensures TrimAll(SplitTop(INIT, " " + text, ',')) == TrimAll(SplitTop(INIT, text, ','))
  {
    SplitAfterSpace(text);
    TrimPadded(SplitTop(INIT, text, ','));
  }

  lemma SplitAfterSpace(text: string)
    ensures var split := SplitTop(INIT, text, ',');
            SplitTop(INIT, " " + text, ',') == [" " + split[0]] + split[1..]
  {
    var padded := " " + text;
    assert padded[0] == ' ' && padded[1..] == text;
    assert Step(INIT, ' ') == (INIT, true);
  }

  lemma TrimPadded(split: seq<string>)
    requires split != [] && split[0] != "" && Trimmed(split[0])
    ensures TrimAll([" " + split[0]] + split[1..]) == TrimAll(split)
  {
    var first, rest := split[0], split[1..];
    assert split == [first] + rest;
    TrimOne(" " + first, rest);
    TrimOne(first, rest);
    TrimSpacePadded(first);
  }

  lemma TrimOne(first: string, rest: seq<string>)
    ensures TrimAll([first] + rest) == [TrimSpace(first)] + TrimAll(rest)
  {
    assert ([first] + rest)[1..] == rest;
  }

  lemma {:induction false} JoinParts(parts: seq<string>)
    requires Parts(parts)
    ensures Closed(Join(parts, ", "))
    ensures parts != [] ==> Trimmed(Join(parts, ", ")) && Join(parts, ", ") != "" && Join(parts, ", ")[0] == parts[0][0]
  {
    if |parts| > 1 {
      var tail := Join(parts[1..], ", ");
      JoinParts(parts[1..]);
      CommaClosed();
      ClosedAppend(parts[0], ", ");
      ClosedAppend(parts[0] + ", ", tail);
    }
  }

  lemma CommaClosed()
    ensures Closed(", ")
  {
    assert ", "[1..] == " " && " "[1..] == "";
  }

  lemma SplitElementsJoin(parts: seq<string>)
    requires Parts(parts)
    ensures SplitLiteralElements(Join(parts, ", ")) == Some(parts)
  {
    if parts == [] {
      assert TrimSpace("") == "";
    } else {
      JoinParts(parts);
      TrimSpaceTrims(Join(parts, ", "));
      SplitUndoesJoin(parts);
      assert Part(parts[|parts| - 1]);
    }
  }

  // ----------------------------------------------- a list is not a comprehension

  lemma KeywordIsLoud(p: string)
    requires HasPrefix(p, "for ")
    ensures !Quiet(INIT, p, ' ')
  {
    assert p[0] == 'f' && p[1..][0] == 'o' && p[1..][1..][0] == 'r' && p[1..][1..][1..][0] == ' ';
    assert Step(INIT, 'f') == (INIT, true) && Step(INIT, 'o') == (INIT, true) && Step(INIT, 'r') == (INIT, true);
    assert !Quiet(INIT, p[1..][1..][1..], ' ');
    assert !Quiet(INIT, p[1..][1..], ' ');
  }

  /** The keyword cannot start at a part: it would put a space at the part's top level or run into the comma. */
  lemma NoKeyword(p: string, rest: string)
    requires Quiet(INIT, p, ' ') && (rest == "" || rest[0] == ',')
    ensures !HasPrefix(p + rest, "for ")
  {
    if |p| < 4 {
      assert rest != "" ==> (p + rest)[|p|] == ',';
    } else {
      assert HasPrefix(p + rest, "for ") ==> HasPrefix(p, "for ");
      if HasPrefix(p, "for ") {
        KeywordIsLoud(p);
      }
    }
  }

  /** No keyword within a quiet text, so the search goes on behind it. */
  lemma {:induction false} IndexWordQuiet(s: Scan, p: string, rest: string, word: string)
    requires Quiet(s, p, ' ') && IndexWord(Run(s, p), rest, word) < 0
    ensures IndexWord(s, p + rest, word) < 0
    decreases |p|
  {
    if p == "" {
      assert p + rest == rest;
    } else {
      assert (p + rest)[1..] == p[1..] + rest;
      IndexWordQuiet(Step(s, p[0]).0, p[1..], rest, word);
    }
  }

  lemma {:induction false} NoForInList(parts: seq<string>)
    requires Parts(parts) && forall i | 0 <= i < |parts| :: Quiet(INIT, parts[i], ' ')
    ensures IndexWord(INIT, Join(parts, ", "), "for") < 0
  {
    if parts == [] {
    } else if |parts| == 1 {
      assert parts[0] + "" == parts[0];
      IndexWordQuiet(INIT, parts[0], "", "for");
    } else {
      var later := parts[1..];
      var tail := Join(later, ", ");
      NoForInList(later);
      JoinFirst(later);
      NoKeyword(later[0], tail[|later[0]|..]);
      assert later[0] + tail[|later[0]|..] == tail;
      SkipComma(tail);
      IndexWordQuiet(INIT, parts[0], ", " + tail, "for");
      assert parts[0] + ", " + tail == parts[0] + (", " + tail);
    }
  }

  lemma JoinFirst(parts: seq<string>)
    requires parts != []
    ensures parts[0] <= Join(parts, ", ")
    ensures var rest := Join(parts, ", ")[|parts[0]|..]; rest == "" || rest[0] == ','
  {
    if |parts| > 1 {
      assert Join(parts, ", ") == parts[0] + (", " + Join(parts[1..], ", "));
    }
  }

  lemma SkipComma(tail: string)
    requires IndexWord(INIT, tail, "for") < 0 && !HasPrefix(tail, "for ")
    ensures IndexWord(INIT, ", " + tail, "for") < 0
  {
    assert (", " + tail)[1..] == " " + tail;
    assert (" " + tail)[1..] == tail;
    assert "for" + " " == "for ";
    assert Step(INIT, ',') == (INIT, true) && Step(INIT, ' ') == (INIT, true);
    assert IndexWord(INIT, " " + tail, "for") < 0;
  }

  // -------------------------------------------------------------- object fields

  lemma {:induction false} NameScans(name: string, c: char)
    requires forall i | 0 <= i < |name| :: NameChar(name[i])
    requires !NameChar(c)
    ensures Closed(name) && Quiet(INIT, name, c)
  {
    if name != "" {
      assert NameChar(name[0]);
      forall i | 0 <= i < |name[1..]|
        ensures NameChar(name[1..][i])
      {
        assert name[1..][i] == name[i + 1];
      }
      NameScans(name[1..], c);
      assert Step(INIT, name[0]) == (INIT, true);
    }
  }

  predicate NameChar(c: char) {
    c == '_' || 'A' <= c <= 'Z' || 'a' <= c <= 'z' || '0' <= c <= '9'
  }

  lemma {:induction false} IndexByteQuiet(s: Scan, p: string, c: char, rest: string)
    requires Quiet(s, p, c) && Run(s, p) == INIT && Step(INIT, c) == (INIT, true)
    ensures IndexByte(s, p + [c] + rest, c) == |p|
    decreases |p|
  {
    var text := p + [c] + rest;
    if p != "" {
      assert text[1..] == p[1..] + [c] + rest;
      IndexByteQuiet(Step(s, p[0]).0, p[1..], c, rest);
    }
  }

  function FieldText(name: string, value: string): string {
    name + ": " + value
  }

  lemma FieldParses(name: string, value: string)
    requires IsLiteralName(name) && Part(value)
    ensures ParseField(FieldText(name, value)) == Some((name, value))
    ensures Part(FieldText(name, value))
  {
    var text := FieldText(name, value);
    NameIsPlain(name);
    NameScans(name, ':');
    assert text == name + [':'] + (" " + value);
    IndexByteQuiet(INIT, name, ':', " " + value);
    assert text[..|name|] == name && text[|name| + 1..] == " " + value;
    TrimSpacePadded(value);
    TrimSpaceTrims(name);
    FieldIsPart(name, value);
  }

  lemma NameIsPlain(name: string)
    requires IsLiteralName(name)
    ensures Trimmed(name) && forall i | 0 <= i < |name| :: NameChar(name[i])
  {
    assert NameChar(name[0]) && NameChar(name[|name| - 1]);
  }

  lemma FieldIsPart(name: string, value: string)
    requires IsLiteralName(name) && Part(value)
    ensures Part(FieldText(name, value))
  {
    var text := FieldText(name, value);
    NameIsPlain(name);
    NameScans(name, ',');
    ColonClosed();
    ClosedAppend(name, ": ");
    ClosedAppend(name + ": ", value);
    assert text[|text| - 1] == value[|value| - 1] && text[0] == name[0];
  }

  lemma ColonClosed()
    ensures Closed(": ") && Quiet(INIT, ": ", ',')
  {
    assert ": "[1..] == " " && " "[1..] == "";
  }

  // ----------------------------------------------------------------- the trees

  /** Literal trees; an atom is some text with the value the leaf evaluator gives it. */
  datatype Tree =
    | Atom(text: string, value: Value)
    | ListTree(items: seq<Tree>)
    | ObjectTree(names: seq<string>, items: seq<Tree>)

  function Print(t: Tree): string {
    match t
    case Atom(text, _) => text
    case ListTree(items) => "[" + Join(PrintAll(items), ", ") + "]"
    case ObjectTree(names, items) => "{" + Join(FieldTexts(names, PrintAll(items)), ", ") + "}"
  }

  function PrintAll(ts: seq<Tree>): seq<string> {
    if ts == [] then [] else [Print(ts[0])] + PrintAll(ts[1..])
  }

  function FieldTexts(names: seq<string>, values: seq<string>): seq<string> {
    if names == [] || values == [] then [] else [FieldText(names[0], values[0])] + FieldTexts(names[1..], values[1..])
  }

  predicate GoodAtom(text: string) {
    Part(text) && Quiet(INIT, text, ' ') && text[0] != '[' && text[0] != '{'
  }

  predicate Good(t: Tree) {
    match t
    case Atom(text, _) => GoodAtom(text)
    case ListTree(items) => GoodAll(items)
    case ObjectTree(names, items) =>
      && GoodAll(items) && |names| == |items|
      && (forall i | 0 <= i < |names| :: IsLiteralName(names[i]))
      && (forall i, j | 0 <= i < j < |names| :: names[i] != names[j])
  }

  predicate GoodAll(ts: seq<Tree>) {
    ts == [] || (Good(ts[0]) && GoodAll(ts[1..]))
  }

  /** Printed trees are parts of a literal, and have no space at top level either. */
  predicate Element(p: string) {
    Part(p) && Quiet(INIT, p, ' ')
  }

  lemma {:induction false} PrintElement(t: Tree)
    requires Good(t)
    ensures Element(Print(t))
  {
    match t
    case Atom(_, _) =>
    case ListTree(items) =>
      PrintAllElements(items);
      WrappedElement('[', PrintAll(items), ']');
    case ObjectTree(names, items) =>
      PrintAllElements(items);
      FieldsParse(names, PrintAll(items));
      WrappedElement('{', FieldTexts(names, PrintAll(items)), '}');
  }

  lemma {:induction false} PrintAllElements(ts: seq<Tree>)
    requires GoodAll(ts)
    ensures |PrintAll(ts)| == |ts|
    ensures forall i | 0 <= i < |ts| :: Element(PrintAll(ts)[i])
  {
    if ts != [] {
      PrintElement(ts[0]);
      PrintAllElements(ts[1..]);
    }
  }

  lemma WrappedElement(open: char, parts: seq<string>, close: char)
    requires Opens(open) && Closes(close) && Parts(parts)
    ensures Element([open] + Join(parts, ", ") + [close])
  {
    JoinParts(parts);
    Wrap(open, Join(parts, ", "), close, ',');
    Wrap(open, Join(parts, ", "), close, ' ');
  }

  function Fields(names: seq<string>, values: seq<string>): seq<Option<(string, string)>> {
    if names == [] || values == [] then [] else [Some((names[0], values[0]))] + Fields(names[1..], values[1..])
  }

  lemma {:induction false} FieldsParse(names: seq<string>, values: seq<string>)
    requires |names| == |values| && Parts(values) && forall i | 0 <= i < |names| :: IsLiteralName(names[i])
    ensures Parts(FieldTexts(names, values))
    ensures ParseFields(FieldTexts(names, values)) == Fields(names, values)
  {
    if names != [] {
      FieldParses(names[0], values[0]);
      FieldsParse(names[1..], values[1..]);
      var texts := FieldTexts(names, values);
      assert texts[1..] == FieldTexts(names[1..], values[1..]);
    }
  }

  // ------------------------------------------------------------------- parsing

  /** What the parser recognises in a printed tree. */
  function Recognised(t: Tree): Syntax {
    match t
    case Atom(text, _) => LeafSyntax(text)
    case ListTree(items) => ListSyntax(PrintAll(items))
    case ObjectTree(names, items) => ObjectSyntax(Fields(names, PrintAll(items)))
  }

  lemma ParsePrint(t: Tree)
    requires Good(t)
    ensures Parse(Print(t)) == Recognised(t)
  {
    PrintElement(t);
    var text := Print(t);
    TrimSpaceTrims(text);
    match t
    case Atom(_, _) =>
    case ListTree(items) =>
      PrintAllElements(items);
      ParsePrintedList(PrintAll(items));
    case ObjectTree(names, items) =>
      PrintAllElements(items);
      FieldsParse(names, PrintAll(items));
      ParsePrintedObject(FieldTexts(names, PrintAll(items)));
  }

  lemma ParsePrintedList(parts: seq<string>)
    requires forall i | 0 <= i < |parts| :: Element(parts[i])
    ensures ParseTrimmed("[" + Join(parts, ", ") + "]") == ListSyntax(parts)
  {
    var text := "[" + Join(parts, ", ") + "]";
    assert text[1..|text| - 1] == Join(parts, ", ");
    NoForInList(parts);
    SplitElementsJoin(parts);
  }

  lemma ParsePrintedObject(parts: seq<string>)
    requires Parts(parts)
    ensures ParseTrimmed("{" + Join(parts, ", ") + "}") == ObjectSyntax(ParseFields(parts))
  {
    var text := "{" + Join(parts, ", ") + "}";
    assert text[1..|text| - 1] == Join(parts, ", ");
    SplitElementsJoin(parts);
  }

  // ---------------------------------------------------------------- evaluation

  function ValueOf(t: Tree): Value {
    match t
    case Atom(_, value) => value
    case ListTree(items) => List(ValuesOf(items))
    case ObjectTree(names, items) => Object(names, FieldMap(map[], names, ValuesOf(items)))
  }

  function ValuesOf(ts: seq<Tree>): seq<Value> {
    if ts == [] then [] else [ValueOf(ts[0])] + ValuesOf(ts[1..])
  }

  function FieldMap(acc: Vars, names: seq<string>, values: seq<Value>): Vars
    decreases |names|
  {
    if names == [] || values == [] then acc else FieldMap(acc[names[0] := values[0]], names[1..], values[1..])
  }

  /** One element of budget for every list element and object field. */
  function Cost(t: Tree): nat {
    match t
    case Atom(_, _) => 0
    case ListTree(items) => CostAll(items)
    case ObjectTree(_, items) => CostAll(items)
  }

  function CostAll(ts: seq<Tree>): nat {
    if ts == [] then 0 else 1 + Cost(ts[0]) + CostAll(ts[1..])
  }

  /** How deeply the tree nests below its root. */
  function Height(t: Tree): nat {
    match t
    case Atom(_, _) => 0
    case ListTree(items) => HeightAll(items)
    case ObjectTree(_, items) => HeightAll(items)
  }

  function HeightAll(ts: seq<Tree>): nat {
    if ts == [] then 0
    else
      var first, rest := 1 + Height(ts[0]), HeightAll(ts[1..]);
      if first >= rest then first else rest
  }

  /** The leaf evaluator gives every atom its value and charges nothing for it. */
  ghost predicate Evaluates(leaf: Leaf, scope: Vars, t: Tree) {
    match t
    case Atom(text, value) => forall depth: nat, b: int :: leaf(text, scope, depth, b) == (Some(value), b)
    case ListTree(items) => EvaluatesAll(leaf, scope, items)
    case ObjectTree(_, items) => EvaluatesAll(leaf, scope, items)
  }

  ghost predicate EvaluatesAll(leaf: Leaf, scope: Vars, ts: seq<Tree>) {
    ts == [] || (Evaluates(leaf, scope, ts[0]) && EvaluatesAll(leaf, scope, ts[1..]))
  }

  /** A language that parses printed trees; the program's parser is one. */
  ghost predicate ReadsTrees(lang: Lang) {
    forall t: Tree :: Good(t) ==> lang.parse(Print(t)) == Recognised(t)
  }

  predicate Fits(t: Tree, depth: nat, budget: int) {
    depth + Height(t) <= MAX_DEPTH && Cost(t) <= budget
  }

  predicate FitsAll(ts: seq<Tree>, depth: nat, budget: int) {
    depth + HeightAll(ts) <= MAX_DEPTH && CostAll(ts) <= budget
  }

  /** The claim for one tree: its value at its cost if it fits, an error if it does not. */
  ghost predicate Reproduces(lang: Lang, t: Tree, scope: Vars, depth: nat, b: nat) {
    var o := Eval(lang, Print(t), scope, depth, b);
    && (o.result.Some? <==> Fits(t, depth, b))
    && (Fits(t, depth, b) ==> o.result.value == ValueOf(t) && o.budget == b - Cost(t))
  }

  lemma {:induction false} EvalPrint(lang: Lang, t: Tree, scope: Vars, depth: nat, b: nat)
    requires ReadsTrees(lang) && Good(t) && Evaluates(lang.leaf, scope, t)
    ensures Reproduces(lang, t, scope, depth, b)
    decreases t
  {
    if depth <= MAX_DEPTH {
      assert lang.parse(Print(t)) == Recognised(t);
      match t
      case Atom(_, _) =>
      case ListTree(items) =>
        EvalPrintedElements(lang, items, scope, depth, Loop(true, [], b, 1));
      case ObjectTree(names, items) =>
        PrintAllElements(items);
        EvalPrintedFields(lang, names, items, scope, depth, FieldLoop(true, [], map[], b, 1));
    }
  }

  lemma {:induction false} EvalPrintedElements(lang: Lang, ts: seq<Tree>, scope: Vars, depth: nat, acc: Loop)
    requires ReadsTrees(lang) && GoodAll(ts) && EvaluatesAll(lang.leaf, scope, ts)
    requires depth <= MAX_DEPTH && acc.ok && acc.budget >= 0
    ensures var end := EvalElements(lang, PrintAll(ts), scope, depth, acc);
            && (end.ok <==> FitsAll(ts, depth, acc.budget))
            && (end.ok ==> end.items == acc.items + ValuesOf(ts) && end.budget == acc.budget - CostAll(ts))
    decreases ts
  {
    if ts != [] && acc.budget >= 1 {
      var texts := PrintAll(ts);
      assert texts[0] == Print(ts[0]) && texts[1..] == PrintAll(ts[1..]);
      EvalPrint(lang, ts[0], scope, depth + 1, acc.budget - 1);
      var o := Eval(lang, texts[0], scope, depth + 1, acc.budget - 1);
      var next := After(acc, o);
      if o.result.Some? {
        EvalPrintedElements(lang, ts[1..], scope, depth, next);
        assert acc.items + [ValueOf(ts[0])] + ValuesOf(ts[1..]) == acc.items + ValuesOf(ts);
      }
    }
  }

  lemma {:induction false} EvalPrintedFields(lang: Lang, names: seq<string>, ts: seq<Tree>, scope: Vars, depth: nat, acc: FieldLoop)
    requires ReadsTrees(lang) && GoodAll(ts) && EvaluatesAll(lang.leaf, scope, ts)
    requires depth <= MAX_DEPTH && acc.ok && acc.budget >= 0 && |names| == |ts|
    requires forall i | 0 <= i < |names| :: names[i] !in acc.fields
    requires forall i, j | 0 <= i < j < |names| :: names[i] != names[j]
    ensures var end := EvalFields(lang, Fields(names, PrintAll(ts)), scope, depth, acc);
            && (end.ok <==> FitsAll(ts, depth, acc.budget))
            && (end.ok ==>
                && end.order == acc.order + names
                && end.fields == FieldMap(acc.fields, names, ValuesOf(ts))
                && end.budget == acc.budget - CostAll(ts))
    decreases ts
  {
    if ts != [] && acc.budget >= 1 {
      var texts := PrintAll(ts);
      assert texts[0] == Print(ts[0]) && texts[1..] == PrintAll(ts[1..]);
      var fields := Fields(names, texts);
      assert fields[0] == Some((names[0], texts[0])) && fields[1..] == Fields(names[1..], texts[1..]);
      EvalPrint(lang, ts[0], scope, depth + 1, acc.budget - 1);
      var o := Eval(lang, texts[0], scope, depth + 1, acc.budget - 1);
      var next := AfterField(acc, names[0], o);
      if o.result.Some? {
        NamesStayNew(names, acc.fields, o.result.value);
        EvalPrintedFields(lang, names[1..], ts[1..], scope, depth, next);
        assert acc.order + [names[0]] + names[1..] == acc.order + names;
        assert ValuesOf(ts)[1..] == ValuesOf(ts[1..]);
      }
    }
  }

  lemma NamesStayNew(names: seq<string>, fields: Vars, value: Value)
    requires names != [] && forall i | 0 <= i < |names| :: names[i] !in fields
    requires forall i, j | 0 <= i < j < |names| :: names[i] != names[j]
    ensures forall i | 0 <= i < |names[1..]| :: names[1..][i] !in fields[names[0] := value]
    ensures forall i, j | 0 <= i < j < |names[1..]| :: names[1..][i] != names[1..][j]
  {
  }

  /**
   The literal round trip, for every list and object tree over closed atoms: evaluating the
   printed text yields the tree's value and charges one element per list element and object
   field, exactly when the nesting stays within the depth limit and the cost within the budget;
   otherwise it is an error.
   */
  lemma RoundTrip(leaf: Leaf, t: Tree, scope: Vars, depth: nat, b: nat)
    requires Good(t) && Evaluates(leaf, scope, t)
    ensures var o := Eval(Lang(Parse, leaf), Print(t), scope, depth, b);
            && (o.result.Some? <==> depth + Height(t) <= MAX_DEPTH && Cost(t) <= b)
            && (o.result.Some? ==> o.result.value == ValueOf(t) && o.budget == b - Cost(t))
  {
    var lang := Lang(Parse, leaf);
    forall tree: Tree | Good(tree)
      ensures lang.parse(Print(tree)) == Recognised(tree)
    {
      ParsePrint(tree);
    }
    EvalPrint(lang, t, scope, depth, b);
  }

  /** The recorded fields of an object are its values under their own names. */
  lemma {:induction false} FieldMapAt(acc: Vars, names: seq<string>, values: seq<Value>, k: nat)
    requires |names| == |values| && k < |names|
    requires forall i, j | 0 <= i < j < |names| :: names[i] != names[j]
    ensures names[k] in FieldMap(acc, names, values) && FieldMap(acc, names, values)[names[k]] == values[k]
    decreases k
  {
    if k > 0 {
      FieldMapAt(acc[names[0] := values[0]], names[1..], values[1..], k - 1);
    } else {
      FieldMapKeeps(acc[names[0] := values[0]], names[1..], values[1..], names[0]);
    }
  }

  lemma {:induction false} FieldMapKeeps(acc: Vars, names: seq<string>, values: seq<Value>, name: string)
    requires |names| == |values| && name in acc && name !in names
    ensures name in FieldMap(acc, names, values) && FieldMap(acc, names, values)[name] == acc[name]
    decreases |names|
  {
    if names != [] {
      FieldMapKeeps(acc[names[0] := values[0]], names[1..], values[1..], name);
    }
  }
}
