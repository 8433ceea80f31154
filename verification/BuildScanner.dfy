/**
 The bracket and string scanner of internal/buildgen/build_data_iteration.go, and the top-level
 searches and splits built on it.
 */
module BuildScanner {
  import opened Text

  /** exprScanner's fields. */
  datatype Scan = Scan(depth: nat, inString: bool, escaped: bool, inRawString: bool)

  const INIT := Scan(0, false, false, false)

  predicate Opens(c: char) {
    c == '(' || c == '[' || c == '{'
  }

  predicate Closes(c: char) {
    c == ')' || c == ']' || c == '}'
  }

  /** One byte: the next state, and whether the byte sits at depth zero outside a string. */
  function Step(s: Scan, c: char): (Scan, bool) {
    if s.escaped then (s.(escaped := false), false)
    else if s.inRawString then (if c == '`' then s.(inRawString := false) else s, false)
    else if s.inString then (if c == '\\' then s.(escaped := true) else if c == '"' then s.(inString := false) else s, false)
    else if c == '"' then (s.(inString := true), false)
    else if c == '`' then (s.(inRawString := true), false)
    else if Opens(c) then (s.(depth := s.depth + 1), false)
    else if Closes(c) then (if s.depth > 0 then s.(depth := s.depth - 1) else s, false)
    else (s, s.depth == 0)
  }

  function Run(s: Scan, text: string): Scan
    decreases |text|
  {
    if text == "" then s else Run(Step(s, text[0]).0, text[1..])
  }

  /** indexTopLevelByte from a scanner state. */
  function IndexByte(s: Scan, text: string, target: char): (r: int)
    ensures -1 <= r < |text|
    decreases |text|
  {
    if text == "" then -1
    else
      var (t, top) := Step(s, text[0]);
      if top && text[0] == target then 0
      else
        var r := IndexByte(t, text[1..], target);
        if r < 0 then -1 else r + 1
  }

  /** splitTopLevel from a scanner state. */
  function SplitTop(s: Scan, text: string, sep: char): (parts: seq<string>)
    ensures parts != []
    decreases |text|
  {
    if text == "" then [""]
    else
      var (t, top) := Step(s, text[0]);
      var rest := SplitTop(t, text[1..], sep);
      if top && text[0] == sep then [""] + rest else [[text[0]] + rest[0]] + rest[1..]
  }

  /** indexTopLevelWord from a scanner state: where a space-delimited word starts. */
  function IndexWord(s: Scan, text: string, word: string): (r: int)
    ensures -1 <= r && (r >= 0 ==> 0 < r && r + |word| < |text|)
    decreases |text|
  {
    if text == "" then -1
    else
      var (t, top) := Step(s, text[0]);
      if top && text[0] == ' ' && HasPrefix(text[1..], word + " ") then 1
      else
        var r := IndexWord(t, text[1..], word);
        if r < 0 then -1 else r + 1
  }

  // ------------------------------------------------------------ the Go code

  class ExprScanner {
    var depth: nat
    var inString: bool
    var escaped: bool
    var inRawString: bool

    function View(): Scan
      reads this
    {
      Scan(depth, inString, escaped, inRawString)
    }

    constructor ()
      ensures View() == INIT
    {
      depth, inString, escaped, inRawString := 0, false, false, false;
    }

    method Advance(c: char) returns (top: bool)
      modifies this
      ensures (View(), top) == Step(old(View()), c)
    {
      if escaped {
        escaped := false;
        return false;
      }
      if inRawString {
        if c == '`' {
          inRawString := false;
        }
        return false;
      }
      if inString {
        if c == '\\' {
          escaped := true;
        } else if c == '"' {
          inString := false;
        }
        return false;
      }
      if c == '"' {
        inString := true;
        return false;
      }
      if c == '`' {
        inRawString := true;
        return false;
      }
      if Opens(c) {
        depth := depth + 1;
        return false;
      }
      if Closes(c) {
        if depth > 0 {
          depth := depth - 1;
        }
        return false;
      }
      top := depth == 0;
    }
  }

  method IndexTopLevelByte(source: string, target: char) returns (r: int)
    ensures r == IndexByte(INIT, source, target)
  {
    var scan := new ExprScanner();
    for index := 0 to |source|
      invariant var rest := IndexByte(scan.View(), source[index..], target);
                IndexByte(INIT, source, target) == if rest < 0 then -1 else index + rest
    {
      var top := scan.Advance(source[index]);
      assert source[index..][1..] == source[index + 1..];
      if top && source[index] == target {
        return index;
      }
    }
    r := -1;
  }

  /** The first part still grows by what has been read since the last separator. */
  function Extend(prefix: string, parts: seq<string>): seq<string>
    requires parts != []
  {
    [prefix + parts[0]] + parts[1..]
  }

  lemma ExtendNothing(parts: seq<string>)
    requires parts != []
    ensures Extend("", parts) == parts
  {
    assert "" + parts[0] == parts[0];
  }

  /** Reading one more byte either closes the current part or lengthens it. */
  lemma SplitStep(s: Scan, read: string, text: string, sep: char)
    requires text != ""
    ensures var (t, top) := Step(s, text[0]);
            var rest := SplitTop(t, text[1..], sep);
            Extend(read, SplitTop(s, text, sep))
            == if top && text[0] == sep then [read] + Extend("", rest) else Extend(read + [text[0]], rest)
  {
    var (t, top) := Step(s, text[0]);
    var rest := SplitTop(t, text[1..], sep);
    ExtendNothing(rest);
    assert read + "" == read;
    assert read + ([text[0]] + rest[0]) == read + [text[0]] + rest[0];
  }

  /** All parts, given the closed ones, the start of the current one and the state in which the rest is read. */
  function Whole(closed: seq<string>, source: string, start: nat, index: nat, s: Scan, sep: char): seq<string>
    requires start <= index <= |source|
  {
    closed + Extend(source[start..index], SplitTop(s, source[index..], sep))
  }

  /** The same on positions of the source, with the parts already closed. */
  lemma SplitAdvance(closed: seq<string>, source: string, start: nat, index: nat, s: Scan, sep: char)
    requires start <= index < |source|
    ensures var (t, top) := Step(s, source[index]);
            Whole(closed, source, start, index, s, sep)
            == if top && source[index] == sep then Whole(closed + [source[start..index]], source, index + 1, index + 1, t, sep)
               else Whole(closed, source, start, index + 1, t, sep)
  {
    var read, text := source[start..index], source[index..];
    assert text == [source[index]] + source[index + 1..];
    assert read + [source[index]] == source[start..index + 1];
    SplitStep(s, read, text, sep);
    var (t, top) := Step(s, source[index]);
    var rest, before := SplitTop(t, source[index + 1..], sep), Extend(read, SplitTop(s, text, sep));
    if top && source[index] == sep {
      assert source[index + 1..index + 1] == "";
      assert before == [read] + Extend("", rest);
      Regroup(closed, [read], Extend("", rest));
    } else {
      assert before == Extend(source[start..index + 1], rest);
    }
  }

  lemma SplitStart(source: string, sep: char)
    ensures SplitTop(INIT, source, sep) == Whole([], source, 0, 0, INIT, sep)
  {
    assert source[0..0] == "" && source[0..] == source;
    ExtendNothing(SplitTop(INIT, source, sep));
  }

  lemma SplitEnd(closed: seq<string>, source: string, start: nat, s: Scan, sep: char)
    requires start <= |source|
    ensures Whole(closed, source, start, |source|, s, sep) == closed + [source[start..]]
  {
    assert source[|source|..] == "" && source[start..|source|] + "" == source[start..];
  }

  method SplitTopLevel(source: string, sep: char) returns (parts: seq<string>)
    ensures parts == SplitTop(INIT, source, sep)
  {
    parts := [];
    var scan := new ExprScanner();
    var start := 0;
    SplitStart(source, sep);
    for index := 0 to |source|
      invariant 0 <= start <= index
      invariant SplitTop(INIT, source, sep) == Whole(parts, source, start, index, scan.View(), sep)
    {
      SplitAdvance(parts, source, start, index, scan.View(), sep);
      var top := scan.Advance(source[index]);
      if top && source[index] == sep {
        parts := parts + [source[start..index]];
        start := index + 1;
      }
    }
    SplitEnd(parts, source, start, scan.View(), sep);
    parts := parts + [source[start..]];
  }

  method IndexTopLevelWord(source: string, word: string) returns (r: int)
    ensures r == IndexWord(INIT, source, word)
  {
    var scan := new ExprScanner();
    for index := 0 to |source|
      invariant var rest := IndexWord(scan.View(), source[index..], word);
                IndexWord(INIT, source, word) == if rest < 0 then -1 else index + rest
    {
      var top := scan.Advance(source[index]);
      assert source[index..][1..] == source[index + 1..];
      if top && source[index] == ' ' && HasPrefix(source[index + 1..], word + " ") {
        return index + 1;
      }
    }
    r := -1;
  }
}
