/**
 The string operations of Go's standard library that the modelled components rely on:
 splitting and joining, trimming, decimal numerals and lexical sorting.  Text is a sequence
 of code points; byte lengths are made explicit where the program counts bytes.
 */
module Text {

  datatype Option<+T> = None | Some(value: T)

  lemma Regroup<T>(a: seq<T>, b: seq<T>, c: seq<T>)
    ensures a + (b + c) == a + b + c
  {
  }

  // ---------------------------------------------------------------- trimming

  /** Unicode white space, as strings.TrimSpace sees it. */
  predicate IsSpace(c: char) {
    || '\t' <= c <= '\r' || c == ' ' || c == '\U{85}' || c == '\U{A0}' || c == '\U{1680}'
    || '\U{2000}' <= c <= '\U{200A}' || '\U{2028}' <= c <= '\U{2029}'
    || c == '\U{202F}' || c == '\U{205F}' || c == '\U{3000}'
  }

  function TrimLeft(s: string): string {
    if s != "" && IsSpace(s[0]) then TrimLeft(s[1..]) else s
  }

  function TrimRight(s: string): string {
    if s != "" && IsSpace(s[|s| - 1]) then TrimRight(s[..|s| - 1]) else s
  }

  function TrimSpace(s: string): string {
    TrimRight(TrimLeft(s))
  }

  /** A string without white space at either end. */
  predicate Trimmed(s: string) {
    s == "" || (!IsSpace(s[0]) && !IsSpace(s[|s| - 1]))
  }

  lemma {:induction false} TrimLeftSuffix(s: string)
    ensures |TrimLeft(s)| <= |s| && TrimLeft(s) == s[|s| - |TrimLeft(s)|..]
    ensures TrimLeft(s) != "" ==> !IsSpace(TrimLeft(s)[0])
  {
    if s != "" && IsSpace(s[0]) {
      TrimLeftSuffix(s[1..]);
    }
  }

  lemma {:induction false} TrimRightPrefix(s: string)
    ensures TrimRight(s) <= s
    ensures TrimRight(s) != "" ==> !IsSpace(TrimRight(s)[|TrimRight(s)| - 1])
  {
    if s != "" && IsSpace(s[|s| - 1]) {
      TrimRightPrefix(s[..|s| - 1]);
    }
  }

  lemma TrimSpaceTrims(s: string)
    ensures Trimmed(TrimSpace(s))
    ensures Trimmed(s) <==> TrimSpace(s) == s
  {
    var l := TrimLeft(s);
    var r := TrimRight(l);
    TrimLeftSuffix(s);
    TrimRightPrefix(l);
    if r != "" {
      assert r[0] == l[0];
    }
  }

  /** Padding a trimmed string with spaces does not change what TrimSpace returns. */
  lemma TrimSpacePadded(s: string)
    requires Trimmed(s) && s != ""
    ensures TrimSpace(" " + s) == s && TrimSpace(s) == s && TrimSpace(s + " ") == s
  {
    assert (" " + s)[1..] == s;
    assert TrimLeft(" " + s) == TrimLeft(s) == s;
    assert (s + " ")[..|s|] == s;
    assert TrimLeft(s + " ") == s + " ";
  }

  predicate AllSpace(s: string) {
    forall i | 0 <= i < |s| :: IsSpace(s[i])
  }

  lemma {:induction false} TrimLeftParts(s: string) returns (lead: string)
    ensures AllSpace(lead) && s == lead + TrimLeft(s)
  {
    lead := "";
    if s != "" && IsSpace(s[0]) {
      var more := TrimLeftParts(s[1..]);
      lead := [s[0]] + more;
    }
  }

  lemma {:induction false} TrimRightParts(s: string) returns (pad: string)
    ensures AllSpace(pad) && s == TrimRight(s) + pad
  {
    pad := "";
    if s != "" && IsSpace(s[|s| - 1]) {
      var more := TrimRightParts(s[..|s| - 1]);
      pad := more + [s[|s| - 1]];
    }
  }

  lemma {:induction false} TrimLeftPadded(lead: string, s: string)
    requires AllSpace(lead) && (s == "" || !IsSpace(s[0]))
    ensures TrimLeft(lead + s) == s
  {
    if lead == "" {
      assert lead + s == s;
    } else {
      assert (lead + s)[1..] == lead[1..] + s;
      TrimLeftPadded(lead[1..], s);
    }
  }

  lemma {:induction false} TrimRightPadded(s: string, pad: string)
    requires AllSpace(pad) && (s == "" || !IsSpace(s[|s| - 1]))
    ensures TrimRight(s + pad) == s
  {
    if pad == "" {
      assert s + pad == s;
    } else {
      var before := pad[..|pad| - 1];
      assert (s + pad)[..|s + pad| - 1] == s + before;
      TrimRightPadded(s, before);
    }
  }

  /** What TrimSpace returns: the text without all of the white space around it. */
  lemma TrimSpaceIff(s: string, t: string)
    ensures TrimSpace(s) == t <==> Trimmed(t) && exists lead, pad :: AllSpace(lead) && AllSpace(pad) && s == lead + t + pad
  {
    TrimSpaceTrims(s);
    var lead := TrimLeftParts(s);
    var pad := TrimRightParts(TrimLeft(s));
    assert s == lead + TrimSpace(s) + pad;
    forall lead, pad | Trimmed(t) && AllSpace(lead) && AllSpace(pad) && s == lead + t + pad
      ensures TrimSpace(s) == t
    {
      if t == "" {
        assert s == (lead + pad) + "";
        TrimLeftPadded(lead + pad, "");
      } else {
        assert s == lead + (t + pad);
        TrimLeftPadded(lead, t + pad);
        TrimRightPadded(t, pad);
      }
    }
  }

  function TrimCharLeft(s: string, c: char): string {
    if s != "" && s[0] == c then TrimCharLeft(s[1..], c) else s
  }

  function TrimCharRight(s: string, c: char): string {
    if s != "" && s[|s| - 1] == c then TrimCharRight(s[..|s| - 1], c) else s
  }

  /** strings.Trim(s, c) for a single cut character. */
  function TrimChar(s: string, c: char): string {
    TrimCharRight(TrimCharLeft(s, c), c)
  }

  lemma {:induction false} TrimCharLeftStops(s: string, c: char)
    ensures TrimCharLeft(s, c) != "" ==> TrimCharLeft(s, c)[0] != c
  {
    if s != "" && s[0] == c {
      TrimCharLeftStops(s[1..], c);
    }
  }

  lemma {:induction false} TrimCharRightStops(s: string, c: char)
    ensures TrimCharRight(s, c) <= s
    ensures TrimCharRight(s, c) != "" ==> TrimCharRight(s, c)[|TrimCharRight(s, c)| - 1] != c
  {
    if s != "" && s[|s| - 1] == c {
      TrimCharRightStops(s[..|s| - 1], c);
    }
  }

  lemma TrimCharEnds(s: string, c: char)
    ensures var r := TrimChar(s, c); r != "" ==> r[0] != c && r[|r| - 1] != c
  {
    TrimCharLeftStops(s, c);
    TrimCharRightStops(TrimCharLeft(s, c), c);
  }

  predicate HasPrefix(s: string, p: string) {
    p <= s
  }

  predicate HasSuffix(s: string, p: string) {
    |p| <= |s| && s[|s| - |p|..] == p
  }

  lemma SuffixAt(s: string, p: string, i: nat)
    requires HasSuffix(s, p) && i < |p|
    ensures s[|s| - |p| + i] == p[i]
  {
    assert s[|s| - |p|..][i] == p[i];
  }

  // ------------------------------------------------------- splitting, joining

  /** strings.Split with a one-character separator. */
  function Split(s: string, sep: char): (parts: seq<string>)
    ensures parts != []
  {
    if s == "" then [""]
    else
      var rest := Split(s[1..], sep);
      if s[0] == sep then [""] + rest
      else [[s[0]] + rest[0]] + rest[1..]
  }

  /** strings.Join. */
  function Join(parts: seq<string>, sep: string): string {
    if parts == [] then ""
    else if |parts| == 1 then parts[0]
    else parts[0] + sep + Join(parts[1..], sep)
  }

  lemma {:induction false} JoinSplit(s: string, sep: char)
    ensures Join(Split(s, sep), [sep]) == s
    ensures forall i | 0 <= i < |Split(s, sep)| :: sep !in Split(s, sep)[i]
  {
    if s != "" {
      JoinSplit(s[1..], sep);
      var rest := Split(s[1..], sep);
      var all := Split(s, sep);
      if s[0] == sep {
        assert all[1..] == rest;
      } else {
        assert all[1..] == rest[1..];
      }
    }
  }

  lemma {:induction false} SplitPrefix(head: string, sep: char, tail: string)
    requires sep !in head
    ensures Split(head + [sep] + tail, sep) == [head] + Split(tail, sep)
  {
    var s := head + [sep] + tail;
    if head == "" {
      assert s[1..] == tail;
    } else {
      SplitPrefix(head[1..], sep, tail);
      assert s[1..] == head[1..] + [sep] + tail;
      assert [head[0]] + head[1..] == head;
    }
  }

  lemma {:induction false} SplitNoSep(s: string, sep: char)
    requires sep !in s
    ensures Split(s, sep) == [s]
  {
    if s != "" {
      SplitNoSep(s[1..], sep);
      assert [s[0]] + s[1..] == s;
    }
  }

  /** Splitting what Join put together gives the parts back. */
  lemma {:induction false} SplitJoin(parts: seq<string>, sep: char)
    requires parts != []
    requires forall i | 0 <= i < |parts| :: sep !in parts[i]
    ensures Split(Join(parts, [sep]), sep) == parts
  {
    if |parts| == 1 {
      SplitNoSep(parts[0], sep);
    } else {
      SplitJoin(parts[1..], sep);
      SplitPrefix(parts[0], sep, Join(parts[1..], [sep]));
      assert [parts[0]] + parts[1..] == parts;
    }
  }

  /** Joining n parts with a separator none of them contains cannot be confused with any other join. */
  lemma JoinInjective(a: seq<string>, b: seq<string>, sep: char)
    requires a != [] && b != []
    requires forall i | 0 <= i < |a| :: sep !in a[i]
    requires forall i | 0 <= i < |b| :: sep !in b[i]
    requires Join(a, [sep]) == Join(b, [sep])
    ensures a == b
  {
    SplitJoin(a, sep);
    SplitJoin(b, sep);
  }

  // --------------------------------------------------------- decimal numerals

  predicate IsDigit(c: char) {
    '0' <= c <= '9'
  }

  function Digit(d: nat): (c: char)
    requires d < 10
    ensures IsDigit(c) && DigitValue(c) == d
  {
    d as char + '0'
  }

  function DigitValue(c: char): (d: nat)
    requires IsDigit(c)
    ensures d < 10
  {
    (c - '0') as nat
  }

  /** strconv.Itoa on a natural number. */
  function Itoa(n: nat): (s: string)
    ensures s != "" && forall i | 0 <= i < |s| :: IsDigit(s[i])
  {
    if n < 10 then [Digit(n)] else Itoa(n / 10) + [Digit(n % 10)]
  }

  function Numeral(s: string): nat
    requires forall i | 0 <= i < |s| :: IsDigit(s[i])
  {
    if s == "" then 0 else Numeral(s[..|s| - 1]) * 10 + DigitValue(s[|s| - 1])
  }

  const INT64_MAX := 0x7FFF_FFFF_FFFF_FFFF

  /** strconv.Atoi on 64-bit platforms: an optional sign, at least one digit, and no overflow. */
  function Atoi(s: string): Option<int> {
    var negative := s != "" && s[0] == '-';
    var digits := if s != "" && (s[0] == '-' || s[0] == '+') then s[1..] else s;
    if digits == "" || exists i | 0 <= i < |digits| :: !IsDigit(digits[i]) then None
    else
      var n: int := Numeral(digits);
      if negative then (if n <= INT64_MAX + 1 then Some(-n) else None)
      else if n <= INT64_MAX then Some(n) else None
  }

  lemma {:induction false} NumeralItoa(n: nat)
    ensures Numeral(Itoa(n)) == n
  {
    if n >= 10 {
      NumeralItoa(n / 10);
      var s := Itoa(n);
      assert s[..|s| - 1] == Itoa(n / 10);
    }
  }

  /** Printing a machine integer and parsing it back. */
  lemma AtoiItoa(n: nat)
    requires n <= INT64_MAX
    ensures Atoi(Itoa(n)) == Some(n)
  {
    NumeralItoa(n);
    assert IsDigit(Itoa(n)[0]);
  }

  lemma ItoaInjective(m: nat, n: nat)
    requires Itoa(m) == Itoa(n)
    ensures m == n
  {
    NumeralItoa(m);
    NumeralItoa(n);
  }

  // ------------------------------------------------------------ lexical order

  /** s <= t in the byte order of Go strings (the code-point order of their UTF-8 text). */
  predicate LexLeq(s: string, t: string) {
    s == "" || (t != "" && (s[0] < t[0] || (s[0] == t[0] && LexLeq(s[1..], t[1..]))))
  }

  /** A prefix comes before, and otherwise the first difference decides. */
  lemma {:induction false} LexIff(s: string, t: string)
    ensures LexLeq(s, t) <==> s <= t || exists i :: 0 <= i < |s| && i < |t| && s[..i] == t[..i] && s[i] < t[i]
  {
    if s != "" && t != "" && s[0] == t[0] {
      var u, v := s[1..], t[1..];
      LexIff(u, v);
      assert s == [s[0]] + u && t == [t[0]] + v;
      if i :| 0 <= i < |u| && i < |v| && u[..i] == v[..i] && u[i] < v[i] {
        assert s[..i + 1] == [s[0]] + u[..i] && t[..i + 1] == [t[0]] + v[..i] && s[i + 1] < t[i + 1];
      }
      if i :| 0 <= i < |s| && i < |t| && s[..i] == t[..i] && s[i] < t[i] {
        assert u[..i - 1] == s[..i][1..] && v[..i - 1] == t[..i][1..] && u[i - 1] < v[i - 1];
      }
    } else if s != "" && t != "" {
      assert s[..0] == t[..0];
    }
  }

  lemma {:induction false} LexTotal(s: string, t: string)
    ensures LexLeq(s, t) || LexLeq(t, s)
  {
    if s != "" && t != "" && s[0] == t[0] {
      LexTotal(s[1..], t[1..]);
    }
  }

  lemma {:induction false} LexTransitive(s: string, t: string, u: string)
    requires LexLeq(s, t) && LexLeq(t, u)
    ensures LexLeq(s, u)
  {
    if s != "" && s[0] == t[0] == u[0] {
      LexTransitive(s[1..], t[1..], u[1..]);
    }
  }

  lemma {:induction false} LexAntisymmetric(s: string, t: string)
    requires LexLeq(s, t) && LexLeq(t, s)
    ensures s == t
  {
    if s != "" && t != "" {
      LexAntisymmetric(s[1..], t[1..]);
      assert s == [s[0]] + s[1..];
      assert t == [t[0]] + t[1..];
    }
  }

  ghost predicate Sorted(xs: seq<string>) {
    forall i, j | 0 <= i < j < |xs| :: LexLeq(xs[i], xs[j])
  }

  function Insert(x: string, xs: seq<string>): seq<string> {
    if xs == [] || LexLeq(x, xs[0]) then [x] + xs else [xs[0]] + Insert(x, xs[1..])
  }

  /** sort.Strings, as insertion sort. */
  function Sort(xs: seq<string>): seq<string> {
    if xs == [] then [] else Insert(xs[0], Sort(xs[1..]))
  }

  lemma {:induction false} InsertPermutes(x: string, xs: seq<string>)
    ensures multiset(Insert(x, xs)) == multiset(xs) + multiset{x}
  {
    if xs != [] && !LexLeq(x, xs[0]) {
      InsertPermutes(x, xs[1..]);
      assert xs == [xs[0]] + xs[1..];
    }
  }

  /** What comes before every part of a sequence comes before what is inserted into it. */
  lemma InsertBounded(low: string, x: string, xs: seq<string>)
    requires LexLeq(low, x) && forall j | 0 <= j < |xs| :: LexLeq(low, xs[j])
    ensures forall j | 0 <= j < |Insert(x, xs)| :: LexLeq(low, Insert(x, xs)[j])
  {
    InsertPermutes(x, xs);
    var all := Insert(x, xs);
    forall j | 0 <= j < |all|
      ensures LexLeq(low, all[j])
    {
      assert all[j] in multiset(all);
    }
  }

  lemma {:induction false} InsertSorts(x: string, xs: seq<string>)
    requires Sorted(xs)
    ensures Sorted(Insert(x, xs))
  {
    if xs == [] {
    } else if LexLeq(x, xs[0]) {
      forall j | 0 <= j < |xs|
        ensures LexLeq(x, xs[j])
      {
        if j > 0 {
          LexTransitive(x, xs[0], xs[j]);
        }
      }
    } else {
      LexTotal(x, xs[0]);
      InsertSorts(x, xs[1..]);
      InsertBounded(xs[0], x, xs[1..]);
    }
  }

  /** Sorting returns an ordered permutation of its input. */
  lemma {:induction false} SortSorts(xs: seq<string>)
    ensures Sorted(Sort(xs))
    ensures multiset(Sort(xs)) == multiset(xs)
    ensures |Sort(xs)| == |xs|
  {
    if xs != [] {
      SortSorts(xs[1..]);
      InsertSorts(xs[0], Sort(xs[1..]));
      InsertPermutes(xs[0], Sort(xs[1..]));
      assert xs == [xs[0]] + xs[1..];
    }
    assert |multiset(Sort(xs))| == |multiset(xs)|;
  }
}
