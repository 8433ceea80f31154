/**
 Keeping the first of several items with the same key, as dedupeFindings, collectWaivers and
 collectRawHTMLExceptions do with a set of keys already seen.
 */
module Dedupe {
  function Keys<T(!new)>(xs: seq<T>, key: T -> string): set<string> {
    if xs == [] then {} else Keys(xs[..|xs| - 1], key) + {key(xs[|xs| - 1])}
  }

  function KeepFirst<T(!new)>(xs: seq<T>, key: T -> string): seq<T> {
    if xs == [] then []
    else
      var before, last := xs[..|xs| - 1], xs[|xs| - 1];
      if key(last) in Keys(before, key) then KeepFirst(before, key) else KeepFirst(before, key) + [last]
  }

  lemma {:induction false} KeysMeaning<T(!new)>(xs: seq<T>, key: T -> string, k: string)
    ensures k in Keys(xs, key) <==> exists i :: 0 <= i < |xs| && key(xs[i]) == k
  {
    if xs != [] {
      var before := xs[..|xs| - 1];
      KeysMeaning(before, key, k);
      if i :| 0 <= i < |before| && key(before[i]) == k {
        assert key(xs[i]) == k;
      }
      if i :| 0 <= i < |xs| && key(xs[i]) == k {
        assert i < |before| ==> key(before[i]) == k;
      }
    }
  }

  /** y is the first of its key in xs. */
  ghost predicate FirstOfKey<T(!new)>(xs: seq<T>, key: T -> string, y: T) {
    exists i :: 0 <= i < |xs| && xs[i] == y && forall j | 0 <= j < i :: key(xs[j]) != key(y)
  }

  /** Exactly one item of every key remains, and it is the first of its key. */
  lemma {:induction false} KeepFirstExact<T(!new)>(xs: seq<T>, key: T -> string)
    ensures Keys(KeepFirst(xs, key), key) == Keys(xs, key)
    ensures forall y | y in KeepFirst(xs, key) :: FirstOfKey(xs, key, y)
    ensures forall i, j | 0 <= i < j < |KeepFirst(xs, key)| :: key(KeepFirst(xs, key)[i]) != key(KeepFirst(xs, key)[j])
  {
    if xs != [] {
      var before, last := xs[..|xs| - 1], xs[|xs| - 1];
      var kept := KeepFirst(before, key);
      KeepFirstExact(before, key);
      forall y | y in kept
        ensures FirstOfKey(xs, key, y)
      {
        var i :| 0 <= i < |before| && before[i] == y && forall j | 0 <= j < i :: key(before[j]) != key(y);
        assert xs[i] == y && forall j | 0 <= j < i :: key(xs[j]) == key(before[j]);
      }
      if key(last) !in Keys(before, key) {
        KeepNew(before, key, last);
        assert (kept + [last])[..|kept|] == kept;
        assert xs[|before|] == last;
        assert FirstOfKey(xs, key, last);
      }
    }
  }

  lemma KeepNew<T(!new)>(before: seq<T>, key: T -> string, last: T)
    requires key(last) !in Keys(before, key) && Keys(KeepFirst(before, key), key) == Keys(before, key)
    ensures forall j | 0 <= j < |before| :: key(before[j]) != key(last)
    ensures forall j | 0 <= j < |KeepFirst(before, key)| :: key(KeepFirst(before, key)[j]) != key(last)
  {
    KeysMeaning(before, key, key(last));
    KeysMeaning(KeepFirst(before, key), key, key(last));
  }

  /** Every item is represented by the one kept item of its key, which is one of the items. */
  lemma KeptFor<T(!new)>(xs: seq<T>, key: T -> string, x: T) returns (y: T)
    requires x in xs
    ensures y in KeepFirst(xs, key) && key(y) == key(x) && y in xs
  {
    var i :| 0 <= i < |xs| && xs[i] == x;
    KeepFirstExact(xs, key);
    KeysMeaning(xs, key, key(x));
    var kept := KeepFirst(xs, key);
    KeysMeaning(kept, key, key(x));
    assert key(xs[i]) == key(x);
    var k :| 0 <= k < |kept| && key(kept[k]) == key(x);
    y := kept[k];
  }

  lemma KeptIsFrom<T(!new)>(xs: seq<T>, key: T -> string, y: T)
    requires y in KeepFirst(xs, key)
    ensures y in xs
  {
    KeepFirstExact(xs, key);
  }

  /** The filter in place: kept items move to the front of the array they are read from. */
  method Compact<T(!new)>(a: array<T>, key: T -> string) returns (n: nat)
    modifies a
    ensures n <= a.Length && a[..n] == KeepFirst(old(a[..]), key)
  {
    ghost var before := a[..];
    var seen: set<string> := {};
    n := 0;
    for i := 0 to a.Length
      invariant n <= i && forall j | i <= j < a.Length :: a[j] == before[j]
      invariant seen == Keys(before[..i], key) && a[..n] == KeepFirst(before[..i], key)
    {
      assert before[..i + 1][..i] == before[..i];
      var x := a[i];
      if key(x) !in seen {
        ghost var kept := a[..n];
        seen := seen + {key(x)};
        a[n] := x;
        n := n + 1;
        assert a[..n] == kept + [x];
      }
    }
    assert before[..a.Length] == before;
  }
}
