/**
 Body-size limits: what parseSize of internal/auditspec/engine.go reads, for every text.
 */
module AuditSizes {
  import opened Text
  import opened AuditRules

  datatype ByteUnit = Plain | B | KB | MB | GB

  function Suffix(u: ByteUnit): string {
    match u
    case Plain => ""
    case B => "b"
    case KB => "kb"
    case MB => "mb"
    case GB => "gb"
  }

  function Size(u: ByteUnit): int {
    match u
    case KB => 1024
    case MB => 1024 * 1024
    case GB => 1024 * 1024 * 1024
    case _ => 1
  }

  predicate AllDigits(s: string) {
    forall i | 0 <= i < |s| :: IsDigit(s[i])
  }

  /** A size text: a decimal count, which may be empty, with white space around it, then a unit. */
  ghost predicate Spells(value: string, digits: string, u: ByteUnit) {
    AllDigits(digits) && exists lead, pad :: AllSpace(lead) && AllSpace(pad) && value == lead + digits + pad + Suffix(u)
  }

  // -------------------------------------------------------------------- numbers

  lemma WrapShift(n: int, k: int)
    ensures Wrap64(n + k * TWO64) == Wrap64(n)
  {
    var x := n + TWO63;
    assert x + k * TWO64 == (x / TWO64 + k) * TWO64 + x % TWO64;
    Remainder(x + k * TWO64, x / TWO64 + k, x % TWO64);
  }

  lemma Remainder(x: int, q: int, r: int)
    requires x == q * TWO64 + r && 0 <= r < TWO64
    ensures x % TWO64 == r
  {
  }

  lemma WrapIs(n: int) returns (k: int)
    ensures Wrap64(n) == n + k * TWO64
  {
    k := -((n + TWO63) / TWO64);
  }

  lemma WrapMultiple(n: int, unit: int)
    ensures Wrap64(Wrap64(n) * unit) == Wrap64(n * unit)
  {
    var k := WrapIs(n);
    assert (n + k * TWO64) * unit == n * unit + (k * unit) * TWO64;
    WrapShift(n * unit, k * unit);
  }

  lemma WrapStep(n: int, d: nat)
    ensures Wrap64(Wrap64(Wrap64(n) * 10) + d) == Wrap64(n * 10 + d)
  {
    WrapMultiple(n, 10);
    var k := WrapIs(n * 10);
    WrapShift(n * 10 + d, k);
  }

  lemma {:induction false} ParseNumberAppend(s: string, t: string, number: int)
    ensures ParseNumber(s + t, number)
            == if ParseNumber(s, number).None? then None else ParseNumber(t, ParseNumber(s, number).value)
    decreases |s|
  {
    if s == "" {
      assert s + t == t;
    } else {
      assert (s + t)[1..] == s[1..] + t;
      if IsDigit(s[0]) {
        ParseNumberAppend(s[1..], t, Wrap64(Wrap64(number * 10) + DigitValue(s[0])));
      }
    }
  }

  /** The digit loop computes the decimal value in 64-bit arithmetic. */
  lemma {:induction false} ParseNumberMeans(s: string)
    ensures ParseNumber(s, 0) == if AllDigits(s) then Some(Wrap64(Numeral(s))) else None
  {
    if s != "" {
      var before, last := s[..|s| - 1], s[|s| - 1];
      assert s == before + [last];
      ParseNumberMeans(before);
      ParseNumberAppend(before, [last], 0);
      assert AllDigits(s) <==> AllDigits(before) && IsDigit(last);
      assert [last][1..] == "";
      if AllDigits(s) {
        WrapStep(Numeral(before), DigitValue(last));
      }
    }
  }

  // ----------------------------------------------------------------------- units

  lemma UnitRead(text: string, u: ByteUnit)
    requires text == "" || IsDigit(text[|text| - 1]) || IsSpace(text[|text| - 1])
    ensures UnitOf(text + Suffix(u)) == (Size(u), |Suffix(u)|)
  {
    var value := text + Suffix(u);
    if text != "" {
      assert u.Plain? ==> value[|value| - 1] == text[|text| - 1];
      assert u.B? ==> value[|value| - 2] == text[|text| - 1];
    }
  }

  lemma UnitIs(value: string) returns (u: ByteUnit)
    ensures UnitOf(value) == (Size(u), |Suffix(u)|) && value == value[..|value| - |Suffix(u)|] + Suffix(u)
  {
    u := if EndsInUnit(value, 'k') then KB
         else if EndsInUnit(value, 'm') then MB
         else if EndsInUnit(value, 'g') then GB
         else if value != "" && value[|value| - 1] == 'b' then B
         else Plain;
  }

  /**
   Sizes, exactly: a text is accepted if and only if it is a decimal count with an optional unit,
   and then stands for that many units in 64-bit arithmetic.
   */
  lemma SizeMeans(value: string, n: int)
    ensures ParseSizeText(value) == Some(n) <==>
              value != "" && exists digits, u :: Spells(value, digits, u) && n == Wrap64(Numeral(digits) * Size(u))
  {
    if ParseSizeText(value) == Some(n) {
      SizeSpelled(value);
    }
    if digits, u :| value != "" && Spells(value, digits, u) && n == Wrap64(Numeral(digits) * Size(u)) {
      SizeRead(value, digits, u);
    }
  }

  lemma SizeSpelled(value: string)
    requires ParseSizeText(value).Some?
    ensures exists digits, u :: Spells(value, digits, u) && ParseSizeText(value).value == Wrap64(Numeral(digits) * Size(u))
  {
    hide Wrap64, Numeral, Size, ParseNumber;
    var u := UnitIs(value);
    var text := value[..|value| - |Suffix(u)|];
    var digits := TrimSpace(text);
    ParseNumberMeans(digits);
    TrimSpaceIff(text, digits);
    var lead, pad :| AllSpace(lead) && AllSpace(pad) && text == lead + digits + pad;
    assert value == lead + digits + pad + Suffix(u);
    assert Spells(value, digits, u);
    WrapMultiple(Numeral(digits), Size(u));
  }

  lemma SizeRead(value: string, digits: string, u: ByteUnit)
    requires value != "" && Spells(value, digits, u)
    ensures ParseSizeText(value) == Some(Wrap64(Numeral(digits) * Size(u)))
  {
    var lead, pad :| AllSpace(lead) && AllSpace(pad) && value == lead + digits + pad + Suffix(u);
    var text := lead + digits + pad;
    TextEnds(lead, digits, pad);
    UnitRead(text, u);
    assert value[..|value| - |Suffix(u)|] == text;
    assert digits != "" ==> !IsSpace(digits[0]) && !IsSpace(digits[|digits| - 1]);
    TrimSpaceIff(text, digits);
    ParseNumberMeans(digits);
    WrapMultiple(Numeral(digits), Size(u));
  }

  lemma TextEnds(lead: string, digits: string, pad: string)
    requires AllSpace(lead) && AllSpace(pad) && AllDigits(digits)
    ensures var text := lead + digits + pad; text == "" || IsDigit(text[|text| - 1]) || IsSpace(text[|text| - 1])
  {
    var text := lead + digits + pad;
    if text != "" {
      assert text[|text| - 1] == if pad != "" then pad[|pad| - 1] else if digits != "" then digits[|digits| - 1] else lead[|lead| - 1];
    }
  }
}
