/**
 Unpadded base64, section 3.2 of RFC 4648, over the standard alphabet (section 4) and the
 URL-safe alphabet (section 5), with the leniencies of Go's decoder: line breaks are skipped
 and the unused low bits of a short final quantum are ignored.
 */
module Base64 {
  import opened Text

  type byte = b: int | 0 <= b < 256

  datatype Alphabet = Std | Url

  function Symbol(alphabet: Alphabet, v: nat): char
    requires v < 64
  {
    if v < 26 then 'A' + v as char
    else if v < 52 then 'a' + (v - 26) as char
    else if v < 62 then '0' + (v - 52) as char
    else if v == 62 then (if alphabet.Std? then '+' else '-')
    else (if alphabet.Std? then '/' else '_')
  }

  function SymbolValue(alphabet: Alphabet, c: char): Option<nat> {
    if 'A' <= c <= 'Z' then Some((c - 'A') as nat)
    else if 'a' <= c <= 'z' then Some((c - 'a') as nat + 26)
    else if '0' <= c <= '9' then Some((c - '0') as nat + 52)
    else if c == (if alphabet.Std? then '+' else '-') then Some(62)
    else if c == (if alphabet.Std? then '/' else '_') then Some(63)
    else None
  }

  lemma SymbolRoundTrip(alphabet: Alphabet, v: nat)
    requires v < 64
    ensures SymbolValue(alphabet, Symbol(alphabet, v)) == Some(v)
  {
  }

  /** The six-bit groups of a byte string; a short final quantum is filled up with zero bits. */
  function Groups(bs: seq<byte>): (vs: seq<nat>)
    ensures forall i | 0 <= i < |vs| :: vs[i] < 64
  {
    if bs == [] then []
    else if |bs| == 1 then [bs[0] / 4, bs[0] % 4 * 16]
    else if |bs| == 2 then [bs[0] / 4, bs[0] % 4 * 16 + bs[1] / 16, bs[1] % 16 * 4]
    else [bs[0] / 4, bs[0] % 4 * 16 + bs[1] / 16, bs[1] % 16 * 4 + bs[2] / 64, bs[2] % 64] + Groups(bs[3..])
  }

  /** The number whose digits these are, in a base. */
  function Number(digits: seq<nat>, base: nat): nat {
    if digits == [] then 0 else Number(digits[..|digits| - 1], base) * base + digits[|digits| - 1]
  }

  /** Three bytes become four groups of the same 24-bit number; one or two bytes are filled up with zero bits. */
  lemma GroupBits(bs: seq<byte>)
    ensures |bs| == 1 ==> |Groups(bs)| == 2 && Number(Groups(bs), 64) == Number(bs, 256) * 16
    ensures |bs| == 2 ==> |Groups(bs)| == 3 && Number(Groups(bs), 64) == Number(bs, 256) * 4
    ensures |bs| >= 3 ==> |Groups(bs)| >= 4 && Number(Groups(bs)[..4], 64) == Number(bs[..3], 256) && Groups(bs)[4..] == Groups(bs[3..])
  {
    var vs := Groups(bs);
    if |bs| == 1 {
      OneDigit(bs[0], 256);
      TwoDigits(vs, 64);
    } else if |bs| == 2 {
      TwoDigits(bs, 256);
      ThreeDigits(vs, 64);
    } else if |bs| >= 3 {
      ThreeDigits(bs[..3], 256);
      FourDigits(vs[..4], 64);
    }
  }

  lemma OneDigit(a: nat, base: nat)
    ensures Number([a], base) == a
  {
    assert [a][..0] == [];
  }

  lemma TwoDigits(s: seq<nat>, base: nat)
    requires |s| == 2
    ensures Number(s, base) == s[0] * base + s[1]
  {
    assert s[..1] == [s[0]];
    OneDigit(s[0], base);
  }

  lemma ThreeDigits(s: seq<nat>, base: nat)
    requires |s| == 3
    ensures Number(s, base) == (s[0] * base + s[1]) * base + s[2]
  {
    TwoDigits(s[..2], base);
  }

  lemma FourDigits(s: seq<nat>, base: nat)
    requires |s| == 4
    ensures Number(s, base) == ((s[0] * base + s[1]) * base + s[2]) * base + s[3]
  {
    ThreeDigits(s[..3], base);
  }

  function Symbols(alphabet: Alphabet, vs: seq<nat>): string
    requires forall i | 0 <= i < |vs| :: vs[i] < 64
  {
    if vs == [] then "" else [Symbol(alphabet, vs[0])] + Symbols(alphabet, vs[1..])
  }

  /** RawStdEncoding.EncodeToString and RawURLEncoding.EncodeToString. */
  function Encode(alphabet: Alphabet, bs: seq<byte>): string {
    Symbols(alphabet, Groups(bs))
  }

  function Values(alphabet: Alphabet, s: string): (r: Option<seq<nat>>)
    ensures r.Some? ==> |r.value| == |s| && forall i | 0 <= i < |s| :: r.value[i] < 64
  {
    if s == "" then Some([])
    else
      var v, rest := SymbolValue(alphabet, s[0]), Values(alphabet, s[1..]);
      if v.Some? && rest.Some? then Some([v.value] + rest.value) else None
  }

  function Bytes(vs: seq<nat>): Option<seq<byte>>
    requires forall i | 0 <= i < |vs| :: vs[i] < 64
  {
    if vs == [] then Some([])
    else if |vs| == 1 then None
    else if |vs| == 2 then Some([vs[0] * 4 + vs[1] / 16])
    else if |vs| == 3 then Some([vs[0] * 4 + vs[1] / 16, vs[1] % 16 * 16 + vs[2] / 4])
    else
      var rest := Bytes(vs[4..]);
      if rest.None? then None
      else Some([vs[0] * 4 + vs[1] / 16, vs[1] % 16 * 16 + vs[2] / 4, vs[2] % 4 * 64 + vs[3]] + rest.value)
  }

  function DropLineBreaks(s: string): string {
    if s == "" then ""
    else (if s[0] == '\n' || s[0] == '\r' then "" else [s[0]]) + DropLineBreaks(s[1..])
  }

  /** RawStdEncoding.DecodeString and RawURLEncoding.DecodeString. */
  function Decode(alphabet: Alphabet, s: string): Option<seq<byte>> {
    var vs := Values(alphabet, DropLineBreaks(s));
    if vs.None? then None else Bytes(vs.value)
  }

  lemma {:induction false} ValuesSymbols(alphabet: Alphabet, vs: seq<nat>)
    requires forall i | 0 <= i < |vs| :: vs[i] < 64
    ensures Values(alphabet, Symbols(alphabet, vs)) == Some(vs)
  {
    if vs != [] {
      SymbolRoundTrip(alphabet, vs[0]);
      ValuesSymbols(alphabet, vs[1..]);
      ValuesCons(alphabet, Symbol(alphabet, vs[0]), vs[0], Symbols(alphabet, vs[1..]), vs[1..]);
      assert vs == [vs[0]] + vs[1..];
    }
  }

  lemma ValuesCons(alphabet: Alphabet, c: char, v: nat, s: string, vs: seq<nat>)
    requires SymbolValue(alphabet, c) == Some(v) && Values(alphabet, s) == Some(vs)
    ensures Values(alphabet, [c] + s) == Some([v] + vs)
  {
    assert ([c] + s)[1..] == s;
  }

  lemma {:induction false} BytesGroups(bs: seq<byte>)
    ensures Bytes(Groups(bs)) == Some(bs)
  {
    if bs == [] {
    } else if |bs| == 1 {
      assert bs == [bs[0]];
    } else if |bs| == 2 {
      assert Bytes(Groups(bs)).value == [bs[0], bs[1]];
      assert bs == [bs[0], bs[1]];
    } else {
      BytesGroups(bs[3..]);
      ByteParts(bs[0], bs[1], bs[2]);
      assert Groups(bs)[4..] == Groups(bs[3..]);
      assert bs == [bs[0], bs[1], bs[2]] + bs[3..];
    }
  }

  lemma ByteParts(x: byte, y: byte, z: byte)
    ensures x / 4 * 4 + (x % 4 * 16 + y / 16) / 16 == x
    ensures (x % 4 * 16 + y / 16) % 16 * 16 + (y % 16 * 4 + z / 64) / 4 == y
    ensures (y % 16 * 4 + z / 64) % 4 * 64 + z % 64 == z
  {
  }

  /** A string all of whose characters are letters of the alphabet. */
  lemma {:induction false} ValuesAlphabet(alphabet: Alphabet, s: string, i: nat)
    requires Values(alphabet, s).Some? && i < |s|
    ensures SymbolValue(alphabet, s[i]).Some?
  {
    if i > 0 {
      ValuesAlphabet(alphabet, s[1..], i - 1);
    }
  }

  /** Encoded text consists of alphabet letters only, so it never contains a separator such as '.' or '$'. */
  lemma EncodeAlphabet(alphabet: Alphabet, bs: seq<byte>, c: char)
    requires SymbolValue(alphabet, c).None?
    ensures c !in Encode(alphabet, bs)
  {
    ValuesSymbols(alphabet, Groups(bs));
    var s := Encode(alphabet, bs);
    forall i | 0 <= i < |s|
      ensures s[i] != c
    {
      ValuesAlphabet(alphabet, s, i);
    }
  }

  lemma {:induction false} NoLineBreaks(s: string)
    requires '\n' !in s && '\r' !in s
    ensures DropLineBreaks(s) == s
  {
    if s != "" {
      NoLineBreaks(s[1..]);
      assert s == [s[0]] + s[1..];
    }
  }

  /** Decoding an encoded byte string gives the bytes back, in either alphabet. */
  lemma DecodeEncode(alphabet: Alphabet, bs: seq<byte>)
    ensures Decode(alphabet, Encode(alphabet, bs)) == Some(bs)
  {
    EncodeAlphabet(alphabet, bs, '\n');
    EncodeAlphabet(alphabet, bs, '\r');
    NoLineBreaks(Encode(alphabet, bs));
    ValuesSymbols(alphabet, Groups(bs));
    BytesGroups(bs);
  }
}
