/**
 Stored password records, addons/auth/password.go: the self-describing text
 pbkdf2-sha256$<iterations>$<salt>$<key>.  The key derivation (section 5.2 of RFC 8018) is an
 arbitrary function of password, salt, iteration count and key length whose result has the
 requested length; random salts are parameters.
 */
module Passwords {
  import opened Text
  import opened Base64

  const MIN_ITERATIONS := 600000
  const MAX_ITERATIONS := 2000000
  const DEFAULT_ITERATIONS := 600000
  const SALT_LENGTH := 16
  const KEY_LENGTH := 32
  const PREFIX := "pbkdf2-sha256"

  type Kdf = (string, seq<byte>, int, nat) -> seq<byte>

  ghost predicate FixedLength(kdf: Kdf) {
    forall password, salt, iterations, length :: |kdf(password, salt, iterations, length)| == length
  }

  datatype Hash = Hash(iterations: int, salt: seq<byte>, key: seq<byte>)

  predicate ValidIterations(iterations: int) {
    MIN_ITERATIONS <= iterations <= MAX_ITERATIONS
  }

  function Render(h: Hash): string
    requires h.iterations >= 0
  {
    Join([PREFIX, Itoa(h.iterations), Encode(Std, h.salt), Encode(Std, h.key)], "$")
  }

  /** PBKDF2Hasher.HashPassword; an iteration setting of zero means the default. */
  function HashPassword(kdf: Kdf, setting: int, password: string, salt: seq<byte>): Option<string> {
    var iterations := if setting == 0 then DEFAULT_ITERATIONS else setting;
    if !ValidIterations(iterations) then None
    else Some(Render(Hash(iterations, salt, kdf(password, salt, iterations, KEY_LENGTH))))
  }

  /** decodeHash; None is ErrInvalidHash. */
  function DecodeHash(encoded: string): (r: Option<Hash>)
    ensures r.Some? ==>
              && ValidIterations(r.value.iterations)
              && |r.value.salt| == SALT_LENGTH && |r.value.key| == KEY_LENGTH
  {
    var parts := Split(encoded, '$');
    if |parts| != 4 || parts[0] != PREFIX then None
    else
      var iterations := Atoi(parts[1]);
      if iterations.None? || !ValidIterations(iterations.value) then None
      else
        var salt := Decode(Std, parts[2]);
        if salt.None? || |salt.value| != SALT_LENGTH then None
        else
          var key := Decode(Std, parts[3]);
          if key.None? || |key.value| != KEY_LENGTH then None
          else Some(Hash(iterations.value, salt.value, key.value))
  }

  /** PBKDF2Hasher.VerifyPassword; a malformed record is a mismatch. */
  predicate VerifyPassword(kdf: Kdf, password: string, encoded: string) {
    var h := DecodeHash(encoded);
    h.Some? && kdf(password, h.value.salt, h.value.iterations, |h.value.key|) == h.value.key
  }

  /** Every well-formed record decodes to exactly the parts it was rendered from. */
  lemma DecodeRendered(h: Hash)
    requires ValidIterations(h.iterations) && |h.salt| == SALT_LENGTH && |h.key| == KEY_LENGTH
    ensures DecodeHash(Render(h)) == Some(h)
  {
    EncodeAlphabet(Std, h.salt, '$');
    EncodeAlphabet(Std, h.key, '$');
    var number := Itoa(h.iterations);
    assert '$' !in number by {
      assert forall i | 0 <= i < |number| :: IsDigit(number[i]);
    }
    SplitJoin([PREFIX, number, Encode(Std, h.salt), Encode(Std, h.key)], '$');
    AtoiItoa(h.iterations);
    DecodeEncode(Std, h.salt);
    DecodeEncode(Std, h.key);
  }

  /** Two well-formed records never share a text. */
  lemma RenderInjective(a: Hash, b: Hash)
    requires ValidIterations(a.iterations) && |a.salt| == SALT_LENGTH && |a.key| == KEY_LENGTH
    requires ValidIterations(b.iterations) && |b.salt| == SALT_LENGTH && |b.key| == KEY_LENGTH
    requires Render(a) == Render(b)
    ensures a == b
  {
    DecodeRendered(a);
    DecodeRendered(b);
  }

  /**
   A stored credential accepts a candidate password exactly when the derived keys coincide; in
   particular it accepts the password it was made from.  Hashing is refused exactly for
   iteration settings outside the accepted range.
   */
  lemma PasswordRoundTrip(kdf: Kdf, setting: int, password: string, salt: seq<byte>, candidate: string)
    requires FixedLength(kdf) && |salt| == SALT_LENGTH
    ensures HashPassword(kdf, setting, password, salt).Some? <==> setting == 0 || 600_000 <= setting <= 2_000_000
    ensures HashPassword(kdf, setting, password, salt).Some? ==>
              var iterations := if setting == 0 then 600_000 else setting;
              var stored := HashPassword(kdf, setting, password, salt).value;
              && DecodeHash(stored) == Some(Hash(iterations, salt, kdf(password, salt, iterations, KEY_LENGTH)))
              && VerifyPassword(kdf, password, stored)
              && (VerifyPassword(kdf, candidate, stored) <==>
                  kdf(candidate, salt, iterations, KEY_LENGTH) == kdf(password, salt, iterations, KEY_LENGTH))
  {
    var iterations := if setting == 0 then DEFAULT_ITERATIONS else setting;
    if ValidIterations(iterations) {
      DecodeRendered(Hash(iterations, salt, kdf(password, salt, iterations, KEY_LENGTH)));
    }
  }

  /** The four parts of a record's text. */
  ghost predicate Reads(encoded: string, number: string, salt: string, key: string) {
    && '$' !in number && '$' !in salt && '$' !in key
    && encoded == "pbkdf2-sha256" + "$" + number + "$" + salt + "$" + key
  }

  /**
   Exactly which stored texts a password is accepted against: those in four parts with an
   iteration count in range, a 16-byte salt and the 32-byte key derived from the password.
   */
  lemma VerifyIff(kdf: Kdf, password: string, encoded: string)
    requires FixedLength(kdf)
    ensures VerifyPassword(kdf, password, encoded) <==>
              exists number, salt, key, h: Hash ::
                && Reads(encoded, number, salt, key)
                && Atoi(number) == Some(h.iterations) && 600_000 <= h.iterations <= 2_000_000
                && Decode(Std, salt) == Some(h.salt) && |h.salt| == 16
                && Decode(Std, key) == Some(h.key) && h.key == kdf(password, h.salt, h.iterations, 32)
  {
    hide Decode, Atoi;
    var parts := Split(encoded, '$');
    var h := DecodeHash(encoded);
    if VerifyPassword(kdf, password, encoded) {
      PartsRead(encoded);
      assert h.value.key == kdf(password, h.value.salt, h.value.iterations, 32);
    }
    forall number, salt, key, h: Hash
      | && Reads(encoded, number, salt, key)
        && Atoi(number) == Some(h.iterations) && 600_000 <= h.iterations <= 2_000_000
        && Decode(Std, salt) == Some(h.salt) && |h.salt| == 16
        && Decode(Std, key) == Some(h.key) && h.key == kdf(password, h.salt, h.iterations, 32)
      ensures VerifyPassword(kdf, password, encoded)
    {
      ReadParts(encoded, number, salt, key);
    }
  }

  lemma FourParts(a: string, b: string, c: string, d: string)
    ensures Join([a, b, c, d], "$") == a + "$" + b + "$" + c + "$" + d
  {
    assert [a, b, c, d][1..] == [b, c, d] && [b, c, d][1..] == [c, d] && [c, d][1..] == [d];
    assert Join([c, d], "$") == c + "$" + d;
    assert Join([b, c, d], "$") == b + "$" + (c + "$" + d);
  }

  lemma PartsRead(encoded: string)
    requires var parts := Split(encoded, '$'); |parts| == 4 && parts[0] == PREFIX
    ensures var parts := Split(encoded, '$'); Reads(encoded, parts[1], parts[2], parts[3])
  {
    var parts := Split(encoded, '$');
    JoinSplit(encoded, '$');
    assert ['$'] == "$" && parts == [parts[0], parts[1], parts[2], parts[3]];
    FourParts(parts[0], parts[1], parts[2], parts[3]);
  }

  lemma ReadParts(encoded: string, number: string, salt: string, key: string)
    requires Reads(encoded, number, salt, key)
    ensures Split(encoded, '$') == [PREFIX, number, salt, key]
  {
    FourParts(PREFIX, number, salt, key);
    assert ['$'] == "$";
    SplitJoin([PREFIX, number, salt, key], '$');
  }
}
