/**
 Signed session tokens and signing-key rotation, addons/auth/session.go.  A token is
 <payload>.<tag> for an unnamed key and <key id>.<payload>.<tag> for a named one, both parts
 in unpadded URL-safe base64.  HMAC (section 2 of RFC 2104) is an arbitrary function of secret
 and message, and decoding the JSON payload an arbitrary partial function of its bytes.
 */
module SessionTokens {
  import opened Text
  import opened Base64

  /** Nanoseconds since Go's zero time. */
  type Time = nat

  type Mac = (seq<byte>, seq<byte>) -> seq<byte>

  const MIN_SECRET_BYTES := 32

  /** acceptUntil is None for Go's zero time: no deadline. */
  datatype SigningKey = SigningKey(id: string, secret: seq<byte>, acceptUntil: Option<Time>)

  datatype Options = Options(secret: seq<byte>, secretEnv: string, keyId: string, previousKeys: seq<SigningKey>)

  datatype KeyRing = KeyRing(current: SigningKey, previous: map<string, SigningKey>)

  // ------------------------------------------------------- building the ring

  /** sessionSecret: exactly one of the two sources, at least 32 bytes long. */
  function SessionSecret(options: Options, env: map<string, seq<byte>>): Option<seq<byte>> {
    var name := TrimSpace(options.secretEnv);
    if options.secret != [] then
      if name != "" || |options.secret| < MIN_SECRET_BYTES then None else Some(options.secret)
    else if name == "" || name !in env || |env[name]| < MIN_SECRET_BYTES then None
    else Some(env[name])
  }

  /** The signing secret is the one that is given directly, or the one in the named variable; not both, and not under 32 bytes. */
  lemma SecretIff(options: Options, env: map<string, seq<byte>>, secret: seq<byte>)
    ensures SessionSecret(options, env) == Some(secret) <==>
              && |secret| >= 32
              && var name := TrimSpace(options.secretEnv);
                 || (options.secret != [] && name == "" && secret == options.secret)
                 || (options.secret == [] && name != "" && name in env && secret == env[name])
  {
  }

  predicate ValidKeyId(id: string) {
    '.' !in TrimSpace(id)
  }

  /** A previous key, its ID already trimmed, is usable. */
  predicate ValidPrevious(key: SigningKey) {
    '.' !in key.id && |key.secret| >= MIN_SECRET_BYTES
  }

  function Normalized(key: SigningKey): SigningKey {
    key.(id := TrimSpace(key.id))
  }

  /** The configured keys with their IDs trimmed. */
  function Normalize(keys: seq<SigningKey>): (r: seq<SigningKey>)
    ensures |r| == |keys| && forall i | 0 <= i < |keys| :: r[i] == Normalized(keys[i])
  {
    seq(|keys|, i requires 0 <= i < |keys| => Normalized(keys[i]))
  }

  /** Position i holds the last key listed under its ID. */
  predicate LastUnderId(keys: seq<SigningKey>, i: nat)
    requires i < |keys|
  {
    forall j | i < j < |keys| :: keys[j].id != keys[i].id
  }

  /** The previous-key table: later keys replace earlier ones of the same ID. */
  function PreviousTable(keys: seq<SigningKey>): map<string, SigningKey> {
    if keys == [] then map[]
    else
      var last := keys[|keys| - 1];
      PreviousTable(keys[..|keys| - 1])[last.id := last]
  }

  /** The table holds the last key of every listed ID. */
  lemma {:induction false} LastKeyWins(keys: seq<SigningKey>, i: nat)
    requires i < |keys| && LastUnderId(keys, i)
    ensures keys[i].id in PreviousTable(keys) && PreviousTable(keys)[keys[i].id] == keys[i]
  {
    if i < |keys| - 1 {
      LastKeyWins(keys[..|keys| - 1], i);
      assert keys[|keys| - 1].id != keys[i].id;
    }
  }

  /** The table holds nothing but listed keys, each under its own ID. */
  lemma {:induction false} OnlyListedKeys(keys: seq<SigningKey>, id: string)
    requires id in PreviousTable(keys)
    ensures PreviousTable(keys)[id] in keys && PreviousTable(keys)[id].id == id
  {
    if id != keys[|keys| - 1].id {
      OnlyListedKeys(keys[..|keys| - 1], id);
    }
  }

  predicate AllPreviousValid(keys: seq<SigningKey>) {
    keys == [] || (AllPreviousValid(keys[..|keys| - 1]) && ValidPrevious(keys[|keys| - 1]))
  }

  lemma {:induction false} EachPreviousValid(keys: seq<SigningKey>, i: nat)
    requires AllPreviousValid(keys) && i < |keys|
    ensures ValidPrevious(keys[i])
  {
    if i < |keys| - 1 {
      EachPreviousValid(keys[..|keys| - 1], i);
    }
  }

  /** The previous keys are acceptable when none has a dot in its ID or a secret under 32 bytes. */
  lemma {:induction false} PreviousValidIff(keys: seq<SigningKey>)
    ensures AllPreviousValid(keys) <==> forall i | 0 <= i < |keys| :: '.' !in keys[i].id && |keys[i].secret| >= 32
  {
    if keys != [] {
      PreviousValidIff(keys[..|keys| - 1]);
    }
  }

  /** What sessionSigningKeys promises about the ring it builds. */
  ghost predicate IsRing(options: Options, env: map<string, seq<byte>>, ring: KeyRing) {
    && SessionSecret(options, env).Some?
    && ValidKeyId(options.keyId)
    && ring.current == SigningKey(TrimSpace(options.keyId), SessionSecret(options, env).value, None)
    && AllPreviousValid(Normalize(options.previousKeys))
    && ring.previous == PreviousTable(Normalize(options.previousKeys))
  }

  /** sessionSigningKeys: fails exactly when the secret, the key ID or a previous key is not acceptable. */
  method SessionSigningKeys(options: Options, env: map<string, seq<byte>>) returns (r: Option<KeyRing>)
    ensures r.Some? ==> IsRing(options, env, r.value)
    ensures r.Some? <==>
              SessionSecret(options, env).Some? && ValidKeyId(options.keyId) && AllPreviousValid(Normalize(options.previousKeys))
  {
    var secret := SessionSecret(options, env);
    if secret.None? || !ValidKeyId(options.keyId) {
      return None;
    }
    var previous := PreviousKeyTable(options.previousKeys);
    if previous.None? {
      return None;
    }
    r := Some(KeyRing(SigningKey(TrimSpace(options.keyId), secret.value, None), previous.value));
  }

  /** The loop over Options.PreviousKeys. */
  method PreviousKeyTable(keys: seq<SigningKey>) returns (r: Option<map<string, SigningKey>>)
    ensures r.Some? <==> AllPreviousValid(Normalize(keys))
    ensures r.Some? ==> r.value == PreviousTable(Normalize(keys))
  {
    var previous: map<string, SigningKey> := map[];
    ghost var normal := Normalize(keys);
    for i := 0 to |keys|
      invariant AllPreviousValid(normal[..i])
      invariant previous == PreviousTable(normal[..i])
    {
      var key := Normalized(keys[i]);
      assert key == normal[i];
      if !ValidPrevious(key) {
        assert !AllPreviousValid(normal) by {
          if AllPreviousValid(normal) {
            EachPreviousValid(normal, i);
          }
        }
        return None;
      }
      assert normal[..i + 1][..i] == normal[..i];
      previous := previous[key.id := key];
    }
    assert normal[..|keys|] == normal;
    r := Some(previous);
  }

  // ------------------------------------------------------ signing, verifying

  function Sign(mac: Mac, key: SigningKey, payload: seq<byte>): string {
    var encoded := Encode(Url, payload) + "." + Encode(Url, mac(key.secret, payload));
    if key.id == "" then encoded else key.id + "." + encoded
  }

  predicate PreviousAccepted(key: SigningKey, now: Time) {
    key.acceptUntil.None? || now < key.acceptUntil.value
  }

  function NamedKeys(ring: KeyRing, id: string, now: Time): seq<SigningKey> {
    if id == "" then []
    else if id == ring.current.id then [ring.current]
    else if id in ring.previous && PreviousAccepted(ring.previous[id], now) then [ring.previous[id]]
    else []
  }

  function UnnamedKeys(ring: KeyRing, now: Time): seq<SigningKey> {
    (if ring.current.id == "" then [ring.current] else [])
    + (if "" in ring.previous && PreviousAccepted(ring.previous[""], now) then [ring.previous[""]] else [])
  }

  predicate AnyTag(mac: Mac, keys: seq<SigningKey>, payload: seq<byte>, tag: seq<byte>) {
    exists i | 0 <= i < |keys| :: mac(keys[i].secret, payload) == tag
  }

  /** Sessions.verify; None is errBadSession. */
  function Verify<P>(mac: Mac, unmarshal: seq<byte> -> Option<P>, ring: KeyRing, now: Time, token: string): Option<P> {
    var parts := Split(token, '.');
    if |parts| != 2 && |parts| != 3 then None
    else
      var keys := if |parts| == 2 then UnnamedKeys(ring, now) else NamedKeys(ring, TrimSpace(parts[0]), now);
      var payload := Decode(Url, parts[|parts| - 2]);
      var tag := Decode(Url, parts[|parts| - 1]);
      if keys == [] || payload.None? || tag.None? || !AnyTag(mac, keys, payload.value, tag.value) then None
      else unmarshal(payload.value)
  }

  /**
   Which keys a ring trusts for a key ID at an instant, stated without reference to the search:
   the current key under its own ID; a previous key under an ID other than the current one, or
   any unnamed previous key, while its deadline has not passed.
   */
  ghost predicate Trusts(ring: KeyRing, id: string, now: Time, key: SigningKey) {
    || (id == ring.current.id && key == ring.current)
    || (&& (id != ring.current.id || id == "")
        && id in ring.previous && key == ring.previous[id] && PreviousAccepted(key, now))
  }

  lemma KeysTrusted(ring: KeyRing, id: string, now: Time, key: SigningKey)
    ensures key in NamedKeys(ring, id, now) <==> id != "" && Trusts(ring, id, now, key)
    ensures key in UnnamedKeys(ring, now) <==> Trusts(ring, "", now, key)
  {
  }

  /** The key ID a token names: nothing for two parts, the trimmed first part for three. */
  function ClaimedId(token: string): string {
    var parts := Split(token, '.');
    if |parts| == 3 then TrimSpace(parts[0]) else ""
  }

  /**
   No token is accepted without a tag that is the MAC of its own payload under a key the ring
   trusts, at that instant, for the ID the token claims.
   */
  lemma VerifySound<P>(mac: Mac, unmarshal: seq<byte> -> Option<P>, ring: KeyRing, now: Time, token: string)
    requires Verify(mac, unmarshal, ring, now, token).Some?
    ensures var parts := Split(token, '.');
            && 2 <= |parts| <= 3
            && (|parts| == 3 ==> ClaimedId(token) != "")
            && Decode(Url, parts[|parts| - 2]).Some?
            && var payload := Decode(Url, parts[|parts| - 2]).value;
               && unmarshal(payload) == Verify(mac, unmarshal, ring, now, token)
               && exists key :: Trusts(ring, ClaimedId(token), now, key)
                             && Decode(Url, parts[|parts| - 1]) == Some(mac(key.secret, payload))
  {
    var parts := Split(token, '.');
    var keys := if |parts| == 2 then UnnamedKeys(ring, now) else NamedKeys(ring, TrimSpace(parts[0]), now);
    var payload := Decode(Url, parts[|parts| - 2]).value;
    var tag := Decode(Url, parts[|parts| - 1]).value;
    var i :| 0 <= i < |keys| && mac(keys[i].secret, payload) == tag;
    KeysTrusted(ring, ClaimedId(token), now, keys[i]);
  }

  /** The token is two or three parts around dots; with three it names a key ID. */
  ghost predicate Laid(token: string, id: string, body: string, seal: string) {
    && '.' !in body && '.' !in seal
    && ((token == body + "." + seal && id == "")
        || exists head :: '.' !in head && token == head + "." + body + "." + seal && id == TrimSpace(head) != "")
  }

  /** The last two parts are base64 for the payload and the tag. */
  ghost predicate Reads(token: string, id: string, payload: seq<byte>, tag: seq<byte>) {
    exists body, seal :: Laid(token, id, body, seal) && Decode(Url, body) == Some(payload) && Decode(Url, seal) == Some(tag)
  }

  /**
   Exactly which tokens are accepted, and as what: those whose tag is the MAC of their own payload
   under a key the ring trusts, at that instant, for the ID the token claims.
   */
  lemma VerifyIff<P>(mac: Mac, unmarshal: seq<byte> -> Option<P>, ring: KeyRing, now: Time, token: string, p: P)
    ensures Verify(mac, unmarshal, ring, now, token) == Some(p) <==>
              exists id, payload, tag, key ::
                Reads(token, id, payload, tag) && Trusts(ring, id, now, key) && tag == mac(key.secret, payload) && unmarshal(payload) == Some(p)
  {
    hide Decode, TrimSpace;
    if Verify(mac, unmarshal, ring, now, token) == Some(p) {
      VerifySound(mac, unmarshal, ring, now, token);
      TokenReads(token);
    }
    forall id, payload, tag, key
      | Reads(token, id, payload, tag) && Trusts(ring, id, now, key) && tag == mac(key.secret, payload) && unmarshal(payload) == Some(p)
      ensures Verify(mac, unmarshal, ring, now, token) == Some(p)
    {
      ReadParts(token, id, payload, tag);
      KeysTrusted(ring, id, now, key);
      var keys := if id == "" then UnnamedKeys(ring, now) else NamedKeys(ring, id, now);
      assert key in keys;
      assert AnyTag(mac, keys, payload, tag);
    }
  }

  /** A token in readable parts reads as those parts. */
  lemma TokenReads(token: string)
    requires var parts := Split(token, '.'); 2 <= |parts| <= 3 && (|parts| == 3 ==> ClaimedId(token) != "")
    requires var parts := Split(token, '.'); Decode(Url, parts[|parts| - 2]).Some? && Decode(Url, parts[|parts| - 1]).Some?
    ensures var parts := Split(token, '.');
            Reads(token, ClaimedId(token), Decode(Url, parts[|parts| - 2]).value, Decode(Url, parts[|parts| - 1]).value)
  {
    hide Decode, TrimSpace;
    var parts := Split(token, '.');
    JoinSplit(token, '.');
    var body, seal := parts[|parts| - 2], parts[|parts| - 1];
    assert ['.'] == ".";
    assert parts[1..][0] == parts[1] && |parts[1..]| == |parts| - 1;
    if |parts| == 2 {
      assert Join(parts[1..], ".") == seal;
      assert token == body + "." + seal;
    } else {
      assert parts[1..][1..] == [seal];
      assert Join(parts[1..], ".") == body + "." + seal;
      assert token == parts[0] + "." + (body + "." + seal) == parts[0] + "." + body + "." + seal;
    }
    assert Laid(token, ClaimedId(token), body, seal);
  }

  lemma ReadParts(token: string, id: string, payload: seq<byte>, tag: seq<byte>)
    requires Reads(token, id, payload, tag)
    ensures var parts := Split(token, '.');
            && |parts| == (if id == "" then 2 else 3) && (id != "" ==> TrimSpace(parts[0]) == id)
            && Decode(Url, parts[|parts| - 2]) == Some(payload) && Decode(Url, parts[|parts| - 1]) == Some(tag)
  {
    hide Decode, TrimSpace, Laid;
    var body, seal :| Laid(token, id, body, seal) && Decode(Url, body) == Some(payload) && Decode(Url, seal) == Some(tag);
    LaidParts(token, id, body, seal);
  }

  lemma LaidParts(token: string, id: string, body: string, seal: string)
    requires Laid(token, id, body, seal)
    ensures var parts := Split(token, '.');
            && |parts| == (if id == "" then 2 else 3) && (id != "" ==> TrimSpace(parts[0]) == id)
            && parts[|parts| - 2] == body && parts[|parts| - 1] == seal
  {
    hide TrimSpace, Split;
    if id == "" {
      SplitTwo(body, seal);
    } else {
      var head :| '.' !in head && token == head + "." + body + "." + seal && id == TrimSpace(head) != "";
      SplitThree(head, body, seal);
    }
  }

  lemma SplitTwo(body: string, seal: string)
    requires '.' !in body && '.' !in seal
    ensures Split(body + "." + seal, '.') == [body, seal]
  {
    hide Split;
    SplitPrefix(body, '.', seal);
    SplitNoSep(seal, '.');
    assert ['.'] == ".";
  }

  lemma SplitThree(head: string, body: string, seal: string)
    requires '.' !in head && '.' !in body && '.' !in seal
    ensures Split(head + "." + body + "." + seal, '.') == [head, body, seal]
  {
    hide Split;
    SplitTwo(body, seal);
    SplitPrefix(head, '.', body + "." + seal);
    assert ['.'] == ".";
    assert head + "." + body + "." + seal == head + "." + (body + "." + seal);
  }

  lemma SignedParts(mac: Mac, key: SigningKey, payload: seq<byte>)
    requires '.' !in key.id
    ensures var tail := [Encode(Url, payload), Encode(Url, mac(key.secret, payload))];
            Split(Sign(mac, key, payload), '.') == if key.id == "" then tail else [key.id] + tail
  {
    var body, tag := Encode(Url, payload), Encode(Url, mac(key.secret, payload));
    EncodeAlphabet(Url, payload, '.');
    EncodeAlphabet(Url, mac(key.secret, payload), '.');
    SplitPrefix(body, '.', tag);
    SplitNoSep(tag, '.');
    if key.id != "" {
      SplitPrefix(key.id, '.', body + "." + tag);
      assert key.id + "." + (body + "." + tag) == key.id + ['.'] + (body + "." + tag);
    }
  }

  /**
   The exact verdict on any signed token, whoever signed it: it is accepted by a ring if and
   only if the payload decodes and some key trusted for the signer's ID produces the same MAC.
   */
  lemma SignedTokenVerdict<P>(mac: Mac, unmarshal: seq<byte> -> Option<P>, ring: KeyRing, now: Time,
                              signer: SigningKey, payload: seq<byte>)
    requires '.' !in signer.id && Trimmed(signer.id)
    ensures var honoured := exists key :: Trusts(ring, signer.id, now, key) && mac(key.secret, payload) == mac(signer.secret, payload);
            Verify(mac, unmarshal, ring, now, Sign(mac, signer, payload)) == if honoured then unmarshal(payload) else None
  {
    var token := Sign(mac, signer, payload);
    var parts := Split(token, '.');
    SignedParts(mac, signer, payload);
    DecodeEncode(Url, payload);
    DecodeEncode(Url, mac(signer.secret, payload));
    TrimSpaceTrims(signer.id);
    var keys := if |parts| == 2 then UnnamedKeys(ring, now) else NamedKeys(ring, TrimSpace(parts[0]), now);
    var tag := mac(signer.secret, payload);
    forall key
      ensures key in keys <==> Trusts(ring, signer.id, now, key)
    {
      KeysTrusted(ring, signer.id, now, key);
    }
    if AnyTag(mac, keys, payload, tag) {
      var i :| 0 <= i < |keys| && mac(keys[i].secret, payload) == tag;
      assert keys[i] in keys;
    }
  }

  /** A manager accepts every token it signs, for named and unnamed current keys alike. */
  lemma VerifyOwnSignature<P>(mac: Mac, unmarshal: seq<byte> -> Option<P>,
                              options: Options, env: map<string, seq<byte>>, ring: KeyRing, now: Time, payload: seq<byte>)
    requires IsRing(options, env, ring)
    ensures Verify(mac, unmarshal, ring, now, Sign(mac, ring.current, payload)) == unmarshal(payload)
  {
    TrimSpaceTrims(options.keyId);
    SignedTokenVerdict(mac, unmarshal, ring, now, ring.current, payload);
    assert Trusts(ring, ring.current.id, now, ring.current);
  }

  /**
   Key rotation: a manager configured with the old signer's key as a previous key (listed last
   under its ID, an ID other than the new current one) accepts the old signer's tokens exactly
   until the configured deadline, and forever when there is none.
   */
  lemma RotationDeadline<P>(mac: Mac, unmarshal: seq<byte> -> Option<P>,
                            oldOptions: Options, oldRing: KeyRing, newOptions: Options, newRing: KeyRing,
                            env: map<string, seq<byte>>, i: nat, now: Time, payload: seq<byte>)
    requires IsRing(oldOptions, env, oldRing) && IsRing(newOptions, env, newRing)
    requires i < |newOptions.previousKeys| && LastUnderId(Normalize(newOptions.previousKeys), i)
    requires TrimSpace(newOptions.previousKeys[i].id) == oldRing.current.id
    requires newOptions.previousKeys[i].secret == oldRing.current.secret
    requires oldRing.current.id != newRing.current.id
    ensures var deadline := newOptions.previousKeys[i].acceptUntil;
            Verify(mac, unmarshal, newRing, now, Sign(mac, oldRing.current, payload))
            == if deadline.None? || now < deadline.value then unmarshal(payload) else None
  {
    TrimSpaceTrims(oldOptions.keyId);
    SignedTokenVerdict(mac, unmarshal, newRing, now, oldRing.current, payload);
    LastKeyWins(Normalize(newOptions.previousKeys), i);
    var key := newRing.previous[oldRing.current.id];
    assert key == Normalized(newOptions.previousKeys[i]);
    if PreviousAccepted(key, now) {
      assert Trusts(newRing, oldRing.current.id, now, key);
    }
  }

  /**
   Why the IDs must differ: a previous key listed under the current named ID is never consulted,
   so whether an old token survives then depends only on the MACs colliding.
   */
  lemma RotationUnderSameId<P>(mac: Mac, unmarshal: seq<byte> -> Option<P>, ring: KeyRing, now: Time,
                               former: SigningKey, payload: seq<byte>)
    requires '.' !in former.id && Trimmed(former.id) && former.id != "" && former.id == ring.current.id
    ensures Verify(mac, unmarshal, ring, now, Sign(mac, former, payload))
            == if mac(ring.current.secret, payload) == mac(former.secret, payload) then unmarshal(payload) else None
  {
    SignedTokenVerdict(mac, unmarshal, ring, now, former, payload);
    assert Trusts(ring, former.id, now, ring.current);
  }
}
