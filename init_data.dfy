/**
 * Validation of Telegram Mini App init data (`validateInitData`): the
 * procedure Telegram documents as "Validating data received via the Mini
 * App", with HMAC-SHA-256 as the keyed digest.
 *
 * The input is the sequence of already percent-decoded entries that
 * `new URLSearchParams(initData)` holds, in their order of arrival. The
 * cryptographic primitives and the JSON parser are foreign code; they are
 * parameters (`Crypto`) about which nothing is assumed except, where a lemma
 * says so, the output lengths of HMAC-SHA-256 and hex encoding.
 */
module TelegramInitData {
  import opened Wrappers
  import opened Sequences
  import opened Sorting
  import opened JsStrings

  newtype Byte = x: int | 0 <= x < 0x100

  /** One decoded `name=value` entry of the init data. */
  datatype Pair = Pair(key: JsString, value: JsString)

  /** The entries of a `URLSearchParams` object, duplicates and order included. */
  type Params = seq<Pair>

  const HashKey: JsString := Utf16("hash")
  const UserKey: JsString := Utf16("user")
  const WebAppData: JsString := Utf16("WebAppData")
  const EqualsSign: JsString := Utf16("=")
  /** What a template literal renders for `null`. */
  const NullText: JsString := Utf16("null")

  /**
   * The foreign primitives the validator calls:
   * `utf8` is how CryptoJS turns a string argument into bytes,
   * `hmacSha256(key, message)` is HMAC-SHA-256,
   * `hex` is `toString(CryptoJS.enc.Hex)`,
   * `parseJson` is `JSON.parse`, failing with the text of the SyntaxError it throws.
   */
  datatype Crypto<J> = Crypto(
    utf8: JsString -> seq<Byte>,
    hmacSha256: (seq<Byte>, seq<Byte>) -> seq<Byte>,
    hex: seq<Byte> -> JsString,
    parseJson: JsString -> Result<J, string>)

  /** HMAC-SHA-256 yields 32 bytes and hex encoding two characters per byte. */
  ghost predicate Sound<J>(c: Crypto<J>) {
    && (forall key, message :: |c.hmacSha256(key, message)| == 32)
    && (forall bytes :: |c.hex(bytes)| == 2 * |bytes|)
  }

  /** Why validation failed: the three errors the validator throws, and a JSON syntax error. */
  datatype InitDataError = HashMissing | HashMismatch | UserMissing | UserNotJson(syntaxError: string)

  /** The message of the thrown error; the validator's own errors share one prefix. */
  function Message(e: InitDataError): (m: string)
    ensures !e.UserNotJson? ==> "Invalid initData: " <= m
    ensures e.UserNotJson? ==> m == e.syntaxError
  {
    match e
    case HashMissing => "Invalid initData: Hash is missing"
    case HashMismatch => "Invalid initData: Hash does not match"
    case UserMissing => "Invalid initData: User data is missing"
    case UserNotJson(text) => text
  }

  lemma HashAndUserKeysDiffer()
    ensures HashKey != UserKey
  {
    assert HashKey[0] == 0x68;
    assert UserKey[0] == 0x75;
  }

  // ---------------------------------------------------------------------------
  // URLSearchParams

  /** Index of the first entry named `name`, or `|params|` when there is none. */
  function IndexOf(params: Params, name: JsString): (i: nat)
    ensures i <= |params|
    ensures forall j | 0 <= j < i :: params[j].key != name
    ensures i < |params| ==> params[i].key == name
  {
    if params == [] then 0
    else if params[0].key == name then 0
    else 1 + IndexOf(params[1..], name)
  }

  /** `params.get(name)`: the value of the first entry named `name`, or null. */
  function Get(params: Params, name: JsString): (r: Option<JsString>)
    ensures r.None? <==> forall i | 0 <= i < |params| :: params[i].key != name
    ensures r.Some? ==> exists i | 0 <= i < |params| ::
      params[i] == Pair(name, r.value) && forall j | 0 <= j < i :: params[j].key != name
  {
    var i := IndexOf(params, name);
    if i < |params| then Some(params[i].value) else None
  }

  /** `params.delete(name)`: removes every entry named `name`, keeping the others in order. */
  function Delete(params: Params, name: JsString): (r: Params)
    ensures forall i | 0 <= i < |r| :: r[i].key != name
    ensures forall e {:trigger multiset(r)[e]} ::
      multiset(r)[e] == if e.key == name then 0 else multiset(params)[e]
  {
    var r := Filter(params, (e: Pair) => e.key != name);
    assert forall i | 0 <= i < |r| :: r[i] in multiset(r);
    r
  }

  /**
   * `params.keys()`: the name of every entry, in entry order, repeats
   * included; a name is listed exactly when `get` finds a value for it.
   */
  function Keys(params: Params): (r: seq<JsString>)
    ensures |r| == |params|
    ensures forall i | 0 <= i < |params| :: r[i] == params[i].key
    ensures forall name :: name in r <==> Get(params, name).Some?
  {
    var r := Map(params, (e: Pair) => e.key);
    assert forall name :: name in r <==> exists i | 0 <= i < |params| :: params[i].key == name by {
      forall name | name in r ensures exists i | 0 <= i < |params| :: params[i].key == name {
        var i :| 0 <= i < |r| && r[i] == name;
        assert params[i].key == name;
      }
      forall name | exists i | 0 <= i < |params| :: params[i].key == name ensures name in r {
        var i :| 0 <= i < |params| && params[i].key == name;
        assert r[i] == name;
      }
    }
    r
  }

  lemma GetCons(e: Pair, params: Params, name: JsString)
    ensures Get([e] + params, name) == if e.key == name then Some(e.value) else Get(params, name)
  {
    assert ([e] + params)[1..] == params;
  }

  lemma KeysAppend(a: Params, b: Params)
    ensures Keys(a + b) == Keys(a) + Keys(b)
  {
    MapAppend(a, b, (e: Pair) => e.key);
  }

  /** Deleting entries named `name` leaves the first value of every other name unchanged. */
  lemma {:induction false} GetAfterDelete(params: Params, name: JsString, other: JsString)
    requires other != name
    ensures Get(Delete(params, name), other) == Get(params, other)
  {
    if params != [] {
      var e := params[0];
      assert params == [e] + params[1..];
      var keep := (x: Pair) => x.key != name;
      assert Delete(params, name) == if keep(e) then [e] + Filter(params[1..], keep) else Filter(params[1..], keep);
      GetAfterDelete(params[1..], name, other);
      GetCons(e, params[1..], other);
      if keep(e) {
        GetCons(e, Filter(params[1..], keep), other);
      }
    }
  }

  /** Deleting `name` removes exactly its occurrences from the key list. */
  lemma {:induction false} KeysAfterDelete(params: Params, name: JsString)
    ensures forall k {:trigger multiset(Keys(Delete(params, name)))[k]} ::
      multiset(Keys(Delete(params, name)))[k] == if k == name then 0 else multiset(Keys(params))[k]
  {
    if params != [] {
      var e := params[0];
      var keep := (x: Pair) => x.key != name;
      var kept := if keep(e) then [e] else [];
      assert params == [e] + params[1..];
      assert Delete(params, name) == kept + Delete(params[1..], name);
      KeysAppend(kept, Delete(params[1..], name));
      KeysAppend([e], params[1..]);
      KeysAfterDelete(params[1..], name);
    }
  }

  // ---------------------------------------------------------------------------
  // The data-check string

  /** The names of the signed entries, in ascending code-unit order, once per occurrence. */
  function SortedKeys(params: Params): (ks: seq<JsString>)
    ensures Sorted(ks, LessEq)
    ensures |ks| == |Delete(params, HashKey)|
    ensures forall k {:trigger multiset(ks)[k]} ::
      multiset(ks)[k] == if k == HashKey then 0 else multiset(Keys(params))[k]
  {
    LessEqIsTotalOrder();
    KeysAfterDelete(params, HashKey);
    Sort(Keys(Delete(params, HashKey)), LessEq)
  }

  /** The line `name=value` for `name`, taking the first value recorded for it. */
  function Line(params: Params, name: JsString): JsString {
    name + EqualsSign + match Get(params, name) case Some(v) => v case None => NullText
  }

  /** The lines of the data-check string, one per entry that is not `hash`, in sorted order. */
  function DataCheckLines(params: Params): (lines: seq<JsString>)
    ensures |lines| == |SortedKeys(params)| == |Delete(params, HashKey)|
  {
    var rest := Delete(params, HashKey);
    var ks := SortedKeys(params);
    seq(|ks|, i requires 0 <= i < |ks| => Line(rest, ks[i]))
  }

  /**
   * The data-check string: the lines joined by a newline. Each line stands at
   * its offset, a single newline stands between neighbours, and nothing leads
   * or trails.
   */
  function DataCheckString(params: Params): (r: JsString)
    ensures SeparatedBy(r, DataCheckLines(params), Newline)
  {
    JoinSeparated(DataCheckLines(params), Newline);
    Join(DataCheckLines(params), Newline)
  }

  /**
   * Line `i` of the data-check string is `k=v` for the `i`-th sorted name `k`,
   * which is not `hash`, and `v` is the first value the init data gives `k`.
   */
  lemma DataCheckLineAt(params: Params, i: nat)
    requires i < |DataCheckLines(params)|
    ensures var k := SortedKeys(params)[i];
      && k != HashKey
      && Get(params, k).Some?
      && DataCheckLines(params)[i] == k + EqualsSign + Get(params, k).value
  {
    var ks := SortedKeys(params);
    var k := ks[i];
    assert k in multiset(ks);
    assert k != HashKey;
    assert k in multiset(Keys(params));
    var j :| 0 <= j < |params| && Keys(params)[j] == k;
    GetAfterDelete(params, HashKey, k);
  }

  // ---------------------------------------------------------------------------
  // Signing and validation

  /**
   * The secret key: HMAC-SHA-256 keyed with "WebAppData" over the bot token
   * (CryptoJS takes the message first and the key second). It is a 32-byte
   * digest that depends on nothing but the token.
   */
  function SecretKey<J>(c: Crypto<J>, botToken: JsString): (key: seq<Byte>)
    ensures Sound(c) ==> |key| == 32
  {
    c.hmacSha256(c.utf8(WebAppData), c.utf8(botToken))
  }

  /** The hex HMAC of the data-check string under the secret key: 64 hex digits. */
  function ComputedHash<J>(c: Crypto<J>, params: Params, botToken: JsString): (h: JsString)
    ensures Sound(c) ==> |h| == 64
  {
    c.hex(c.hmacSha256(SecretKey(c, botToken), c.utf8(DataCheckString(params))))
  }

  /** The `hash` entries are not signed: the computed hash is that of the other entries alone. */
  lemma ComputedHashIgnoresHashEntries<J>(c: Crypto<J>, params: Params, botToken: JsString)
    ensures ComputedHash(c, params, botToken) == ComputedHash(c, Delete(params, HashKey), botToken)
  {
    var rest := Delete(params, HashKey);
    FilterAll(rest, (x: Pair) => x.key != HashKey);
    DataCheckStringOfSigned(params, rest);
  }

  /**
   * `!hash` is false: the first `hash` entry exists and its value is not
   * empty (later `hash` entries are never looked at).
   */
  predicate HasHash(params: Params)
    ensures HasHash(params) <==> exists i | 0 <= i < |params| ::
      && params[i].key == HashKey && params[i].value != []
      && forall j | 0 <= j < i :: params[j].key != HashKey
  {
    var i := IndexOf(params, HashKey);
    i < |params| && params[i].value != []
  }

  /**
   * The hash check passes: the first `hash` entry is non-empty and equals
   * the computed hash.
   */
  predicate HashMatches<J>(c: Crypto<J>, params: Params, botToken: JsString)
    ensures HashMatches(c, params, botToken) <==> exists i | 0 <= i < |params| ::
      && params[i] == Pair(HashKey, ComputedHash(c, params, botToken)) && params[i].value != []
      && forall j | 0 <= j < i :: params[j].key != HashKey
  {
    HasHash(params) && ComputedHash(c, params, botToken) == Get(params, HashKey).value
  }

  /**
   * The last step, after the hash check: a missing or empty `user` value is
   * an error; otherwise the JSON parse of the value decides, and its syntax
   * error is passed on unchanged.
   */
  function ExtractUser<J>(c: Crypto<J>, params: Params): (r: Result<J, InitDataError>)
    ensures r.Failure? ==> r.error.UserMissing? || r.error.UserNotJson?
    ensures r.Failure? && r.error == UserMissing <==> (Get(params, UserKey).None? || Get(params, UserKey).value == [])
    ensures r.Success? <==>
      && Get(params, UserKey).Some? && Get(params, UserKey).value != []
      && c.parseJson(Get(params, UserKey).value).Success?
    ensures r.Success? ==> c.parseJson(Get(params, UserKey).value) == Success(r.value)
    ensures r.Failure? && r.error.UserNotJson? ==>
      Get(params, UserKey).Some? && c.parseJson(Get(params, UserKey).value) == Failure(r.error.syntaxError)
  {
    var userJson := Get(params, UserKey);
    if userJson.None? || userJson.value == [] then Failure(UserMissing)
    else match c.parseJson(userJson.value)
      case Success(user) => Success(user)
      case Failure(text) => Failure(UserNotJson(text))
  }

  /** `validateInitData`: the parsed `user` claim, or the first check that failed. */
  function Validate<J>(c: Crypto<J>, params: Params, botToken: JsString): (r: Result<J, InitDataError>)
    ensures (r.Failure? && r.error == HashMissing) <==> !HasHash(params)
    ensures (r.Failure? && r.error == HashMismatch) <==> HasHash(params) && !HashMatches(c, params, botToken)
    ensures r.Success? <==>
      && HashMatches(c, params, botToken)
      && Get(params, UserKey).Some? && Get(params, UserKey).value != []
      && c.parseJson(Get(params, UserKey).value).Success?
    ensures r.Success? ==> c.parseJson(Get(params, UserKey).value) == Success(r.value)
    ensures r.Failure? && r.error.UserNotJson? ==>
      && HashMatches(c, params, botToken)
      && Get(params, UserKey).Some?
      && c.parseJson(Get(params, UserKey).value) == Failure(r.error.syntaxError)
  {
    if !HasHash(params) then Failure(HashMissing)
    else if !HashMatches(c, params, botToken) then Failure(HashMismatch)
    else
      UserSurvivesHashRemoval(params);
      ExtractUser(c, Delete(params, HashKey))
  }

  /** Removing `hash` leaves the `user` lookup as it was. */
  lemma UserSurvivesHashRemoval(params: Params)
    ensures Get(Delete(params, HashKey), UserKey) == Get(params, UserKey)
  {
    HashAndUserKeysDiffer();
    GetAfterDelete(params, HashKey, UserKey);
  }

  /**
   * The user checks come after the hash check: a missing or empty `user`
   * is reported exactly when the hash matched, and a JSON syntax error only
   * after a match.
   */
  lemma ValidateUserChecks<J>(c: Crypto<J>, params: Params, botToken: JsString)
    ensures var r := Validate(c, params, botToken);
      (r.Failure? && r.error == UserMissing) <==>
        HashMatches(c, params, botToken) && (Get(params, UserKey).None? || Get(params, UserKey).value == [])
    ensures var r := Validate(c, params, botToken);
      r.Failure? && r.error.UserNotJson? ==> HashMatches(c, params, botToken)
  {
    if HashMatches(c, params, botToken) {
      ValidateAfterHashMatch(c, params, botToken);
    }
  }

  /**
   * Once the hash matches, the outcome is decided by the first `user` value
   * of the init data as received: missing or empty is an error, otherwise
   * its JSON parse or the parser's syntax error.
   */
  lemma ValidateAfterHashMatch<J>(c: Crypto<J>, params: Params, botToken: JsString)
    requires HashMatches(c, params, botToken)
    ensures var user := Get(params, UserKey);
      Validate(c, params, botToken) ==
        if user.None? || user.value == [] then Failure(UserMissing)
        else match c.parseJson(user.value)
          case Success(claim) => Success(claim)
          case Failure(text) => Failure(UserNotJson(text))
  {
    UserSurvivesHashRemoval(params);
  }

  // ---------------------------------------------------------------------------
  // Properties

  /** No two entries share a name. */
  predicate UniqueKeys(params: Params) {
    forall i, j | 0 <= i < j < |params| :: params[i].key != params[j].key
  }

  /** With unique names, the value looked up does not depend on the order of the entries. */
  lemma GetPermutation(p1: Params, p2: Params, name: JsString)
    requires multiset(p1) == multiset(p2) && UniqueKeys(p1)
    ensures Get(p1, name) == Get(p2, name)
  {
    if Get(p1, name).Some? {
      var v1 := Get(p1, name).value;
      var i1 :| 0 <= i1 < |p1| && p1[i1] == Pair(name, v1);
      assert Pair(name, v1) in multiset(p2);
      assert Get(p2, name).Some?;
      var v2 := Get(p2, name).value;
      var i2 :| 0 <= i2 < |p2| && p2[i2] == Pair(name, v2);
      assert Pair(name, v2) in multiset(p1);
      var j :| 0 <= j < |p1| && p1[j] == Pair(name, v2);
      assert i1 == j;
    } else {
      forall i | 0 <= i < |p2| ensures p2[i].key != name {
        assert p2[i] in multiset(p1);
      }
    }
  }

  /** Permuting the entries permutes their names. */
  lemma KeysPermutation(p1: Params, p2: Params)
    requires multiset(p1) == multiset(p2)
    ensures multiset(Keys(p1)) == multiset(Keys(p2))
  {
    MapPermutation(p1, p2, (e: Pair) => e.key);
  }

  /** The sorted names do not depend on the order in which the entries arrived. */
  lemma SortedKeysPermutation(p1: Params, p2: Params)
    requires multiset(p1) == multiset(p2)
    ensures SortedKeys(p1) == SortedKeys(p2)
  {
    var ks1, ks2 := SortedKeys(p1), SortedKeys(p2);
    KeysPermutation(p1, p2);
    assert forall k :: multiset(ks1)[k] == multiset(ks2)[k];
    assert multiset(ks1) == multiset(ks2);
    LessEqIsTotalOrder();
    SortedUnique(ks1, ks2, LessEq);
  }

  /**
   * Order independence: when names are unique, any rearrangement of the
   * entries yields the same data-check string.
   */
  lemma DataCheckStringPermutation(p1: Params, p2: Params)
    requires multiset(p1) == multiset(p2) && UniqueKeys(p1)
    ensures DataCheckString(p1) == DataCheckString(p2)
  {
    SortedKeysPermutation(p1, p2);
    var ks := SortedKeys(p1);
    var l1, l2 := DataCheckLines(p1), DataCheckLines(p2);
    forall i | 0 <= i < |ks| ensures l1[i] == l2[i] {
      DataCheckLineAt(p1, i);
      DataCheckLineAt(p2, i);
      GetPermutation(p1, p2, ks[i]);
    }
    assert l1 == l2;
  }

  /** Validation depends on the init data only through the hash, the computed hash and the user value. */
  lemma ValidateAgrees<J>(c: Crypto<J>, p1: Params, p2: Params, botToken: JsString)
    requires Get(p1, HashKey) == Get(p2, HashKey)
    requires ComputedHash(c, p1, botToken) == ComputedHash(c, p2, botToken)
    requires Get(p1, UserKey) == Get(p2, UserKey)
    ensures Validate(c, p1, botToken) == Validate(c, p2, botToken)
  {
    if HashMatches(c, p1, botToken) {
      ValidateAfterHashMatch(c, p1, botToken);
      ValidateAfterHashMatch(c, p2, botToken);
    }
  }

  /**
   * When names are unique, the whole outcome of validation, including the
   * computed hash, does not depend on the order of the entries.
   */
  lemma ValidatePermutation<J>(c: Crypto<J>, p1: Params, p2: Params, botToken: JsString)
    requires multiset(p1) == multiset(p2) && UniqueKeys(p1)
    ensures ComputedHash(c, p1, botToken) == ComputedHash(c, p2, botToken)
    ensures Validate(c, p1, botToken) == Validate(c, p2, botToken)
  {
    DataCheckStringPermutation(p1, p2);
    GetPermutation(p1, p2, HashKey);
    GetPermutation(p1, p2, UserKey);
    ValidateAgrees(c, p1, p2, botToken);
  }

  /**
   * The bot token enters validation only through the derived secret key: two
   * tokens with the same secret key validate every init data alike.
   */
  lemma ValidateDependsOnSecretKeyOnly<J>(c: Crypto<J>, params: Params, token1: JsString, token2: JsString)
    requires SecretKey(c, token1) == SecretKey(c, token2)
    ensures Validate(c, params, token1) == Validate(c, params, token2)
  {
  }

  /** Deleting `hash` from init data with one inserted `hash` entry gives back the rest. */
  lemma DeleteInserted(params: Params, at: nat, e: Pair)
    requires e.key == HashKey && at <= |params|
    requires forall i | 0 <= i < |params| :: params[i].key != HashKey
    ensures Delete(params[..at] + [e] + params[at..], HashKey) == params
  {
    var keep := (x: Pair) => x.key != HashKey;
    assert params == params[..at] + params[at..];
    FilterAppend(params[..at] + [e], params[at..], keep);
    FilterAppend(params[..at], [e], keep);
    FilterAll(params[..at], keep);
    FilterAll(params[at..], keep);
  }

  /** The inserted entry is the first `hash` entry. */
  lemma GetInserted(params: Params, at: nat, e: Pair)
    requires e.key == HashKey && at <= |params|
    requires forall i | 0 <= i < |params| :: params[i].key != HashKey
    ensures Get(params[..at] + [e] + params[at..], HashKey) == Some(e.value)
  {
    var signed := params[..at] + [e] + params[at..];
    assert signed[at] == e;
  }

  /** The data-check string depends only on the entries that are not `hash`. */
  lemma DataCheckStringOfSigned(p1: Params, p2: Params)
    requires Delete(p1, HashKey) == Delete(p2, HashKey)
    ensures DataCheckString(p1) == DataCheckString(p2)
  {
    assert SortedKeys(p1) == SortedKeys(p2);
  }

  /** Init data signed the way Telegram signs it passes the hash check. */
  lemma SignedHashMatches<J>(c: Crypto<J>, params: Params, botToken: JsString, at: nat)
    requires Sound(c)
    requires forall i | 0 <= i < |params| :: params[i].key != HashKey
    requires at <= |params|
    ensures var signed := params[..at] + [Pair(HashKey, ComputedHash(c, params, botToken))] + params[at..];
      HashMatches(c, signed, botToken) && Delete(signed, HashKey) == params
  {
    var hash := ComputedHash(c, params, botToken);
    var e := Pair(HashKey, hash);
    var signed := params[..at] + [e] + params[at..];
    DeleteInserted(params, at, e);
    GetInserted(params, at, e);
    FilterAll(params, (x: Pair) => x.key != HashKey);
    DataCheckStringOfSigned(signed, params);
    assert |hash| == 64;
  }

  /**
   * Round trip: init data signed the way Telegram signs it (a `hash` entry
   * holding the computed hash of the other entries, inserted anywhere) passes
   * the hash check, and validation returns the parse of a non-empty `user`.
   */
  lemma SignedInitDataAccepted<J>(c: Crypto<J>, params: Params, botToken: JsString, at: nat, user: JsString)
    requires Sound(c)
    requires forall i | 0 <= i < |params| :: params[i].key != HashKey
    requires at <= |params|
    requires Get(params, UserKey) == Some(user) && user != []
    ensures var signed := params[..at] + [Pair(HashKey, ComputedHash(c, params, botToken))] + params[at..];
      Validate(c, signed, botToken) ==
        match c.parseJson(user)
        case Success(claim) => Success(claim)
        case Failure(text) => Failure(UserNotJson(text))
  {
    var signed := params[..at] + [Pair(HashKey, ComputedHash(c, params, botToken))] + params[at..];
    SignedHashMatches(c, params, botToken, at);
    UserSurvivesHashRemoval(signed);
    ValidateAfterHashMatch(c, signed, botToken);
  }
}
