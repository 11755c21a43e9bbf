/** `HashMiddleware`: every request must carry the shared key as the second
    space-separated token of its `Authorization` header (`Bearer <key>`).
    The key is compared with the configured `HASH_KEY` as UTF-8 buffers:
    first their byte lengths, then their bytes. */
module HashKey {
  import opened Wrappers
  import opened Strings
  import opened Utf8

  const HashKeyRequired: string := "Hash key is required"
  const InvalidHashKey: string := "Invalid hash key"

  /** What the middleware does with a request: pass it on, answer 401 with a
      message, or fail with a server error (the configured key is absent, so
      `Buffer.from(undefined)` throws). */
  datatype Outcome = Next | Unauthorized(message: string) | ServerError

  /** `req.headers.authorization?.split(' ')[1]`: undefined when the header
      is absent or has no space. */
  function ProvidedKey(authorization: Option<string>): (k: Option<string>)
    ensures authorization.None? ==> k.None?
    ensures authorization.Some? ==> (k.Some? <==> ' ' in authorization.value)
    ensures k.Some? ==> ' ' !in k.value
  {
    if authorization.None? then None
    else
      var parts := Split(authorization.value, ' ');
      SplitSeveral(authorization.value, ' ');
      if |parts| >= 2 then Some(parts[1]) else None
  }

  /** `verifyHash`: accepted only when both buffers have the same length and
      the same bytes; every other case is the 401 "Invalid hash key". */
  function VerifyHash(provided: string, expected: string): (r: Result<bool, string>)
    ensures r.Success? ==> r.value
    ensures r.Failure? ==> r.error == InvalidHashKey
    ensures |Encode(provided)| != |Encode(expected)| ==> r.Failure?
    ensures r.Success? <==> Encode(provided) == Encode(expected)
  {
    var p := Encode(provided);
    var e := Encode(expected);
    if |p| != |e| then Failure(InvalidHashKey)
    else if p == e then Success(true)
    else Failure(InvalidHashKey)
  }

  /** Byte equality is key equality: the check accepts exactly the
      configured key. */
  lemma VerifyHashAcceptsOnlyExpected(provided: string, expected: string)
    ensures VerifyHash(provided, expected).Success? <==> provided == expected
  {
    if VerifyHash(provided, expected).Success? {
      EncodeInjective(provided, expected);
    }
  }

  /** `use`: a missing or empty token is "Hash key is required" (`!providedKey`
      is true for `""` as well); otherwise the request goes on only if
      `verifyHash` accepts. */
  function Use(authorization: Option<string>, expected: Option<string>): (o: Outcome)
    ensures o == Unauthorized(HashKeyRequired) <==> ProvidedKey(authorization) in {None, Some("")}
    ensures o == Next <==> ProvidedKey(authorization).Some? && ProvidedKey(authorization).value != ""
                            && expected.Some?
                            && Encode(ProvidedKey(authorization).value) == Encode(expected.value)
    ensures o.ServerError? <==> expected.None? && ProvidedKey(authorization) !in {None, Some("")}
    ensures o.Unauthorized? && o != Unauthorized(HashKeyRequired) ==> o == Unauthorized(InvalidHashKey)
  {
    var key := ProvidedKey(authorization);
    if key.None? || key.value == "" then Unauthorized(HashKeyRequired)
    else if expected.None? then ServerError
    else match VerifyHash(key.value, expected.value)
      case Success(_) => Next
      case Failure(msg) => Unauthorized(msg)
  }

  /** For any header: the request goes on exactly when its token is the
      configured key and that key is not empty. */
  lemma UseNextIffExpectedKey(authorization: Option<string>, expected: string)
    ensures Use(authorization, Some(expected)) == Next
            <==> ProvidedKey(authorization) == Some(expected) && expected != ""
  {
    var key := ProvidedKey(authorization);
    if key.Some? {
      VerifyHashAcceptsOnlyExpected(key.value, expected);
    }
  }

  /** The key is the second space-separated token, whatever follows it. */
  lemma SecondToken(tokens: seq<string>)
    requires |tokens| >= 2
    requires forall i :: 0 <= i < |tokens| ==> ' ' !in tokens[i]
    ensures ProvidedKey(Some(Join(tokens, ' '))) == Some(tokens[1])
  {
    SplitJoin(tokens, ' ');
  }

  /** `Bearer <key>` yields the key when the key has no space. */
  lemma BearerKey(scheme: string, key: string)
    requires ' ' !in scheme && ' ' !in key
    ensures ProvidedKey(Some(scheme + " " + key)) == Some(key)
  {
    SplitPrefix(scheme, key, ' ');
    SplitFree(key, ' ');
    assert scheme + " " + key == scheme + [' '] + key;
  }

  /** End to end: a well-formed header passes exactly when it carries the
      configured key and that key is not empty. */
  lemma UseAcceptsOnlyExpected(scheme: string, key: string, expected: string)
    requires ' ' !in scheme && ' ' !in key
    ensures Use(Some(scheme + " " + key), Some(expected)) == Next <==> key == expected && key != ""
  {
    BearerKey(scheme, key);
    VerifyHashAcceptsOnlyExpected(key, expected);
  }

  /** A header without a space carries no key at all. */
  lemma NoSpaceIsRequired(header: string, expected: Option<string>)
    requires ' ' !in header
    ensures Use(Some(header), expected) == Unauthorized(HashKeyRequired)
  {
  }
}
