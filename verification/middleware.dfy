/**
  The API-key middleware (`controlplane/middleware.go`): it accepts a
  request only when its `Authorization` header is `Bearer` and a key,
  separated by exactly one space, and hands the key to the next handler.
 */
module Middleware {
  import opened Wrappers
  import opened Strs

  datatype AuthError = MissingHeader | InvalidFormat

  /** The message of the Unauthorized response. */
  function AuthErrorMessage(e: AuthError): (r: string)
    ensures e.MissingHeader? ==> r == "Authorization header is missing"
    ensures e.InvalidFormat? ==> r == "Invalid Authorization header format"
  {
    match e
    case MissingHeader => "Authorization header is missing"
    case InvalidFormat => "Invalid Authorization header format"
  }

  /**
    The header check: an empty header is missing; otherwise the header is
    split at every single space and must give exactly `Bearer` and the key.
   */
  function ParseAuthorization(header: string): (r: Result<string, AuthError>)
    ensures r == Failure(MissingHeader) <==> header == ""
    ensures r.Success? ==> Split(header, {' '}) == ["Bearer", r.value]
  {
    if header == "" then Failure(MissingHeader)
    else
      var parts := Split(header, {' '});
      if |parts| != 2 || parts[0] != "Bearer" then Failure(InvalidFormat)
      else Success(parts[1])
  }

  /** What happens to the request: an Unauthorized response, or the next handler with the key in the context. */
  datatype Outcome = Unauthorized(message: string) | Next(context: map<string, string>)

  /** `APIKeyMiddleware`: the next handler runs only on an accepted header, with `api_key` set to the key. */
  function APIKeyMiddleware(header: string, context: map<string, string>): (r: Outcome)
    ensures r.Next? <==> ParseAuthorization(header).Success?
    ensures r.Next? ==> r.context == context["api_key" := ParseAuthorization(header).value]
    ensures r.Unauthorized? ==> r.message == AuthErrorMessage(ParseAuthorization(header).error)
  {
    match ParseAuthorization(header)
    case Failure(e) => Unauthorized(AuthErrorMessage(e))
    case Success(key) => Next(context["api_key" := key])
  }

  predicate NoSpace(s: string) {
    forall k :: 0 <= k < |s| ==> s[k] != ' '
  }

  /** A header is accepted with key `key` exactly when it is `"Bearer "` followed by a key without spaces. */
  lemma {:induction false} AcceptedHeaders(header: string, key: string)
    ensures ParseAuthorization(header) == Success(key) <==> header == "Bearer " + key && NoSpace(key)
  {
    if header == "Bearer " + key && NoSpace(key) {
      assert header == "Bearer" + [' '] + key;
      SplitAtFirst("Bearer", ' ', key, {' '});
      SplitNoDelim(key, {' '});
      assert Split(header, {' '}) == ["Bearer", key];
    }
    if ParseAuthorization(header) == Success(key) {
      var parts := Split(header, {' '});
      assert parts == ["Bearer", key];
      SplitJoin(header, ' ');
      assert Join(parts, [' ']) == "Bearer" + [' '] + Join(parts[1..], [' ']);
      assert parts[1..] == [key];
      assert parts[1] == key;
    }
  }

  /** `"Bearer "` is accepted with the empty key. */
  lemma BearerWithEmptyKey()
    ensures ParseAuthorization("Bearer ") == Success("")
  {
    AcceptedHeaders("Bearer ", "");
  }

  /** A second space makes a third, empty piece, so the header is invalid. */
  lemma DoubleSpaceRejected()
    ensures ParseAuthorization("Bearer  k") == Failure(InvalidFormat)
  {
    var h := "Bearer  k";
    var t := h[7..];
    assert h == h[..6] + [' '] + t;
    assert t == [] + [' '] + t[1..];
    SplitAtFirst(h[..6], ' ', t, {' '});
    SplitAtFirst([], ' ', t[1..], {' '});
    assert |Split(h, {' '})| >= 3;
  }

  /** The scheme name is compared case-sensitively. */
  lemma LowerCaseSchemeRejected()
    ensures ParseAuthorization("bearer k") == Failure(InvalidFormat)
  {
    SplitAtFirst("bearer", ' ', "k", {' '});
    assert "bearer k" == "bearer" + [' '] + "k";
    assert Split("bearer k", {' '})[0] == "bearer";
  }
}
