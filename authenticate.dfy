/**
 * The bearer-token gate of the authentication middleware: for one ASGI scope
 * it either forwards the request to the wrapped application or answers with a
 * fixed 401 plain-text response. The configured token is the value of the
 * AUTH_TOKEN environment variable read once at start-up, `None` when unset.
 */
module Authenticate {
  import opened Wrappers
  import opened Text
  import opened Headers

  /** `Forward`: the wrapped application is awaited with the original scope,
      receive and send. `Reject`: a plain-text response with this status code
      and body is sent instead, and the wrapped application is not called. */
  datatype Outcome = Forward | Reject(status: int, body: string)

  const MissingHeaderBody: string := "Missing Authorization Header"
  const UnauthorizedBody: string := "Unauthorized"

  // ------------------------------------------------------- token extraction

  /** The token of an Authorization value: the value is stripped and split once
      on whitespace; a token exists only when there are two parts and the
      first, lowered, is "bearer". */
  function BearerToken(value: string): (token: Option<string>)
    ensures token.Some? ==> token.value != [] && Trimmed(token.value)
  {
    var parts := SplitOnce(Strip(value));
    if |parts| == 2 && Lower(parts[0]) == "bearer" then
      SplitOnceKeepsSuffix(Strip(value));
      Some(parts[1])
    else
      None
  }

  /** The second part of a split is the verbatim tail of the split string, so
      a trimmed string yields a trimmed second part. */
  lemma SplitOnceKeepsSuffix(s: string)
    requires |SplitOnce(s)| == 2
    ensures Trimmed(s) ==> Trimmed(SplitOnce(s)[1])
  {
    var a, b := SplitOnce(s)[0], SplitOnce(s)[1];
    var w1, w2 := SplitOnceTwoShape(s, a, b);
    if Trimmed(s) {
      TrimmedTail(w1 + a + w2, b);
    }
  }

  lemma TrimmedTail(p: string, b: string)
    requires b != [] && !IsSpace(b[0]) && Trimmed(p + b)
    ensures Trimmed(b)
  {
    assert (p + b)[|p + b| - 1] == b[|b| - 1];
  }

  /** A well-formed Bearer value: optional whitespace, the scheme in any mix of
      cases, at least one whitespace character, the token, optional
      whitespace. The token may hold inner whitespace but does not start or
      end with it. */
  ghost predicate BearerForm(value: string, token: string) {
    && token != [] && Trimmed(token)
    && exists w1, scheme, w2, w3 ::
      && AllSpace(w1) && Lower(scheme) == "bearer" && AllSpace(w2) && w2 != [] && AllSpace(w3)
      && value == w1 + scheme + w2 + token + w3
  }

  /** Every well-formed Bearer value yields its token. */
  lemma BearerTokenAccepts(w1: string, scheme: string, w2: string, token: string, w3: string)
    requires AllSpace(w1) && Lower(scheme) == "bearer" && AllSpace(w2) && w2 != [] && AllSpace(w3)
    requires token != [] && Trimmed(token)
    ensures BearerToken(w1 + scheme + w2 + token + w3) == Some(token)
  {
    BearerValueParts(w1, scheme, w2, token, w3);
  }

  /** What Strip and SplitOnce make of a well-formed Bearer value. */
  lemma BearerValueParts(w1: string, scheme: string, w2: string, token: string, w3: string)
    requires AllSpace(w1) && Lower(scheme) == "bearer" && AllSpace(w2) && w2 != [] && AllSpace(w3)
    requires token != [] && Trimmed(token)
    ensures Strip(w1 + scheme + w2 + token + w3) == scheme + w2 + token
    ensures SplitOnce(scheme + w2 + token) == [scheme, token]
  {
    var m := scheme + w2 + token;
    SchemeHasNoSpace(scheme);
    assert w1 + scheme + w2 + token + w3 == w1 + m + w3;
    StripExact(w1, m, w3);
    SplitSchemeToken(scheme, w2, token);
  }

  lemma SplitSchemeToken(scheme: string, w2: string, token: string)
    requires scheme != [] && NoSpace(scheme) && w2 != [] && AllSpace(w2)
    requires token != [] && !IsSpace(token[0])
    ensures SplitOnce(scheme + w2 + token) == [scheme, token]
  {
    assert [] + scheme + w2 + token == scheme + w2 + token;
    SplitOnceTwo([], scheme, w2, token);
  }

  /** A scheme that lowers to "bearer" is a single word. */
  lemma SchemeHasNoSpace(scheme: string)
    requires Lower(scheme) == "bearer"
    ensures scheme != [] && NoSpace(scheme)
  {
    LowerKeepsSpaces(scheme);
    assert NoSpace("bearer");
  }

  /** Every token extracted comes from a well-formed Bearer value. */
  lemma BearerTokenShape(value: string, token: string)
    requires BearerToken(value) == Some(token)
    ensures BearerForm(value, token)
  {
    var scheme := SplitOnce(Strip(value))[0];
    assert SplitOnce(Strip(value)) == [scheme, token] && Lower(scheme) == "bearer";
    BearerFormFromSplit(value, scheme, token);
  }

  /** A value whose stripped form splits into a Bearer scheme and a trimmed
      token is well formed around that token. */
  lemma BearerFormFromSplit(value: string, scheme: string, token: string)
    requires SplitOnce(Strip(value)) == [scheme, token] && Lower(scheme) == "bearer"
    requires token != [] && Trimmed(token)
    ensures BearerForm(value, token)
  {
    var x1, w2 := SplitOnceTwoShape(Strip(value), scheme, token);
    var u1, u3 := StripSplit(value);
    assert AllSpace(u1 + x1) by {
      AllSpaceConcat(u1, x1);
    }
    assert value == (u1 + x1) + scheme + w2 + token + u3 by {
      Regroup(u1, x1, scheme, w2, token, u3);
    }
    BearerFormIntro(value, u1 + x1, scheme, w2, token, u3);
  }

  lemma BearerFormIntro(value: string, w1: string, scheme: string, w2: string, token: string, w3: string)
    requires token != [] && Trimmed(token)
    requires AllSpace(w1) && Lower(scheme) == "bearer" && AllSpace(w2) && w2 != [] && AllSpace(w3)
    requires value == w1 + scheme + w2 + token + w3
    ensures BearerForm(value, token)
  {
  }

  lemma Regroup(u1: string, x1: string, scheme: string, w2: string, token: string, u3: string)
    ensures u1 + (x1 + scheme + w2 + token) + u3 == (u1 + x1) + scheme + w2 + token + u3
  {
  }

  lemma AllSpaceConcat(a: string, b: string)
    requires AllSpace(a) && AllSpace(b)
    ensures AllSpace(a + b)
  {
    forall i | 0 <= i < |a + b| ensures IsSpace((a + b)[i]) {
      if i < |a| { assert (a + b)[i] == a[i]; } else { assert (a + b)[i] == b[i - |a|]; }
    }
  }

  /** A token is extracted exactly from the well-formed Bearer values. */
  lemma BearerTokenIff(value: string, token: string)
    ensures BearerToken(value) == Some(token) <==> BearerForm(value, token)
  {
    if BearerToken(value) == Some(token) {
      BearerTokenShape(value, token);
    }
    if BearerForm(value, token) {
      var w1, scheme, w2, w3 :|
        && AllSpace(w1) && Lower(scheme) == "bearer" && AllSpace(w2) && w2 != [] && AllSpace(w3)
        && value == w1 + scheme + w2 + token + w3;
      BearerTokenAccepts(w1, scheme, w2, token, w3);
    }
  }

  /** No token is extracted exactly from the values that are not well-formed
      Bearer values for any token. */
  lemma BearerTokenNone(value: string)
    ensures BearerToken(value) == None <==> forall t :: !BearerForm(value, t)
  {
    if BearerToken(value).Some? {
      BearerTokenShape(value, BearerToken(value).value);
    } else {
      forall t | BearerForm(value, t) ensures false {
        BearerTokenIff(value, t);
      }
    }
  }

  /** A value whose first word is any scheme other than "bearer", in any
      case, yields no token. */
  lemma BearerTokenOtherScheme(w1: string, scheme: string, rest: string)
    requires AllSpace(w1) && scheme != [] && NoSpace(scheme) && Lower(scheme) != "bearer"
    requires rest == [] || IsSpace(rest[0])
    ensures BearerToken(w1 + scheme + rest) == None
  {
    FirstWordParts(w1, scheme, rest);
  }

  /** What Strip and SplitOnce make of a value that starts with a word. */
  lemma FirstWordParts(w1: string, scheme: string, rest: string)
    requires AllSpace(w1) && scheme != [] && NoSpace(scheme)
    requires rest == [] || IsSpace(rest[0])
    ensures Strip(w1 + scheme + rest) == scheme + TrimRight(rest)
    ensures |SplitOnce(scheme + TrimRight(rest))| >= 1 && SplitOnce(scheme + TrimRight(rest))[0] == scheme
  {
    StripFirstWord(w1, scheme, rest);
    var r := TrimRight(rest);
    assert r == [] || IsSpace(r[0]);
    SplitFirstWord(scheme, r);
  }

  lemma StripFirstWord(w1: string, scheme: string, rest: string)
    requires AllSpace(w1) && scheme != [] && NoSpace(scheme)
    ensures Strip(w1 + scheme + rest) == scheme + TrimRight(rest)
  {
    assert w1 + scheme + rest == w1 + (scheme + rest);
    TrimLeftExact(w1, scheme + rest);
    TrimRightPrepend(scheme, rest);
  }

  lemma SplitFirstWord(scheme: string, r: string)
    requires scheme != [] && NoSpace(scheme) && (r == [] || IsSpace(r[0]))
    ensures |SplitOnce(scheme + r)| >= 1 && SplitOnce(scheme + r)[0] == scheme
  {
    assert [] + scheme + r == scheme + r;
    SplitOnceFirst([], scheme, r);
  }

  /** Leading and trailing whitespace of the header value never matter. */
  lemma BearerTokenIgnoresOuterSpace(w1: string, value: string, w2: string)
    requires AllSpace(w1) && AllSpace(w2)
    ensures BearerToken(w1 + value + w2) == BearerToken(value)
  {
    StripIgnoresOuterSpace(w1, value, w2);
  }

  /** A value with no whitespace left after stripping (empty, blank, or a
      lone scheme such as "Bearer") yields no token. */
  lemma BearerTokenNeedsSeparator(value: string)
    requires NoSpace(Strip(value))
    ensures BearerToken(value) == None
  {
    SplitOnceNoSpace(Strip(value));
  }

  // ------------------------------------------------------------- the gate

  /** The middleware's decision for one scope. Only "http" scopes are checked.
      A missing or empty Authorization header is answered with "Missing
      Authorization Header"; otherwise the extracted token, or `None` when
      none could be extracted, is compared with the configured one, and any
      difference is answered with "Unauthorized". */
  function Gate(scopeType: string, headers: seq<Header>, configured: Option<string>): (o: Outcome)
    ensures o.Reject? ==> o.status == 401 && (o.body == MissingHeaderBody || o.body == UnauthorizedBody)
  {
    if scopeType == "http" then
      var authorization := Lookup(headers, "authorization");
      if authorization == None || authorization == Some("") then
        Reject(401, MissingHeaderBody)
      else if BearerToken(authorization.value) != configured then
        Reject(401, UnauthorizedBody)
      else
        Forward
    else
      Forward
  }

  /** Scopes other than "http" (a websocket, the lifespan protocol) are
      forwarded whatever their headers and whatever the configuration. */
  lemma GateBypassesNonHttp(scopeType: string, headers: seq<Header>, configured: Option<string>)
    requires scopeType != "http"
    ensures Gate(scopeType, headers, configured) == Forward
  {
  }

  /** "Missing Authorization Header" is the answer exactly for an "http"
      scope with no header named Authorization in any case, or whose last
      such header is empty. */
  lemma GateMissingHeader(scopeType: string, headers: seq<Header>, configured: Option<string>)
    ensures Gate(scopeType, headers, configured) == Reject(401, MissingHeaderBody) <==>
      && scopeType == "http"
      && ((forall i :: 0 <= i < |headers| ==> Lower(headers[i].0) != "authorization")
          || exists i :: IsLastNamed(headers, i, "authorization") && headers[i].1 == "")
  {
    var key := "authorization";
    var found := Lookup(headers, key);
    assert found == None <==> forall i :: 0 <= i < |headers| ==> Lower(headers[i].0) != key by {
      LookupAbsent(headers, key);
    }
    assert found == Some("") <==> exists i :: IsLastNamed(headers, i, key) && headers[i].1 == "" by {
      if found == Some("") {
        LookupFound(headers, key);
      }
      if exists i :: IsLastNamed(headers, i, key) && headers[i].1 == "" {
        var i :| IsLastNamed(headers, i, key) && headers[i].1 == "";
        LookupLastWins(headers, i, key);
      }
    }
  }

  /** Once a non-empty Authorization header is found, the decision depends
      only on whether the token extracted from its last occurrence, if any,
      equals the configured one. */
  lemma GatePresentHeader(headers: seq<Header>, i: int, configured: Option<string>)
    requires IsLastNamed(headers, i, "authorization") && headers[i].1 != ""
    ensures Gate("http", headers, configured) ==
      if BearerToken(headers[i].1) == configured then Forward else Reject(401, UnauthorizedBody)
  {
    assert Lookup(headers, "authorization") == Some(headers[i].1) by {
      LookupLastWins(headers, i, "authorization");
    }
  }

  /** With a configured token, a request whose last Authorization header is
      not empty is forwarded exactly when that header is a well-formed Bearer
      value carrying precisely the configured token; otherwise it is
      answered with "Unauthorized". */
  lemma GateWithToken(headers: seq<Header>, i: int, token: string)
    requires IsLastNamed(headers, i, "authorization") && headers[i].1 != ""
    ensures Gate("http", headers, Some(token)) == Forward <==> BearerForm(headers[i].1, token)
    ensures Gate("http", headers, Some(token)) != Forward ==>
      Gate("http", headers, Some(token)) == Reject(401, UnauthorizedBody)
  {
    GatePresentHeader(headers, i, Some(token));
    BearerTokenIff(headers[i].1, token);
  }

  /** A configured token that is the empty string admits no "http" request,
      since an extracted token is never empty. */
  lemma GateEmptyTokenFailsClosed(headers: seq<Header>)
    ensures Gate("http", headers, Some("")) != Forward
  {
  }

  /** With no configured token, a request whose last Authorization header is
      not empty is forwarded exactly when that header carries no Bearer token
      at all ("Basic x", a lone "Bearer", blanks), and a well-formed Bearer
      value is answered with "Unauthorized" whatever its token. */
  lemma GateWithoutToken(headers: seq<Header>, i: int)
    requires IsLastNamed(headers, i, "authorization") && headers[i].1 != ""
    ensures Gate("http", headers, None) == Forward <==> forall t :: !BearerForm(headers[i].1, t)
    ensures Gate("http", headers, None) != Forward ==>
      Gate("http", headers, None) == Reject(401, UnauthorizedBody)
  {
    GatePresentHeader(headers, i, None);
    BearerTokenNone(headers[i].1);
  }
}
