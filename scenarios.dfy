/**
 * What the gate answers to concrete requests, stated as lemmas: missing,
 * wrong, right and foreign credentials, whitespace in and around the value,
 * the last-header-wins rule and the behaviour when no token is configured.
 * Each lemma names its header name, header value and configured token as
 * parameters fixed by its requires clause.
 */
module Scenarios {
  import opened Wrappers
  import opened Text
  import opened Headers
  import opened Authenticate

  /** A request whose only header is a non-empty Authorization header. */
  lemma GateOneHeader(name: string, value: string, configured: Option<string>)
    requires Lower(name) == "authorization" && value != ""
    ensures Gate("http", [(name, value)], configured) ==
      if BearerToken(value) == configured then Forward else Reject(401, UnauthorizedBody)
  {
    assert IsLastNamed([(name, value)], 0, "authorization");
    GatePresentHeader([(name, value)], 0, configured);
  }

  /** A request with two Authorization headers, the second not empty. */
  lemma GateTwoHeaders(n1: string, v1: string, n2: string, v2: string, configured: Option<string>)
    requires Lower(n1) == "authorization" && Lower(n2) == "authorization" && v2 != ""
    ensures Gate("http", [(n1, v1), (n2, v2)], configured) ==
      if BearerToken(v2) == configured then Forward else Reject(401, UnauthorizedBody)
  {
    assert IsLastNamed([(n1, v1), (n2, v2)], 1, "authorization");
    GatePresentHeader([(n1, v1), (n2, v2)], 1, configured);
  }

  lemma AuthorizationSpelling(name: string)
    requires name == "Authorization" || name == "AUTHORIZATION" || name == "authorization"
    ensures Lower(name) == "authorization"
  {
  }

  /** "Bearer" between whitespace and a token, as a concrete value. */
  lemma TokenOf(value: string, w1: string, w2: string, token: string, w3: string)
    requires value == w1 + "Bearer" + w2 + token + w3
    requires AllSpace(w1) && AllSpace(w2) && w2 != [] && AllSpace(w3) && token != [] && Trimmed(token)
    ensures BearerToken(value) == Some(token)
  {
    LowerIsBearer("Bearer");
    BearerTokenAccepts(w1, "Bearer", w2, token, w3);
  }

  /** No Authorization header, or an empty one, is refused with "Missing
      Authorization Header". */
  lemma NoHeaderScenario()
    ensures Gate("http", [], Some("abc123")) == Reject(401, "Missing Authorization Header")
    ensures Gate("http", [("Authorization", "")], Some("abc123")) == Reject(401, "Missing Authorization Header")
  {
  }

  /** A Bearer header with a token other than the configured one is refused
      with "Unauthorized". */
  lemma WrongTokenScenario(name: string, value: string, secret: string)
    requires name == "Authorization" && value == "Bearer wrongtoken" && secret == "abc123"
    ensures Gate("http", [(name, value)], Some(secret)) == Reject(401, "Unauthorized")
  {
    AuthorizationSpelling(name);
    TokenOf(value, [], " ", "wrongtoken", []);
    GateOneHeader(name, value, Some(secret));
  }

  /** A Bearer header with the configured token is forwarded. */
  lemma RightTokenScenario(name: string, value: string, secret: string)
    requires name == "Authorization" && value == "Bearer abc123" && secret == "abc123"
    ensures Gate("http", [(name, value)], Some(secret)) == Forward
  {
    AuthorizationSpelling(name);
    TokenOf(value, [], " ", secret, []);
    GateOneHeader(name, value, Some(secret));
  }

  /** A header with another scheme, such as Basic, is refused with
      "Unauthorized" even when it carries the configured token. */
  lemma OtherSchemeScenario(name: string, value: string, secret: string)
    requires name == "Authorization" && value == "Basic abc123" && secret == "abc123"
    ensures Gate("http", [(name, value)], Some(secret)) == Reject(401, "Unauthorized")
  {
    AuthorizationSpelling(name);
    OtherScheme(value);
    GateOneHeader(name, value, Some(secret));
  }

  lemma OtherScheme(value: string)
    requires value == "Basic abc123"
    ensures BearerToken(value) == None
  {
    var scheme, rest := "Basic", " abc123";
    assert value == [] + scheme + rest;
    assert |Lower(scheme)| == 5;
    BearerTokenOtherScheme([], scheme, rest);
  }

  /** Runs of whitespace before and after the scheme do not matter: the
      request is forwarded. */
  lemma IrregularSpacingScenario(name: string, value: string, secret: string)
    requires name == "Authorization" && value == "   Bearer    abc123" && secret == "abc123"
    ensures Gate("http", [(name, value)], Some(secret)) == Forward
  {
    AuthorizationSpelling(name);
    TokenOf(value, "   ", "    ", secret, []);
    GateOneHeader(name, value, Some(secret));
  }

  /** Trailing whitespace is stripped before the comparison. */
  lemma TrailingSpaceScenario(name: string, value: string, secret: string)
    requires name == "Authorization" && value == "Bearer abc123  " && secret == "abc123"
    ensures Gate("http", [(name, value)], Some(secret)) == Forward
  {
    AuthorizationSpelling(name);
    TokenOf(value, [], " ", secret, "  ");
    GateOneHeader(name, value, Some(secret));
  }

  /** Whitespace inside the token is part of it. */
  lemma InnerSpaceScenario(name: string, value: string, secret: string)
    requires name == "Authorization" && value == "Bearer abc 123" && secret == "abc 123"
    ensures Gate("http", [(name, value)], Some(secret)) == Forward
    ensures Gate("http", [(name, value)], Some("abc123")) == Reject(401, "Unauthorized")
  {
    AuthorizationSpelling(name);
    TokenOf(value, [], " ", secret, []);
    GateOneHeader(name, value, Some(secret));
    GateOneHeader(name, value, Some("abc123"));
  }

  /** Only the last Authorization header counts, whatever the case of its
      name: a wrong token after the right one is refused ... */
  lemma LastHeaderWinsRefused(n1: string, v1: string, n2: string, v2: string, secret: string)
    requires n1 == "AUTHORIZATION" && v1 == "Bearer abc123"
    requires n2 == "authorization" && v2 == "Bearer wrongtoken" && secret == "abc123"
    ensures Gate("http", [(n1, v1), (n2, v2)], Some(secret)) == Reject(401, "Unauthorized")
  {
    AuthorizationSpelling(n1);
    AuthorizationSpelling(n2);
    TokenOf(v2, [], " ", "wrongtoken", []);
    GateTwoHeaders(n1, v1, n2, v2, Some(secret));
  }

  /** ... and the right token after a wrong one is let through. */
  lemma LastHeaderWinsForwarded(n1: string, v1: string, n2: string, v2: string, secret: string)
    requires n1 == "authorization" && v1 == "Bearer wrongtoken"
    requires n2 == "AUTHORIZATION" && v2 == "Bearer abc123" && secret == "abc123"
    ensures Gate("http", [(n1, v1), (n2, v2)], Some(secret)) == Forward
  {
    AuthorizationSpelling(n1);
    AuthorizationSpelling(n2);
    TokenOf(v2, [], " ", secret, []);
    GateTwoHeaders(n1, v1, n2, v2, Some(secret));
  }

  /** With AUTH_TOKEN unset, a present header that carries no Bearer token is
      let through. */
  lemma UnsetTokenOtherScheme(name: string, value: string)
    requires name == "Authorization" && value == "Basic abc123"
    ensures Gate("http", [(name, value)], None) == Forward
  {
    AuthorizationSpelling(name);
    OtherScheme(value);
    GateOneHeader(name, value, None);
  }

  /** With AUTH_TOKEN unset, a lone scheme is let through too. */
  lemma UnsetTokenLoneScheme(name: string, value: string)
    requires name == "Authorization" && value == "Bearer"
    ensures Gate("http", [(name, value)], None) == Forward
  {
    AuthorizationSpelling(name);
    StripExact([], value, []);
    assert [] + value + [] == value;
    BearerTokenNeedsSeparator(value);
    GateOneHeader(name, value, None);
  }

  /** With AUTH_TOKEN unset, a proper Bearer header is refused. */
  lemma UnsetTokenBearer(name: string, value: string)
    requires name == "Authorization" && value == "Bearer abc123"
    ensures Gate("http", [(name, value)], None) == Reject(401, "Unauthorized")
  {
    AuthorizationSpelling(name);
    TokenOf(value, [], " ", "abc123", []);
    GateOneHeader(name, value, None);
  }
}
