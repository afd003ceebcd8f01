# Bearer-token gate of the Google Maps tool server

The server wraps its application in `AuthenticationMiddleware`
(`wellaios/authenticate.py`). For every HTTP scope the middleware does the following:

1. It folds the raw header list into a dictionary keyed by the lower-cased header name, so the last header with a given name wins.
2. It looks up `authorization`.
3. If that header is missing or empty, it answers 401 "Missing Authorization Header".
4. Otherwise it strips the value and splits it once on whitespace. The second part is the bearer token when there are exactly two parts and the first part, lowered, is `bearer`.
5. It answers 401 "Unauthorized" unless that token (or "no token") equals the configured `AUTH_TOKEN` (or its absence).
6. A non-HTTP scope is passed through unchecked.

The model is made of pure functions and lemmas, in four modules and a fifth of concrete cases:

- `Wrappers`: `Option`.
- `Text`: Python's `str.lower()`, `str.strip()` and `str.split(maxsplit=1)` over ASCII.
  - Whitespace is `str.isspace`: tab through carriage return, 0x1C..0x1F and space.
  - `SplitOnce` follows CPython's whitespace split. It skips leading whitespace, takes the first word, skips the whitespace after it, and keeps the rest verbatim, inner and trailing whitespace included.
- `Headers`: the header dictionary (`HeaderDict`) and `dict.get` on it (`Lookup`).
- `Authenticate`:
  - `BearerToken`, the token extraction;
  - `Gate`, the middleware's decision, which is `Forward` or `Reject(status, body)`;
  - the lemmas that characterise both.

`Scenarios` states, as lemmas, what `Gate` answers to concrete requests. Each header name, value and token is a parameter fixed by a `requires` clause.

The configured token is a parameter of type `Option<string>`. `None` stands for an unset `AUTH_TOKEN`.

Where the intended design and the code differ, the model follows the code:

- Unset token:
  - Intended: the gate fails closed when no token is configured.
  - Code: `bearer != BEARER_TOKEN` compares against `None`. A present Authorization header that yields no token is therefore forwarded. This is `GateWithoutToken`.
- Comparison:
  - Intended: a constant-time comparison.
  - Code: plain `!=`. The model compares values and says nothing about timing.
- Trailing whitespace:
  - Intended: whitespace after the token is rejected.
  - Code: the value is stripped before splitting, so trailing whitespace is dropped and the token still matches (`BearerTokenIgnoresOuterSpace`, `TrailingSpaceScenario`).
- Extra segments:
  - Intended: a value with more than a scheme and one token, such as "Bearer abc 123", is refused.
  - Code: the value is split only once, so everything after the scheme and its whitespace is the token, inner whitespace included. "Bearer abc 123" carries the token "abc 123" (`InnerSpaceScenario`).

## Model

| member | source | states |
|---|---|---|
| Text.LowerIsLower | wellaios/authenticate.py:60 | the lowered string has no upper-case ASCII letter left, and lowering twice is lowering once |
| Text.LowerKeepsSpaces | wellaios/authenticate.py:79 | lowering neither creates nor removes whitespace: a string is blank (or free of whitespace) exactly when its lowered form is |
| Text.LowerIsBearer | wellaios/authenticate.py:79 | a scheme lowers to "bearer" exactly when it is six letters, each the lower- or upper-case letter of "bearer" at that position |
| Text.TrimLeft | wellaios/authenticate.py:78 | the result is a suffix of the input; what it drops is all whitespace; it starts with a non-space or is empty |
| Text.TrimRight | wellaios/authenticate.py:78 | the result is a prefix of the input; what it drops is all whitespace; it ends with a non-space or is empty |
| Text.Strip | wellaios/authenticate.py:78 | the stripped value neither starts nor ends with whitespace |
| Text.StripSplit | wellaios/authenticate.py:78 | every value is leading whitespace, its stripped form and trailing whitespace, in that order |
| Text.TrimLeftEmpty | wellaios/authenticate.py:78 | nothing remains after dropping leading whitespace exactly when the value is blank |
| Text.StripExact | wellaios/authenticate.py:78 | stripping whitespace from around a trimmed middle gives back exactly that middle |
| Text.StripIgnoresOuterSpace | wellaios/authenticate.py:78 | extra whitespace around a value does not change its stripped form |
| Text.SplitOnce | wellaios/authenticate.py:78 | at most two parts; no parts exactly when the value is blank; the first part is a non-empty word without whitespace; a second part is non-empty and starts with a non-space |
| Text.SplitOnceNoSpace | wellaios/authenticate.py:78 | a value without whitespace never splits into two parts |
| Text.SplitOnceTwo | wellaios/authenticate.py:78 | whitespace, a word, a non-empty whitespace run and a remainder starting with a non-space split into exactly that word and that remainder, whitespace inside the remainder kept |
| Text.SplitOnceOne | wellaios/authenticate.py:78 | a single word surrounded by whitespace splits into that word alone |
| Text.SplitOnceFirst | wellaios/authenticate.py:78 | the first part of a split is the first word, whatever follows it |
| Text.SplitOnceTwoShape | wellaios/authenticate.py:78 | conversely, a two-part split comes from whitespace, the first part, a non-empty whitespace run and the second part |
| Headers.HeaderDictKeys | wellaios/authenticate.py:58-62 | the dictionary's keys are exactly the lowered names of the headers |
| Headers.LookupAbsent | wellaios/authenticate.py:67 | the lookup finds nothing exactly when no header name lowers to the key |
| Headers.LookupLastWins | wellaios/authenticate.py:59-62 | the lookup yields the value of the last header whose lowered name is the key |
| Headers.LookupFound | wellaios/authenticate.py:67 | any value found belongs to the last header with that lowered name |
| Headers.LookupIgnoresNameCase | wellaios/authenticate.py:60 | header lists that differ only in the case of their names give the same lookup |
| Authenticate.BearerToken | wellaios/authenticate.py:77-80 | an extracted token is non-empty and has no leading or trailing whitespace |
| Authenticate.SplitOnceKeepsSuffix | wellaios/authenticate.py:78-80 | the second part of splitting a stripped value is itself free of outer whitespace |
| Authenticate.BearerTokenAccepts | wellaios/authenticate.py:78-80 | optional whitespace, "bearer" in any case, at least one whitespace character, a trimmed token and optional whitespace always yield that token |
| Authenticate.BearerTokenShape | wellaios/authenticate.py:78-80 | every extracted token comes from a value of that well-formed shape |
| Authenticate.BearerTokenIff | wellaios/authenticate.py:78-80 | a value yields a given token if and only if it has the well-formed Bearer shape around that token |
| Authenticate.BearerTokenNone | wellaios/authenticate.py:78-80 | no token is extracted if and only if the value has the well-formed shape for no token at all |
| Authenticate.BearerTokenOtherScheme | wellaios/authenticate.py:79 | a first word that does not lower to "bearer" (such as "Basic") yields no token |
| Authenticate.BearerTokenIgnoresOuterSpace | wellaios/authenticate.py:78 | whitespace before or after the header value never changes the token |
| Authenticate.BearerTokenNeedsSeparator | wellaios/authenticate.py:78-79 | an empty value, a blank value or a lone word such as "Bearer" yields no token |
| Authenticate.Gate | wellaios/authenticate.py:53-93 | the gate only ever refuses with status 401 and one of the two bodies, "Missing Authorization Header" or "Unauthorized" |
| Authenticate.GateBypassesNonHttp | wellaios/authenticate.py:91-93 | a scope whose type is not "http" is forwarded, whatever its headers and the configured token |
| Authenticate.GateMissingHeader | wellaios/authenticate.py:67-75 | the answer is "Missing Authorization Header" if and only if the scope is HTTP and no header lowers to "authorization" or the last such header is empty |
| Authenticate.GatePresentHeader | wellaios/authenticate.py:77-90 | with a non-empty last Authorization header, the request is forwarded exactly when its extracted token equals the configured one and is otherwise refused with "Unauthorized" |
| Authenticate.GateWithToken | wellaios/authenticate.py:78-90 | with a configured token, a present header is forwarded if and only if it is a well-formed Bearer value around exactly that token, and is otherwise refused with "Unauthorized" |
| Authenticate.GateEmptyTokenFailsClosed | wellaios/authenticate.py:70-87 | a configured empty token lets no HTTP request through |
| Authenticate.GateWithoutToken | wellaios/authenticate.py:65-83 | with AUTH_TOKEN unset, a present header is forwarded if and only if it yields no token; a proper Bearer header is refused with "Unauthorized" |
| Scenarios.GateOneHeader | wellaios/authenticate.py:77-90 | a request with one non-empty Authorization header, under any spelling of the name, is decided by its token alone |
| Scenarios.GateTwoHeaders | wellaios/authenticate.py:59-62 | with two Authorization headers, the decision depends on the second one only |
| Scenarios.AuthorizationSpelling | wellaios/authenticate.py:60 | "Authorization", "AUTHORIZATION" and "authorization" all name the same header |
| Scenarios.TokenOf | wellaios/authenticate.py:78-80 | a concrete "Bearer" value with whitespace around and inside yields the token between the whitespace |
| Scenarios.NoHeaderScenario | wellaios/authenticate.py:70-75 | no headers, or an empty Authorization header, are refused with 401 "Missing Authorization Header" |
| Scenarios.WrongTokenScenario | wellaios/authenticate.py:83-87 | "Bearer wrongtoken" against "abc123" is refused with 401 "Unauthorized" |
| Scenarios.RightTokenScenario | wellaios/authenticate.py:89-90 | "Bearer abc123" against "abc123" is forwarded |
| Scenarios.OtherSchemeScenario | wellaios/authenticate.py:79-87 | "Basic abc123" is refused with 401 "Unauthorized" |
| Scenarios.OtherScheme | wellaios/authenticate.py:79 | "Basic abc123" yields no token |
| Scenarios.IrregularSpacingScenario | wellaios/authenticate.py:78 | "   Bearer    abc123" is forwarded |
| Scenarios.TrailingSpaceScenario | wellaios/authenticate.py:78 | "Bearer abc123  " is forwarded, because the value is stripped before splitting |
| Scenarios.InnerSpaceScenario | wellaios/authenticate.py:78-83 | "Bearer abc 123" carries the token "abc 123", which matches "abc 123" and not "abc123" |
| Scenarios.LastHeaderWinsRefused | wellaios/authenticate.py:59-62 | a wrong token in a later header overrides a right one in an earlier header |
| Scenarios.LastHeaderWinsForwarded | wellaios/authenticate.py:59-62 | a right token in a later header overrides a wrong one in an earlier header |
| Scenarios.UnsetTokenOtherScheme | wellaios/authenticate.py:83 | with AUTH_TOKEN unset, "Basic abc123" is forwarded |
| Scenarios.UnsetTokenLoneScheme | wellaios/authenticate.py:83 | with AUTH_TOKEN unset, a lone "Bearer" is forwarded |
| Scenarios.UnsetTokenBearer | wellaios/authenticate.py:83-87 | with AUTH_TOKEN unset, "Bearer abc123" is refused with 401 "Unauthorized" |

## Left out

- Reading `AUTH_TOKEN` from the environment (`wellaios/authenticate.py:7`): the configured token is a parameter of `Gate`.
- Latin-1 decoding of header bytes (`wellaios/authenticate.py:60`): headers are modelled as already-decoded strings.
- Unicode behaviour:
  - `str.lower()`, `str.strip()` and `str.split()` are modelled over ASCII only.
  - Latin-1 characters such as U+00A0 (whitespace to Python) or U+00C0 (lowered by Python) are treated as ordinary characters.
- The ASGI plumbing is not modelled:
  - the `receive` and `send` channels;
  - awaiting the wrapped application (`wellaios/authenticate.py:36`, `90`, `93`);
  - rendering of `PlainTextResponse`.

  `Forward` and `Reject(status, body)` stand for these.
- A scope without a `type` key, which raises `KeyError` (`wellaios/authenticate.py:53`): the scope type is a string parameter.
- A scope without a `headers` key (`wellaios/authenticate.py:58`): this is the same as an empty header list, which is what the model receives.
- The `path` read at `wellaios/authenticate.py:55` is never used. The `/auth` route with `userid` and `token` query parameters, described in the class docstring, has no code in the middleware.
- Gate: says nothing about timing. The comparison at `wellaios/authenticate.py:83` is a plain inequality, not a constant-time one.
- The Google Maps tools (`wellaios/google_map.py`) and the server set-up (`main.py`) are not part of this model.
