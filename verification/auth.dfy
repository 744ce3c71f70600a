/**
 * The bearer-token gate of backend/app/middleware/auth.py. `Dispatch` is the
 * decision `BearerTokenAuthMiddleware.dispatch` takes for one request: hand
 * it to the next handler, or answer 401 with one of three details. The
 * settings it reads (ENVIRONMENT, ACCESS_TOKEN) are parameters; logging is
 * dropped.
 */
module Auth {
  import opened Wrappers
  import opened Text

  /** `EXCLUDED_PATHS`, matched as prefixes of the request path. */
  const ExcludedPaths: seq<string> := ["/docs", "/redoc", "/openapi.json", "/health", "/favicon.ico"]

  const HeaderRequired := "Authorization header required"
  const InvalidFormat := "Invalid authorization header format"
  const InvalidToken := "Invalid access token"

  const Unauthorized401 := 401

  datatype Decision =
    | CallNext
    | Respond(status: int, content: string, mediaType: string)

  /** The JSON error body `{"detail":"<detail>"}`. */
  function DetailBody(detail: string): string
  {
    "{\"detail\":\"" + detail + "\"}"
  }

  function Unauthorized(detail: string): Decision
  {
    Respond(Unauthorized401, DetailBody(detail), "application/json")
  }

  /** Python's `str.isspace()` for one character: the separators `str.split()` breaks on. */
  predicate IsSpace(c: char)
  {
    var n := c as int;
    || 0x09 <= n <= 0x0D || 0x1C <= n <= 0x20 || n == 0x85 || n == 0xA0 || n == 0x1680
    || 0x2000 <= n <= 0x200A || n == 0x2028 || n == 0x2029 || n == 0x202F || n == 0x205F || n == 0x3000
  }

  predicate NoSpace(s: string) { forall i :: 0 <= i < |s| ==> !IsSpace(s[i]) }

  predicate AllSpace(s: string) { forall i :: 0 <= i < |s| ==> IsSpace(s[i]) }

  /** Index of the first whitespace character of `s` at or after `i`, or `|s|`. */
  function WordEnd(s: string, i: nat): (k: nat)
    requires i <= |s|
    ensures i <= k <= |s|
    ensures NoSpace(s[i..k])
    ensures k < |s| ==> IsSpace(s[k])
    decreases |s| - i
  {
    if i == |s| || IsSpace(s[i]) then i else WordEnd(s, i + 1)
  }

  /** Python's `s.split()` with no argument: the maximal runs of non-whitespace characters. */
  function Words(s: string): (ws: seq<string>)
    ensures forall k :: 0 <= k < |ws| ==> |ws[k]| > 0 && NoSpace(ws[k])
    decreases |s|
  {
    if |s| == 0 then []
    else if IsSpace(s[0]) then Words(s[1..])
    else
      var k := WordEnd(s, 0);
      [s[..k]] + Words(s[k..])
  }

  /** Python's `s.lower()` on the ASCII letters. */
  function Lower(s: string): (r: string)
    ensures |r| == |s|
  {
    seq(|s|, i requires 0 <= i < |s| => if 'A' <= s[i] <= 'Z' then (s[i] as int + 32) as char else s[i])
  }

  /** Authentication is enforced only in the PROD environment with a non-empty ACCESS_TOKEN. */
  predicate Enforced(environment: string, accessToken: Option<string>)
  {
    environment == "PROD" && accessToken.Some? && accessToken.value != ""
  }

  /** `any(path.startswith(p) for p in EXCLUDED_PATHS)`. */
  predicate IsExcluded(path: string)
  {
    exists k :: 0 <= k < |ExcludedPaths| && StartsWith(path, ExcludedPaths[k])
  }

  /**
   * `dispatch`: the guards in source order. `authorization` is the value of
   * the Authorization header, `None` when the request has none.
   */
  function Dispatch(environment: string, accessToken: Option<string>, path: string, authorization: Option<string>): (d: Decision)
    ensures d.Respond? ==> d.status == Unauthorized401 && d.mediaType == "application/json"
    ensures d.Respond? ==> d.content in {DetailBody(HeaderRequired), DetailBody(InvalidFormat), DetailBody(InvalidToken)}
  {
    if !Enforced(environment, accessToken) then CallNext
    else if IsExcluded(path) then CallNext
    else if authorization.None? || authorization.value == "" then Unauthorized(HeaderRequired)
    else
      var parts := Words(authorization.value);
      if |parts| != 2 || Lower(parts[0]) != "bearer" then Unauthorized(InvalidFormat)
      else if parts[1] != accessToken.value then Unauthorized(InvalidToken)
      else CallNext
  }

  /** Outside PROD, or without an ACCESS_TOKEN, every request is forwarded whatever its headers. */
  lemma NotEnforcedForwards(environment: string, accessToken: Option<string>, path: string, authorization: Option<string>)
    requires environment != "PROD" || accessToken == None || accessToken == Some("")
    ensures Dispatch(environment, accessToken, path, authorization) == CallNext
  {
  }

  /** Any path that starts with an excluded entry is forwarded, e.g. "/healthz" as well as "/health". */
  lemma ExcludedPrefixForwards(environment: string, accessToken: Option<string>, path: string, rest: string, authorization: Option<string>)
    requires path in ExcludedPaths
    ensures Dispatch(environment, accessToken, path + rest, authorization) == CallNext
    ensures Dispatch(environment, accessToken, "/healthz", authorization) == CallNext
  {
    var k :| 0 <= k < |ExcludedPaths| && ExcludedPaths[k] == path;
    assert (path + rest)[..|path|] == path;
    assert StartsWith(path + rest, ExcludedPaths[k]);
    assert StartsWith("/healthz", ExcludedPaths[3]);
  }

  /** A protected request without an Authorization header, or with an empty one, is refused first. */
  lemma MissingHeaderRejected(environment: string, accessToken: Option<string>, path: string, authorization: Option<string>)
    requires Enforced(environment, accessToken) && !IsExcluded(path)
    requires authorization == None || authorization == Some("")
    ensures Dispatch(environment, accessToken, path, authorization) == Unauthorized(HeaderRequired)
  {
  }

  /** A header that does not split into exactly a bearer scheme and one token is a format error. */
  lemma MalformedHeaderRejected(environment: string, accessToken: Option<string>, path: string, header: string)
    requires Enforced(environment, accessToken) && !IsExcluded(path) && header != ""
    requires |Words(header)| != 2 || Lower(Words(header)[0]) != "bearer"
    ensures Dispatch(environment, accessToken, path, Some(header)) == Unauthorized(InvalidFormat)
  {
  }

  /** When authentication is enforced, a protected request is forwarded only if it carries the token. */
  lemma ForwardOnlyWithToken(environment: string, accessToken: Option<string>, path: string, authorization: Option<string>)
    requires Enforced(environment, accessToken) && !IsExcluded(path)
    requires Dispatch(environment, accessToken, path, authorization) == CallNext
    ensures authorization.Some? && |Words(authorization.value)| == 2
    ensures Lower(Words(authorization.value)[0]) == "bearer" && Words(authorization.value)[1] == accessToken.value
  {
  }

  lemma {:induction false} WordsOfAllSpace(s: string)
    requires AllSpace(s)
    ensures Words(s) == []
    decreases |s|
  {
    if |s| > 0 {
      WordsOfAllSpace(s[1..]);
    }
  }

  /** Leading whitespace is skipped, then one word is taken up to the next whitespace character. */
  lemma {:induction false} WordsOfWord(pre: string, w: string, sp: char, rest: string)
    requires AllSpace(pre) && |w| > 0 && NoSpace(w) && IsSpace(sp)
    ensures Words(pre + w + [sp] + rest) == [w] + Words(rest)
    decreases |pre|
  {
    var s := pre + w + [sp] + rest;
    if |pre| > 0 {
      assert s[1..] == pre[1..] + w + [sp] + rest;
      WordsOfWord(pre[1..], w, sp, rest);
    } else {
      assert s == w + ([sp] + rest);
      WordEndOfWord(s, w);
      assert s[..|w|] == w;
      assert s[|w|..] == [sp] + rest;
      assert ([sp] + rest)[1..] == rest;
    }
  }

  lemma {:induction false} WordEndOfWord(s: string, w: string)
    requires |w| <= |s| && s[..|w|] == w && NoSpace(w) && (|w| < |s| ==> IsSpace(s[|w|]))
    ensures WordEnd(s, 0) == |w|
  {
    var i := 0;
    while i < |w|
      invariant 0 <= i <= |w|
      invariant WordEnd(s, 0) == WordEnd(s, i)
    {
      assert s[i] == w[i];
      i := i + 1;
    }
  }

  lemma {:induction false} WordsOfLastWord(w: string, post: string)
    requires |w| > 0 && NoSpace(w) && AllSpace(post)
    ensures Words(w + post) == [w]
  {
    var s := w + post;
    assert s[..|w|] == w;
    WordEndOfWord(s, w);
    assert s[|w|..] == post;
    WordsOfAllSpace(post);
  }

  /**
   * The scheme is matched without regard to case, whitespace may precede it
   * and follow the token, and any run of whitespace may separate the two:
   * such a header is accepted exactly when the token is ACCESS_TOKEN.
   */
  lemma BearerHeaderDecides(environment: string, accessToken: Option<string>, path: string,
                            pre: string, scheme: string, sp: char, gap: string, token: string, post: string)
    requires Enforced(environment, accessToken) && !IsExcluded(path)
    requires AllSpace(pre) && Lower(scheme) == "bearer" && IsSpace(sp) && AllSpace(gap) && AllSpace(post)
    requires |token| > 0 && NoSpace(token) && NoSpace(scheme)
    ensures Dispatch(environment, accessToken, path, Some(pre + scheme + [sp] + gap + token + post))
         == if token == accessToken.value then CallNext else Unauthorized(InvalidToken)
  {
    var h := pre + scheme + [sp] + (gap + token + post);
    assert pre + scheme + [sp] + gap + token + post == h;
    assert |scheme| > 0;
    WordsOfWord(pre, scheme, sp, gap + token + post);
    WordsAfterGap(gap, token, post);
  }

  lemma {:induction false} WordsAfterGap(gap: string, token: string, post: string)
    requires AllSpace(gap) && AllSpace(post) && |token| > 0 && NoSpace(token)
    ensures Words(gap + token + post) == [token]
    decreases |gap|
  {
    if |gap| > 0 {
      assert (gap + token + post)[1..] == gap[1..] + token + post;
      WordsAfterGap(gap[1..], token, post);
    } else {
      assert gap + token + post == token + post;
      WordsOfLastWord(token, post);
    }
  }

  const ApiPath := "/api/v1/user"

  lemma ApiPathProtected()
    ensures !IsExcluded(ApiPath)
  {
    forall k | 0 <= k < |ExcludedPaths| ensures !StartsWith(ApiPath, ExcludedPaths[k]) {
      assert ApiPath[1] == 'a';
    }
  }

  lemma LowerBearer()
    ensures Lower("Bearer") == "bearer" && Lower("BEARER") == "bearer" && Lower("Basic") != "bearer"
  {
    assert Lower("Basic")[1] == 'a';
  }

  /** A scheme other than bearer is a format error, whatever the token. */
  lemma OtherSchemeRejected(environment: string, accessToken: Option<string>, path: string, scheme: string, token: string)
    requires Enforced(environment, accessToken) && !IsExcluded(path)
    requires |scheme| > 0 && NoSpace(scheme) && Lower(scheme) != "bearer"
    requires |token| > 0 && NoSpace(token)
    ensures Dispatch(environment, accessToken, path, Some(scheme + " " + token)) == Unauthorized(InvalidFormat)
  {
    WordsOfWord([], scheme, ' ', token);
    assert [] + scheme + [' '] + token == scheme + " " + token;
    WordsOfLastWord(token, "");
    assert token + "" == token;
  }

  /** The scheme test accepts exactly the six letters of "bearer", each in either case. */
  lemma LowerIsBearer(s: string)
    ensures Lower(s) == "bearer" <==> |s| == 6 && forall i :: 0 <= i < 6 ==> s[i] == "bearer"[i] || s[i] == "BEARER"[i]
  {
    var lower, upper := "bearer", "BEARER";
    if |s| == 6 && forall i :: 0 <= i < 6 ==> s[i] == lower[i] || s[i] == upper[i] {
      forall i | 0 <= i < 6 ensures Lower(s)[i] == lower[i] {
      }
      assert Lower(s) == lower;
    }
    if Lower(s) == lower {
      forall i | 0 <= i < 6 ensures s[i] == lower[i] || s[i] == upper[i] {
        assert Lower(s)[i] == lower[i];
      }
    }
  }

  /** `Bearer <token>` with the right token is forwarded. */
  lemma ConcreteBearerHeader()
    ensures Dispatch("PROD", Some("secret"), ApiPath, Some("Bearer secret")) == CallNext
  {
    ApiPathProtected();
    LowerBearer();
    BearerHeaderDecides("PROD", Some("secret"), ApiPath, "", "Bearer", ' ', "", "secret", "");
    assert "" + "Bearer" + [' '] + "" + "secret" + "" == "Bearer secret";
  }

  /** The scheme is matched whatever its case. */
  lemma ConcreteUpperCaseBearer()
    ensures Dispatch("PROD", Some("secret"), ApiPath, Some("BEARER secret")) == CallNext
  {
    ApiPathProtected();
    LowerBearer();
    BearerHeaderDecides("PROD", Some("secret"), ApiPath, "", "BEARER", ' ', "", "secret", "");
    assert "" + "BEARER" + [' '] + "" + "secret" + "" == "BEARER secret";
  }

  /** A well-formed bearer header with another token is an invalid token. */
  lemma ConcreteWrongToken()
    ensures Dispatch("PROD", Some("secret"), ApiPath, Some("Bearer other")) == Unauthorized(InvalidToken)
  {
    ApiPathProtected();
    LowerBearer();
    BearerHeaderDecides("PROD", Some("secret"), ApiPath, "", "Bearer", ' ', "", "other", "");
    assert "" + "Bearer" + [' '] + "" + "other" + "" == "Bearer other";
  }

  /** Another scheme is a format error even with the right token. */
  lemma ConcreteOtherScheme()
    ensures Dispatch("PROD", Some("secret"), ApiPath, Some("Basic secret")) == Unauthorized(InvalidFormat)
  {
    ApiPathProtected();
    LowerBearer();
    assert NoSpace("Basic") && NoSpace("secret");
    OtherSchemeRejected("PROD", Some("secret"), ApiPath, "Basic", "secret");
    assert "Basic" + " " + "secret" == "Basic secret";
  }

  /** A scheme without a token is a format error. */
  lemma ConcreteLoneScheme()
    ensures Dispatch("PROD", Some("secret"), ApiPath, Some("Bearer")) == Unauthorized(InvalidFormat)
  {
    ApiPathProtected();
    WordsOfLastWord("Bearer", "");
    assert "Bearer" + "" == "Bearer";
  }

  /** A blank but non-empty header passes the presence check and fails the format check. */
  lemma ConcreteBlankHeader()
    ensures Dispatch("PROD", Some("secret"), ApiPath, Some("   ")) == Unauthorized(InvalidFormat)
  {
    ApiPathProtected();
    WordsOfAllSpace("   ");
  }
}
