/** Cookie and token handling of the backend (backend/auth.ts).

    The JWT library is abstract: a `Jwt` value bundles its `sign` and
    `verify` under the server's secret, and `Sound` is the one property the
    rest relies on — verifying a token that `sign` produced either fails or
    yields the signed claims back (with whatever registered claims, such as
    `iat` and `exp`, the library adds). Whether the deployment is a
    production one (which sets the `Secure` cookie flag) is the parameter
    `secure`. */
module Auth {
  import opened Types
  import opened Strings

  const AccessTtlSec: nat := 15 * 60
  const RefreshTtlSec: nat := 7 * 24 * 60 * 60
  const CookieAccess: string := "auth"
  const CookieRefresh: string := "refresh"

  // ===== Tokens

  /** The claims of a token: a JSON object. */
  type Claims = Object

  /** `jwt.sign(payload, secret, { expiresIn })` and `jwt.verify(token, secret)`;
      `verify` answers None where the library throws (bad signature,
      expired, malformed). */
  datatype Jwt = Jwt(sign: (Claims, nat) -> string, verify: string -> Option<Claims>)

  /** `q` carries every claim of `p` with the same value. */
  ghost predicate Extends(q: Claims, p: Claims) {
    forall k :: k in p ==> k in q && q[k] == p[k]
  }

  /** Verifying what was signed gives the signed claims back, or fails. */
  ghost predicate Sound(jwt: Jwt) {
    forall p: Claims, ttl: nat ::
      jwt.verify(jwt.sign(p, ttl)).None? || Extends(jwt.verify(jwt.sign(p, ttl)).value, p)
  }

  /** `p.typ === t` */
  predicate HasTyp(p: Claims, t: string) {
    "typ" in p && p["typ"] == JStr(t)
  }

  function AccessClaims(userId: string): Claims {
    map["sub" := JStr(userId), "typ" := JStr("access")]
  }

  function RefreshClaims(userId: string, refreshVersion: real): Claims {
    map["sub" := JStr(userId), "typ" := JStr("refresh"), "rv" := JNum(refreshVersion)]
  }

  function SignAccess(jwt: Jwt, userId: string): string {
    jwt.sign(AccessClaims(userId), AccessTtlSec)
  }

  function SignRefresh(jwt: Jwt, userId: string, refreshVersion: real): string {
    jwt.sign(RefreshClaims(userId, refreshVersion), RefreshTtlSec)
  }

  /** Accepts exactly the tokens the library verifies and whose `typ` is
      "access"; every failure is None, never an error. */
  function VerifyAccess(jwt: Jwt, token: string): (r: Option<Claims>)
    ensures r.Some? <==> jwt.verify(token).Some? && HasTyp(jwt.verify(token).value, "access")
    ensures r.Some? ==> r == jwt.verify(token)
  {
    match jwt.verify(token)
    case None => None
    case Some(p) => if HasTyp(p, "access") then Some(p) else None
  }

  /** Accepts exactly the tokens the library verifies whose `typ` is
      "refresh" and whose `rv` is a number. */
  function VerifyRefresh(jwt: Jwt, token: string): (r: Option<Claims>)
    ensures r.Some? <==> jwt.verify(token).Some? && HasTyp(jwt.verify(token).value, "refresh")
                         && IsNumber(jwt.verify(token).value, "rv")
    ensures r.Some? ==> r == jwt.verify(token)
  {
    match jwt.verify(token)
    case None => None
    case Some(p) => if HasTyp(p, "refresh") && IsNumber(p, "rv") then Some(p) else None
  }

  /** No token at all passes both checks: the type tags exclude each other. */
  lemma TokenKindsDisjoint(jwt: Jwt, token: string)
    ensures VerifyAccess(jwt, token).None? || VerifyRefresh(jwt, token).None?
  {
  }

  /** An access token is never accepted as a refresh token. */
  lemma AccessIsNotRefresh(jwt: Jwt, userId: string)
    requires Sound(jwt)
    ensures VerifyRefresh(jwt, SignAccess(jwt, userId)) == None
  {
    var t := SignAccess(jwt, userId);
    assert jwt.verify(t).Some? ==> Extends(jwt.verify(t).value, AccessClaims(userId));
  }

  /** A refresh token is never accepted as an access token. */
  lemma RefreshIsNotAccess(jwt: Jwt, userId: string, refreshVersion: real)
    requires Sound(jwt)
    ensures VerifyAccess(jwt, SignRefresh(jwt, userId, refreshVersion)) == None
  {
    var t := SignRefresh(jwt, userId, refreshVersion);
    assert jwt.verify(t).Some? ==> Extends(jwt.verify(t).value, RefreshClaims(userId, refreshVersion));
  }

  /** An access token is rejected by `VerifyAccess` only when the library
      itself rejects it, and it names the user it was signed for. */
  lemma AccessRoundTrip(jwt: Jwt, userId: string)
    requires Sound(jwt)
    ensures var r := VerifyAccess(jwt, SignAccess(jwt, userId));
            && r == jwt.verify(SignAccess(jwt, userId))
            && (r.Some? ==> "sub" in r.value && r.value["sub"] == JStr(userId))
  {
    var t := SignAccess(jwt, userId);
    assert jwt.verify(t).Some? ==> Extends(jwt.verify(t).value, AccessClaims(userId));
  }

  /** A refresh token is rejected only when the library rejects it; once it
      verifies it carries the user and the refresh version it was signed with. */
  lemma RefreshRoundTrip(jwt: Jwt, userId: string, refreshVersion: real)
    requires Sound(jwt)
    ensures var r := VerifyRefresh(jwt, SignRefresh(jwt, userId, refreshVersion));
            && r == jwt.verify(SignRefresh(jwt, userId, refreshVersion))
            && (r.Some? ==> "sub" in r.value && r.value["sub"] == JStr(userId)
                            && "rv" in r.value && r.value["rv"] == JNum(refreshVersion))
  {
    var t := SignRefresh(jwt, userId, refreshVersion);
    assert jwt.verify(t).Some? ==> Extends(jwt.verify(t).value, RefreshClaims(userId, refreshVersion));
  }

  // ===== Cookies

  /** A `Set-Cookie` value: `name=value`, then the fixed attributes, then
      `Secure` in production. */
  function BuildCookie(name: string, value: string, maxAgeSec: nat, secure: bool): string
  {
    var parts := [name + "=" + value, "HttpOnly", "Path=/", "Max-Age=" + NatToString(maxAgeSec), "SameSite=Lax"];
    Join(if secure then parts + ["Secure"] else parts, "; ")
  }

  /** The exact text of a cookie: its pieces in order, each pair separated
      by "; ". */
  lemma BuildCookieText(name: string, value: string, maxAgeSec: nat, secure: bool)
    ensures BuildCookie(name, value, maxAgeSec, secure)
         == name + "=" + value + "; " + "HttpOnly" + "; " + "Path=/" + "; " + "Max-Age=" + NatToString(maxAgeSec)
            + "; " + "SameSite=Lax" + (if secure then "; " + "Secure" else "")
  {
    var pair, maxAge := name + "=" + value, "Max-Age=" + NatToString(maxAgeSec);
    if secure {
      JoinSix(pair, "HttpOnly", "Path=/", maxAge, "SameSite=Lax", "Secure", "; ");
    } else {
      JoinFive(pair, "HttpOnly", "Path=/", maxAge, "SameSite=Lax", "; ");
    }
  }

  predicate EndsWith(s: string, suffix: string) {
    |suffix| <= |s| && s[|s| - |suffix|..] == suffix
  }

  /** `Secure` is there exactly in production. */
  lemma BuildCookieSecure(name: string, value: string, maxAgeSec: nat, secure: bool)
    ensures EndsWith(BuildCookie(name, value, maxAgeSec, secure), "; Secure") <==> secure
  {
    BuildCookieText(name, value, maxAgeSec, secure);
    var c := BuildCookie(name, value, maxAgeSec, secure);
    if !secure {
      assert c[|c| - 1] == 'x';
    }
  }

  /** The two cookies `setAuthCookies` sets: the access token for 15
      minutes, the refresh token for 7 days. */
  function AuthCookies(accessToken: string, refreshToken: string, secure: bool): seq<string> {
    [BuildCookie(CookieAccess, accessToken, AccessTtlSec, secure),
     BuildCookie(CookieRefresh, refreshToken, RefreshTtlSec, secure)]
  }

  /** The two cookies `clearAuthCookies` sets: both emptied, expiring at once. */
  function ClearedCookies(secure: bool): seq<string> {
    [BuildCookie(CookieAccess, "", 0, secure),
     BuildCookie(CookieRefresh, "", 0, secure)]
  }

  /** The response headers a handler has set so far. */
  class Response {
    var headers: map<string, seq<string>>

    constructor ()
      ensures headers == map[]
    {
      headers := map[];
    }

    /** `res.setHeader(name, values)` replaces any earlier value of that header. */
    method SetHeader(name: string, values: seq<string>)
      modifies this
      ensures headers == old(headers)[name := values]
    {
      headers := headers[name := values];
    }
  }

  method SetAuthCookies(res: Response, accessToken: string, refreshToken: string, secure: bool)
    modifies res
    ensures res.headers == old(res.headers)["Set-Cookie" := AuthCookies(accessToken, refreshToken, secure)]
  {
    res.SetHeader("Set-Cookie", [
      BuildCookie(CookieAccess, accessToken, AccessTtlSec, secure),
      BuildCookie(CookieRefresh, refreshToken, RefreshTtlSec, secure)
    ]);
  }

  method ClearAuthCookies(res: Response, secure: bool)
    modifies res
    ensures res.headers == old(res.headers)["Set-Cookie" := ClearedCookies(secure)]
  {
    res.SetHeader("Set-Cookie", [
      BuildCookie(CookieAccess, "", 0, secure),
      BuildCookie(CookieRefresh, "", 0, secure)
    ]);
  }

  // ===== Parsing the Cookie header

  /** `map((s) => s.trim())` */
  function TrimEach(raw: seq<string>): (ts: seq<string>)
    ensures |ts| == |raw| && forall i :: 0 <= i < |raw| ==> ts[i] == Trim(raw[i])
  {
    if raw == [] then [] else [Trim(raw[0])] + TrimEach(raw[1..])
  }

  /** `filter(Boolean)` on strings: drops the empty ones, keeps the order. */
  function DropEmpty(ps: seq<string>): seq<string>
  {
    if ps == [] then []
    else (if ps[0] == "" then [] else [ps[0]]) + DropEmpty(ps[1..])
  }

  /** What `filter(Boolean)` keeps is exactly the non-empty strings. */
  lemma {:induction false} DropEmptyMembers(ps: seq<string>)
    ensures forall s :: s in DropEmpty(ps) <==> s in ps && s != ""
  {
    if ps != [] {
      DropEmptyMembers(ps[1..]);
      assert ps == [ps[0]] + ps[1..];
    }
  }

  /** Characters that may stand in a cookie value and survive the parse. */
  predicate CookieSafe(s: string) {
    forall i :: 0 <= i < |s| ==> s[i] != ';' && !IsSpace(s[i])
  }

  /** A part of a header as the parser leaves it: non-empty, trimmed, no ';'. */
  predicate WellFormedPart(p: string) {
    p != "" && IsTrimmed(p) && ';' !in p
  }

  /** The parts of a header: split on ';', each trimmed, the empty ones dropped. */
  function Parts(header: string): seq<string>
  {
    DropEmpty(TrimEach(Split(header, ';')))
  }

  /** Every part is non-empty, trimmed and free of ';'. */
  lemma PartsWellFormed(header: string)
    ensures forall p :: p in Parts(header) ==> WellFormedPart(p)
  {
    var raw := Split(header, ';');
    SplitPieces(header, ';');
    DropEmptyMembers(TrimEach(raw));
    forall p | p in TrimEach(raw)
      ensures IsTrimmed(p) && ';' !in p
    {
      var i :| 0 <= i < |raw| && TrimEach(raw)[i] == p;
      if ';' in p { TrimSubset(raw[i], ';'); }
    }
  }

  /** A cookie name and its value. */
  type Pair = (string, string)

  /** The entry a part contributes: split at its first '=', when that '=' is
      not the first character. */
  function Entry(part: string): (e: Option<Pair>)
    ensures e.Some? <==> '=' in part && part[0] != '='
    ensures e.Some? ==> e.value.0 != "" && '=' !in e.value.0 && part == e.value.0 + "=" + e.value.1
  {
    var idx := IndexOf(part, '=');
    if idx > 0 then
      assert part == part[..idx] + "=" + part[idx + 1..];
      Some((part[..idx], part[idx + 1..]))
    else None
  }

  /** An entry binds key `k`. */
  predicate Binds(e: Option<Pair>, k: string) {
    e.Some? && e.value.0 == k
  }

  /** The entry of every part, in order. */
  function Entries(parts: seq<string>): (es: seq<Option<Pair>>)
    ensures |es| == |parts| && forall j :: 0 <= j < |parts| ==> es[j] == Entry(parts[j])
  {
    seq(|parts|, j requires 0 <= j < |parts| => Entry(parts[j]))
  }

  /** A key with no '=' and any value, joined by '=', read back as they were:
      split happens at the first '=' only. */
  lemma EntryOfPair(k: string, v: string)
    requires k != "" && '=' !in k
    ensures Entry(k + "=" + v) == Some((k, v))
  {
    IndexOfAfter(k, '=', v);
    var part := k + "=" + v;
    assert part[..|k|] == k && part[|k| + 1..] == v;
  }

  /** One step of the `reduce`: a later binding overwrites an earlier one. */
  function AddEntry(acc: map<string, string>, e: Option<Pair>): map<string, string>
  {
    match e
    case Some((k, v)) => acc[k := v]
    case None => acc
  }

  /** The `reduce` over the parts, from the first to the last. */
  function Collect(parts: seq<string>): map<string, string>
  {
    Fold(Entries(parts), |parts|)
  }

  /** The `reduce` over the first `n` entries. */
  function Fold(es: seq<Option<Pair>>, n: nat): map<string, string>
    requires n <= |es|
  {
    if n == 0 then map[] else AddEntry(Fold(es, n - 1), es[n - 1])
  }

  /** The position of the last of the first `n` entries that binds `k`, or
      -1 when none does. */
  function LastBinding(es: seq<Option<Pair>>, k: string, n: nat): (i: int)
    requires n <= |es|
    ensures -1 <= i < n
    ensures i == -1 <==> forall j :: 0 <= j < n ==> !Binds(es[j], k)
    ensures 0 <= i ==> Binds(es[i], k) && forall j :: i < j < n ==> !Binds(es[j], k)
  {
    if n == 0 then -1
    else if Binds(es[n - 1], k) then n - 1
    else LastBinding(es, k, n - 1)
  }

  /** A key is bound exactly when some entry binds it, and it holds the
      value of the last entry that does. */
  lemma {:induction false} FoldLastWins(es: seq<Option<Pair>>, k: string, n: nat)
    requires n <= |es|
    ensures var i := LastBinding(es, k, n);
            && (k in Fold(es, n) <==> i >= 0)
            && (k in Fold(es, n) ==> Fold(es, n)[k] == es[i].value.1)
  {
    if n > 0 {
      FoldLastWins(es, k, n - 1);
    }
  }

  /** The same for the parts of a header: the last part that binds a key wins. */
  lemma CollectLastWins(parts: seq<string>, k: string)
    ensures var i := LastBinding(Entries(parts), k, |parts|);
            && (k in Collect(parts) <==> i >= 0)
            && (k in Collect(parts) ==> Collect(parts)[k] == Entry(parts[i]).value.1)
  {
    FoldLastWins(Entries(parts), k, |parts|);
  }

  /** The shape of every key a cookie map can hold. */
  predicate IsCookieName(k: string) {
    k != "" && '=' !in k && ';' !in k && !IsSpace(k[0])
  }

  /** Whatever key a well-formed part binds has the shape of a cookie name. */
  lemma BoundKeyShape(part: string, k: string)
    requires WellFormedPart(part)
    requires Binds(Entry(part), k)
    ensures IsCookieName(k)
  {
    var v := Entry(part).value.1;
    assert part == k + "=" + v;
    assert part[0] == k[0];
    assert forall c :: 0 <= c < |k| ==> k[c] == part[c];
  }

  lemma ParsedKeys(parts: seq<string>)
    requires forall p :: p in parts ==> WellFormedPart(p)
    ensures forall k :: k in Collect(parts) ==> IsCookieName(k)
  {
    forall k | k in Collect(parts) ensures IsCookieName(k) {
      CollectLastWins(parts, k);
      BoundKeyShape(parts[LastBinding(Entries(parts), k, |parts|)], k);
    }
  }

  /** `parseCookies(req)`: the `Cookie` header (absent reads as "") as a
      map; every key is a non-empty name with no '=' or ';' and no leading
      white space. */
  function ParseCookies(cookieHeader: Option<string>): (cookies: map<string, string>)
    ensures forall k :: k in cookies ==> IsCookieName(k)
  {
    var parts := Parts(cookieHeader.GetOr(""));
    PartsWellFormed(cookieHeader.GetOr(""));
    ParsedKeys(parts);
    Collect(parts)
  }

  /** `getAccessFromReq(req)`: the claims of the `auth` cookie when it is
      present, non-empty and verifies as an access token, and None otherwise. */
  function GetAccessFromReq(jwt: Jwt, cookieHeader: Option<string>): (r: Option<Claims>)
    ensures r.Some? ==> HasTyp(r.value, "access")
    ensures r.Some? ==> var cookies := ParseCookies(cookieHeader);
                        CookieAccess in cookies && cookies[CookieAccess] != ""
                        && jwt.verify(cookies[CookieAccess]) == r
    ensures var cookies := ParseCookies(cookieHeader);
            CookieAccess in cookies && cookies[CookieAccess] != "" ==>
              r == VerifyAccess(jwt, cookies[CookieAccess])
  {
    var cookies := ParseCookies(cookieHeader);
    if CookieAccess !in cookies || cookies[CookieAccess] == "" then None
    else VerifyAccess(jwt, cookies[CookieAccess])
  }
}
