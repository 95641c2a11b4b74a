/** What the cookie parser of backend/auth.ts makes of headers of a given
    form, and what a browser sends back after the backend sets its cookies. */
module CookieFacts {
  import opened Types
  import opened Strings
  import opened Auth
  import opened Seqs

  // ===== How a header falls apart into parts

  lemma {:induction false} TrimEachConcat(x: seq<string>, y: seq<string>)
    ensures TrimEach(x + y) == TrimEach(x) + TrimEach(y)
  {
    if x == [] {
      assert x + y == y;
    } else {
      assert (x + y)[0] == x[0];
      assert (x + y)[1..] == x[1..] + y;
      TrimEachConcat(x[1..], y);
      AppendAssoc([Trim(x[0])], TrimEach(x[1..]), TrimEach(y));
    }
  }

  lemma {:induction false} DropEmptyConcat(x: seq<string>, y: seq<string>)
    ensures DropEmpty(x + y) == DropEmpty(x) + DropEmpty(y)
  {
    if x == [] {
      assert x + y == y;
    } else {
      assert (x + y)[0] == x[0];
      assert (x + y)[1..] == x[1..] + y;
      DropEmptyConcat(x[1..], y);
      AppendAssoc(if x[0] == "" then [] else [x[0]], DropEmpty(x[1..]), DropEmpty(y));
    }
  }

  /** The parts on either side of a ';' are the parts of each side. */
  lemma PartsConcat(a: string, b: string)
    ensures Parts(a + ";" + b) == Parts(a) + Parts(b)
  {
    SplitConcat(a, b, ';');
    TrimEachConcat(Split(a, ';'), Split(b, ';'));
    DropEmptyConcat(TrimEach(Split(a, ';')), TrimEach(Split(b, ';')));
  }

  lemma {:induction false} DropAllEmpty(ps: seq<string>)
    requires forall i :: 0 <= i < |ps| ==> ps[i] == ""
    ensures DropEmpty(ps) == []
  {
    if ps != [] { DropAllEmpty(ps[1..]); }
  }

  /** A header of only separators and white space has no parts. */
  lemma PartsOfBlank(header: string)
    requires forall i :: 0 <= i < |header| ==> header[i] == ';' || IsSpace(header[i])
    ensures Parts(header) == []
  {
    var raw := Split(header, ';');
    SplitBlank(header, ';');
    var ts := TrimEach(raw);
    forall i | 0 <= i < |ts| ensures ts[i] == "" {
      TrimBlank(raw[i]);
    }
    DropAllEmpty(ts);
  }

  /** A stretch without ';' is the one part its trim leaves, if any. */
  lemma PartsOfOne(x: string)
    requires ';' !in x && Trim(x) != ""
    ensures Parts(x) == [Trim(x)]
  {
    SplitNone(x, ';');
    assert TrimEach([x]) == [Trim(x)];
    assert DropEmpty([Trim(x)]) == [Trim(x)] + DropEmpty([]);
  }

  /** A part with white space around it is that one part. */
  lemma PartsPadded(pre: string, p: string, post: string)
    requires AllSpace(pre) && AllSpace(post) && WellFormedPart(p)
    ensures Parts(pre + p + post) == [p]
  {
    var x := pre + p + post;
    forall i | 0 <= i < |x| ensures x[i] != ';' {
      if i < |pre| { assert x[i] == pre[i]; }
      else if i < |pre| + |p| { assert x[i] == p[i - |pre|]; }
      else { assert x[i] == post[i - |pre| - |p|]; }
    }
    TrimPadding(pre, p, post);
    PartsOfOne(x);
  }

  /** A hint for the solver: a padded join of two or more parts, regrouped
      around its first ';'. It is Join's second case, unfolded once. */
  lemma JoinPadded(pad: string, ps: seq<string>)
    requires |ps| >= 2
    ensures pad + Join(ps, "; ") == (pad + ps[0] + "") + ";" + (" " + Join(ps[1..], "; "))
  {
  }

  /** Splitting `pad + p0; p1; ...` gives the parts back. */
  lemma {:induction false} PartsOfPaddedJoin(pad: string, ps: seq<string>)
    requires AllSpace(pad) && |ps| >= 1
    requires forall i :: 0 <= i < |ps| ==> WellFormedPart(ps[i])
    ensures Parts(pad + Join(ps, "; ")) == ps
    decreases |ps|
  {
    if |ps| == 1 {
      assert pad + Join(ps, "; ") == pad + ps[0] + "";
      PartsPadded(pad, ps[0], "");
    } else {
      var a, rest := pad + ps[0] + "", " " + Join(ps[1..], "; ");
      assert forall i :: 0 <= i < |ps| - 1 ==> ps[1..][i] == ps[i + 1];
      PartsOfPaddedJoin(" ", ps[1..]);
      JoinPadded(pad, ps);
      PartsConcat(a, rest);
      PartsPadded(pad, ps[0], "");
      HeadThenTail(Parts(a + ";" + rest), Parts(a), Parts(rest), ps);
    }
  }

  // ===== What the parser makes of such headers

  /** An absent header, an empty one, or one of only separators and white
      space, parses to the empty map. */
  lemma ParseBlankHeader(header: string)
    requires forall i :: 0 <= i < |header| ==> header[i] == ';' || IsSpace(header[i])
    ensures ParseCookies(None) == map[]
    ensures ParseCookies(Some(header)) == map[]
  {
    PartsOfBlank(header);
    PartsOfBlank("");
  }

  /** A header in the form browsers send, `name=value; name=value`, parses
      as the `reduce` over exactly those parts. */
  lemma ParseJoined(ps: seq<string>)
    requires forall i :: 0 <= i < |ps| ==> WellFormedPart(ps[i])
    ensures ParseCookies(Some(Join(ps, "; "))) == Collect(ps)
  {
    PartsOfJoined(ps);
    ParseByParts(Join(ps, "; "), ps);
  }

  /** A header in the form browsers send splits into exactly its parts. */
  lemma PartsOfJoined(ps: seq<string>)
    requires forall i :: 0 <= i < |ps| ==> WellFormedPart(ps[i])
    ensures Parts(Join(ps, "; ")) == ps
  {
    if ps == [] {
      PartsOfBlank("");
    } else {
      EmptyPrefix(Join(ps, "; "));
      PartsOfPaddedJoin("", ps);
    }
  }

  /** A header parses as the `reduce` over its parts. */
  lemma ParseByParts(h: string, ps: seq<string>)
    requires Parts(h) == ps
    ensures ParseCookies(Some(h)) == Collect(ps)
  {
  }

  /** The parts of `s1 p s2 ; s3 ; s4 q s5`, with each `s` white space. */
  lemma PaddedTwoParts(p: string, q: string, s1: string, s2: string, s3: string, s4: string, s5: string)
    requires WellFormedPart(p) && WellFormedPart(q)
    requires AllSpace(s1) && AllSpace(s2) && AllSpace(s3) && AllSpace(s4) && AllSpace(s5)
    ensures Parts(s1 + p + s2 + ";" + s3 + ";" + s4 + q + s5) == [p, q]
  {
    var left, right := s1 + p + s2, s4 + q + s5;
    var x := s1 + p + s2 + ";" + s3 + ";" + s4 + q + s5;
    RegroupFive(left + ";", s3, ";", s4, q, s5);
    PartsConcat(left, s3 + ";" + right);
    PartsConcat(s3, right);
    PartsPadded(s1, p, s2);
    PartsPadded(s4, q, s5);
    PartsOfBlank(s3);
    TwoAround(Parts(x), Parts(left), Parts(s3 + ";" + right), Parts(s3), Parts(right), p, q);
  }

  /** For two parts: white space around each of them, and an empty part
      between them, change nothing: `" a=1 ;; b=2 "` parses as `"a=1; b=2"`
      does. */
  lemma ParsePaddedParts(p: string, q: string, s1: string, s2: string, s3: string, s4: string, s5: string)
    requires WellFormedPart(p) && WellFormedPart(q)
    requires AllSpace(s1) && AllSpace(s2) && AllSpace(s3) && AllSpace(s4) && AllSpace(s5)
    ensures ParseCookies(Some(s1 + p + s2 + ";" + s3 + ";" + s4 + q + s5)) == Collect([p, q])
    ensures ParseCookies(Some(p + "; " + q)) == Collect([p, q])
  {
    PaddedTwoParts(p, q, s1, s2, s3, s4, s5);
    ParseByParts(s1 + p + s2 + ";" + s3 + ";" + s4 + q + s5, [p, q]);
    ParseTwo(p, q);
  }

  /** Two parts joined the way browsers join them parse one after the other. */
  lemma ParseTwo(p: string, q: string)
    requires WellFormedPart(p) && WellFormedPart(q)
    ensures ParseCookies(Some(p + "; " + q)) == Collect([p, q])
  {
    JoinCons(p, [q], "; ");
    ParseJoined([p, q]);
  }

  lemma CollectOne(x: string)
    ensures Collect([x]) == AddEntry(map[], Entry(x))
  {
    var es := Entries([x]);
    assert es[0] == Entry(x);
    assert Fold(es, 1) == AddEntry(Fold(es, 0), es[0]);
  }

  lemma CollectTwo(x: string, y: string)
    ensures Collect([x, y]) == AddEntry(AddEntry(map[], Entry(x)), Entry(y))
  {
    var es := Entries([x, y]);
    assert es[0] == Entry(x) && es[1] == Entry(y);
    assert Fold(es, 1) == AddEntry(Fold(es, 0), es[0]);
    assert Fold(es, 2) == AddEntry(Fold(es, 1), es[1]);
  }

  /** A name that reads back unchanged from any header it is sent in:
      non-empty, no '=', and no ';' or white space anywhere (`CookieSafe`).
      This is a sufficient condition for the round trip, stronger than
      `Auth.IsCookieName`, which describes every key the parser CAN produce
      (such keys may hold white space inside, and they may end in white space). */
  predicate GoodName(k: string) {
    k != "" && '=' !in k && CookieSafe(k)
  }

  lemma PairWellFormed(name: string, value: string)
    requires GoodName(name) && CookieSafe(value)
    ensures WellFormedPart(name + "=" + value)
    ensures Entry(name + "=" + value) == Some((name, value))
  {
    var p := name + "=" + value;
    assert p[0] == name[0];
    assert value != [] ==> p[|p| - 1] == value[|value| - 1];
    forall i | 0 <= i < |p| ensures p[i] != ';' {
      if i < |name| { assert p[i] == name[i]; }
      else if i > |name| { assert p[i] == value[i - |name| - 1]; }
    }
    EntryOfPair(name, value);
  }

  /** A value may itself contain '=': the part splits at its first '='. */
  lemma ParseSinglePair(name: string, value: string)
    requires GoodName(name) && CookieSafe(value)
    ensures ParseCookies(Some(name + "=" + value)) == map[name := value]
  {
    var p := name + "=" + value;
    PairWellFormed(name, value);
    ParseJoined([p]);
    CollectOne(p);
  }

  /** A part with no '=', or with '=' first, adds nothing. */
  lemma ParseNoKey(a: string, b: string)
    requires WellFormedPart(a) && '=' !in a
    requires WellFormedPart("=" + b)
    ensures ParseCookies(Some(a + "; " + "=" + b)) == map[]
  {
    var q := "=" + b;
    assert a + "; " + "=" + b == a + "; " + q;
    ParseTwo(a, q);
    CollectTwo(a, q);
  }

  /** When a name occurs twice, the later value wins. */
  lemma ParseDuplicate(name: string, v1: string, v2: string)
    requires GoodName(name) && CookieSafe(v1) && CookieSafe(v2)
    ensures ParseCookies(Some((name + "=" + v1) + "; " + (name + "=" + v2))) == map[name := v2]
  {
    var p, q := name + "=" + v1, name + "=" + v2;
    PairWellFormed(name, v1);
    PairWellFormed(name, v2);
    ParseTwo(p, q);
    CollectTwo(p, q);
  }

  // ===== Cookies set, then sent back

  /** The `name=value` pair a browser keeps from a `Set-Cookie` value and
      sends back: the text before the first ';'. */
  function CookiePair(setCookie: string): string {
    Split(setCookie, ';')[0]
  }

  /** What a browser keeps of a cookie the backend built is its name and value. */
  lemma CookiePairOfBuild(name: string, value: string, maxAgeSec: nat, secure: bool)
    requires ';' !in name + "=" + value
    ensures CookiePair(BuildCookie(name, value, maxAgeSec, secure)) == name + "=" + value
  {
    var pair := name + "=" + value;
    var parts := [pair, "HttpOnly", "Path=/", "Max-Age=" + NatToString(maxAgeSec), "SameSite=Lax"];
    var all := if secure then parts + ["Secure"] else parts;
    var rest := Join(all[1..], "; ");
    assert all[0] == pair && |all| >= 2;
    assert BuildCookie(name, value, maxAgeSec, secure) == pair + "; " + rest;
    assert pair + "; " + rest == pair + [';'] + (" " + rest);
    SplitAfter(pair, " " + rest, ';');
  }

  /** The header a client sends back after a response set `setCookies`: each
      cookie's `name=value` pair, joined by "; ". A browser sends this for
      cookies that have not expired. */
  function EchoHeader(setCookies: seq<string>): string {
    Join(seq(|setCookies|, i requires 0 <= i < |setCookies| => CookiePair(setCookies[i])), "; ")
  }

  /** Two cookies are sent back as their pairs, joined by "; ". */
  lemma EchoTwo(c1: string, c2: string)
    ensures EchoHeader([c1, c2]) == CookiePair(c1) + "; " + CookiePair(c2)
  {
    var pairs := seq(2, i requires 0 <= i < 2 => CookiePair([c1, c2][i]));
    assert pairs == [CookiePair(c1), CookiePair(c2)];
    JoinCons(CookiePair(c1), [CookiePair(c2)], "; ");
  }

  /** Two cookies with different names, sent back, parse to both values. */
  lemma EchoTwoCookies(n1: string, v1: string, t1: nat, n2: string, v2: string, t2: nat, secure: bool)
    requires GoodName(n1) && GoodName(n2) && n1 != n2 && CookieSafe(v1) && CookieSafe(v2)
    ensures ParseCookies(Some(EchoHeader([BuildCookie(n1, v1, t1, secure), BuildCookie(n2, v2, t2, secure)])))
         == map[n1 := v1, n2 := v2]
  {
    var p, q := n1 + "=" + v1, n2 + "=" + v2;
    PairWellFormed(n1, v1);
    PairWellFormed(n2, v2);
    CookiePairOfBuild(n1, v1, t1, secure);
    CookiePairOfBuild(n2, v2, t2, secure);
    EchoTwo(BuildCookie(n1, v1, t1, secure), BuildCookie(n2, v2, t2, secure));
    ParseTwo(p, q);
    CollectTwo(p, q);
  }

  lemma SessionNames()
    ensures GoodName(CookieAccess) && GoodName(CookieRefresh) && CookieAccess != CookieRefresh
  {
    assert |CookieAccess| != |CookieRefresh|;
  }

  /** Sending back the two session cookies yields both tokens under their
      names, and the request authenticates exactly when the access token
      is non-empty and verifies. */
  lemma EchoAuthCookies(jwt: Jwt, accessToken: string, refreshToken: string, secure: bool)
    requires CookieSafe(accessToken) && CookieSafe(refreshToken)
    ensures ParseCookies(Some(EchoHeader(AuthCookies(accessToken, refreshToken, secure))))
         == map[CookieAccess := accessToken, CookieRefresh := refreshToken]
    ensures GetAccessFromReq(jwt, Some(EchoHeader(AuthCookies(accessToken, refreshToken, secure))))
         == if accessToken == "" then None else VerifyAccess(jwt, accessToken)
  {
    SessionNames();
    EchoTwoCookies(CookieAccess, accessToken, AccessTtlSec, CookieRefresh, refreshToken, RefreshTtlSec, secure);
  }

  /** The cookies `clearAuthCookies` sets expire at once (`Max-Age=0`), so a
      browser deletes them and sends no `Cookie` header for them: such a
      request does not authenticate. A client that ignores the expiry and
      sends back the cleared values sends two empty values, and it does not
      authenticate either. */
  lemma EchoClearedCookies(jwt: Jwt, secure: bool)
    ensures GetAccessFromReq(jwt, None) == None
    ensures ParseCookies(Some(EchoHeader(ClearedCookies(secure))))
         == map[CookieAccess := "", CookieRefresh := ""]
    ensures GetAccessFromReq(jwt, Some(EchoHeader(ClearedCookies(secure)))) == None
  {
    ParseBlankHeader("");
    SessionNames();
    EchoTwoCookies(CookieAccess, "", 0, CookieRefresh, "", 0, secure);
  }

  /** The cookies `setAuthCookies` sets for a freshly signed access token,
      sent back, authenticate as the user the token was signed for (or not
      at all, when the library rejects the token). */
  lemma SessionAccessRoundTrip(jwt: Jwt, userId: string, refreshToken: string, secure: bool)
    requires Sound(jwt)
    requires CookieSafe(SignAccess(jwt, userId)) && CookieSafe(refreshToken)
    ensures var p := GetAccessFromReq(jwt, Some(EchoHeader(AuthCookies(SignAccess(jwt, userId), refreshToken, secure))));
            p.Some? ==> "sub" in p.value && p.value["sub"] == JStr(userId)
  {
    EchoAuthCookies(jwt, SignAccess(jwt, userId), refreshToken, secure);
    AccessRoundTrip(jwt, userId);
  }

  /** The refresh cookie `setAuthCookies` sets for a freshly signed refresh
      token comes back, and when it verifies it carries the user and the
      refresh version it was signed with. */
  lemma SessionRefreshRoundTrip(jwt: Jwt, accessToken: string, userId: string, refreshVersion: real, secure: bool)
    requires Sound(jwt)
    requires CookieSafe(accessToken) && CookieSafe(SignRefresh(jwt, userId, refreshVersion))
    ensures var cookies := ParseCookies(Some(EchoHeader(AuthCookies(accessToken, SignRefresh(jwt, userId, refreshVersion), secure))));
            && CookieRefresh in cookies
            && var q := VerifyRefresh(jwt, cookies[CookieRefresh]);
               q.Some? ==> "sub" in q.value && "rv" in q.value && q.value["sub"] == JStr(userId) && q.value["rv"] == JNum(refreshVersion)
  {
    EchoAuthCookies(jwt, accessToken, SignRefresh(jwt, userId, refreshVersion), secure);
    RefreshRoundTrip(jwt, userId, refreshVersion);
  }
}
