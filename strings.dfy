/** The JavaScript string built-ins the cookie code relies on:
    `indexOf` of one character, `split` on one character, `join`, `trim`,
    and the decimal rendering of a non-negative integer in a template string. */
module Strings {
  import opened Seqs

  /** The ECMAScript WhiteSpace and LineTerminator code points: exactly what
      `String.prototype.trim` strips. */
  predicate IsSpace(c: char) {
    || c == '\t' || c == '\n' || c == '\U{000B}' || c == '\U{000C}' || c == '\r'
    || c == ' ' || c == '\U{00A0}' || c == '\U{1680}'
    || ('\U{2000}' <= c <= '\U{200A}')
    || c == '\U{2028}' || c == '\U{2029}' || c == '\U{202F}' || c == '\U{205F}'
    || c == '\U{3000}' || c == '\U{FEFF}'
  }

  predicate AllSpace(s: string) {
    forall i :: 0 <= i < |s| ==> IsSpace(s[i])
  }

  /** No white space at either end. */
  predicate IsTrimmed(s: string) {
    s == [] || (!IsSpace(s[0]) && !IsSpace(s[|s| - 1]))
  }

  /** `s.indexOf(c)`: the first position of `c`, or -1. */
  function IndexOf(s: string, c: char): (i: int)
    ensures -1 <= i < |s|
    ensures i == -1 <==> c !in s
    ensures 0 <= i ==> s[i] == c && c !in s[..i]
  {
    if s == [] then -1
    else if s[0] == c then 0
    else
      var j := IndexOf(s[1..], c);
      assert s == [s[0]] + s[1..];
      if j == -1 then -1
      else
        assert s[..j + 1] == [s[0]] + s[1..][..j];
        j + 1
  }

  /** `parts.join(sep)`. */
  function Join(parts: seq<string>, sep: string): string
  {
    if |parts| == 0 then ""
    else if |parts| == 1 then parts[0]
    else parts[0] + sep + Join(parts[1..], sep)
  }

  lemma JoinCons(p: string, rest: seq<string>, sep: string)
    requires |rest| >= 1
    ensures Join([p] + rest, sep) == p + sep + Join(rest, sep)
  {
    assert ([p] + rest)[1..] == rest;
  }

  lemma JoinFive(a: string, b: string, c: string, d: string, e: string, sep: string)
    ensures Join([a, b, c, d, e], sep) == a + sep + b + sep + c + sep + d + sep + e
  {
    JoinCons(d, [e], sep);
    JoinCons(c, [d, e], sep);
    JoinCons(b, [c, d, e], sep);
    JoinCons(a, [b, c, d, e], sep);
    assert [a] + [b, c, d, e] == [a, b, c, d, e];
  }

  lemma JoinSix(a: string, b: string, c: string, d: string, e: string, f: string, sep: string)
    ensures Join([a, b, c, d, e] + [f], sep) == a + sep + b + sep + c + sep + d + sep + e + sep + f
  {
    JoinCons(e, [f], sep);
    JoinCons(d, [e, f], sep);
    JoinCons(c, [d, e, f], sep);
    JoinCons(b, [c, d, e, f], sep);
    JoinCons(a, [b, c, d, e, f], sep);
    assert [a, b, c, d, e] + [f] == [a] + [b, c, d, e, f];
  }

  /** `s.split(sep)` for a one-character separator: the pieces between
      separators, so there is always one more piece than separators. */
  function Split(s: string, sep: char): (parts: seq<string>)
    ensures |parts| >= 1
    decreases |s|
  {
    var i := IndexOf(s, sep);
    if i == -1 then [s] else [s[..i]] + Split(s[i + 1..], sep)
  }

  /** No piece of a split holds the separator. */
  lemma {:induction false} SplitPieces(s: string, sep: char)
    ensures forall i :: 0 <= i < |Split(s, sep)| ==> sep !in Split(s, sep)[i]
    decreases |s|
  {
    var i := IndexOf(s, sep);
    if i != -1 {
      SplitPieces(s[i + 1..], sep);
      assert Split(s, sep) == [s[..i]] + Split(s[i + 1..], sep);
    }
  }

  /** Joining the pieces of a split with the separator gives the string back. */
  lemma {:induction false} JoinSplit(s: string, sep: char)
    ensures Join(Split(s, sep), [sep]) == s
    decreases |s|
  {
    var i := IndexOf(s, sep);
    if i != -1 {
      var p, r := s[..i], s[i + 1..];
      assert forall j :: 0 <= j < |p| ==> p[j] == s[j];
      assert s == p + [sep] + r;
      SplitAfter(p, r, sep);
      JoinSplit(r, sep);
      JoinCons(p, Split(r, sep), [sep]);
    }
  }

  /** Splitting a join of separator-free pieces gives the pieces back. */
  lemma {:induction false} SplitJoin(parts: seq<string>, sep: char)
    requires |parts| >= 1
    requires forall i :: 0 <= i < |parts| ==> sep !in parts[i]
    ensures Split(Join(parts, [sep]), sep) == parts
  {
    if |parts| == 1 {
      assert Join(parts, [sep]) == parts[0];
    } else {
      var p, tail := parts[0], Join(parts[1..], [sep]);
      var s := Join(parts, [sep]);
      assert s == p + [sep] + tail;
      assert sep !in p;
      IndexOfAfter(p, sep, tail);
      assert s[..|p|] == p;
      assert s[|p| + 1..] == tail;
      SplitJoin(parts[1..], sep);
      assert Split(s, sep) == [p] + Split(tail, sep);
      assert parts == [p] + parts[1..];
    }
  }

  /** Splitting a string of separators and white space gives pieces of
      white space only. */
  lemma {:induction false} SplitBlank(s: string, sep: char)
    requires forall k :: 0 <= k < |s| ==> s[k] == sep || IsSpace(s[k])
    ensures forall i :: 0 <= i < |Split(s, sep)| ==> AllSpace(Split(s, sep)[i])
    decreases |s|
  {
    var j := IndexOf(s, sep);
    if j != -1 {
      var head, rest := s[..j], s[j + 1..];
      assert forall k :: 0 <= k < |head| ==> head[k] == s[k];
      assert forall k :: 0 <= k < |rest| ==> rest[k] == s[j + 1 + k];
      SplitBlank(rest, sep);
      assert Split(s, sep) == [head] + Split(rest, sep);
    }
  }

  lemma IndexOfAfter(p: string, c: char, rest: string)
    requires c !in p
    ensures IndexOf(p + [c] + rest, c) == |p|
  {
    var s := p + [c] + rest;
    var i := IndexOf(s, c);
    assert s[..|p|] == p && s[|p|] == c;

  }

  /** A split at a separator after a separator-free piece starts with that piece. */
  lemma SplitAfter(p: string, rest: string, sep: char)
    requires sep !in p
    ensures Split(p + [sep] + rest, sep) == [p] + Split(rest, sep)
  {
    var x := p + [sep] + rest;
    IndexOfAfter(p, sep, rest);
    assert x[..|p|] == p && x[|p| + 1..] == rest;
  }

  /** A string without the separator splits into itself. */
  lemma SplitNone(s: string, sep: char)
    requires sep !in s
    ensures Split(s, sep) == [s]
  {
  }

  /** Splitting at a separator placed between two strings splits each of them. */
  lemma {:induction false} SplitConcat(a: string, b: string, sep: char)
    ensures Split(a + [sep] + b, sep) == Split(a, sep) + Split(b, sep)
    decreases |a|
  {
    var i := IndexOf(a, sep);
    if i == -1 {
      SplitAfter(a, b, sep);
    } else {
      var p, r := a[..i], a[i + 1..];
      assert forall j :: 0 <= j < |p| ==> p[j] == a[j];
      assert a == p + [sep] + r;
      SplitAfter(p, r, sep);
      assert a + [sep] + b == p + [sep] + (r + [sep] + b);
      SplitAfter(p, r + [sep] + b, sep);
      SplitConcat(r, b, sep);
      AppendAssoc([p], Split(r, sep), Split(b, sep));
    }
  }

  /** The first position at or after `i` that does not hold white space
      (`|s|` when there is none). */
  function SkipSpace(s: string, i: nat): (n: nat)
    requires i <= |s|
    ensures i <= n <= |s|
    ensures forall k :: i <= k < n ==> IsSpace(s[k])
    ensures n < |s| ==> !IsSpace(s[n])
    decreases |s| - i
  {
    if i < |s| && IsSpace(s[i]) then SkipSpace(s, i + 1) else i
  }

  /** The end of `s[lo..j]` once its trailing white space is dropped. */
  function SkipSpaceBack(s: string, lo: nat, j: nat): (n: nat)
    requires lo <= j <= |s|
    ensures lo <= n <= j
    ensures forall k :: n <= k < j ==> IsSpace(s[k])
    ensures n > lo ==> !IsSpace(s[n - 1])
    decreases j
  {
    if j > lo && IsSpace(s[j - 1]) then SkipSpaceBack(s, lo, j - 1) else j
  }

  /** `s.trim()`: the slice of `s` left after removing the white space at
      both ends (`SkipSpace(s, 0)` characters at the front); it has none at
      either end. */
  function Trim(s: string): (r: string)
    ensures IsTrimmed(r)
    ensures var lo := SkipSpace(s, 0);
            && lo + |r| <= |s| && r == s[lo..lo + |r|]
            && AllSpace(s[..lo]) && AllSpace(s[lo + |r|..])
  {
    var lo := SkipSpace(s, 0);
    s[lo..SkipSpaceBack(s, lo, |s|)]
  }

  /** Trimming removes exactly the white-space padding around a trimmed string. */
  lemma TrimPadding(pre: string, s: string, post: string)
    requires AllSpace(pre) && AllSpace(post) && IsTrimmed(s)
    ensures Trim(pre + s + post) == s
  {
    var x := pre + s + post;
    var lo := SkipSpace(x, 0);
    var hi := SkipSpaceBack(x, lo, |x|);
    assert forall k :: 0 <= k < |pre| ==> x[k] == pre[k];
    assert forall k :: 0 <= k < |post| ==> x[|pre| + |s| + k] == post[k];
    if s == [] {
      assert lo == |x|;
    } else {
      assert x[|pre|] == s[0] && x[|pre| + |s| - 1] == s[|s| - 1];
      assert lo == |pre|;
      assert hi == |pre| + |s|;
      assert x[lo..hi] == s;
    }
  }

  /** Trimming keeps only characters of its input. */
  lemma TrimSubset(s: string, c: char)
    requires c in Trim(s)
    ensures c in s
  {
    var r := Trim(s);
    var lo := SkipSpace(s, 0);
    var k :| 0 <= k < |r| && r[k] == c;
    assert s[lo + k] == c;
  }

  /** A string of white space trims to "". */
  lemma TrimBlank(s: string)
    requires AllSpace(s)
    ensures Trim(s) == ""
  {
    assert s + "" + "" == s;
    TrimPadding(s, "", "");
  }

  /** A string trims to "" exactly when it is all white space. */
  lemma TrimEmpty(s: string)
    ensures Trim(s) == "" <==> AllSpace(s)
  {
    if AllSpace(s) {
      TrimBlank(s);
    }
  }

  function DigitChar(d: nat): (c: char)
    requires d < 10
    ensures '0' <= c <= '9'
  {
    ('0' as int + d) as char
  }

  predicate IsDigits(s: string) {
    forall i :: 0 <= i < |s| ==> '0' <= s[i] <= '9'
  }

  /** The rendering of a non-negative integer in a template string: its
      decimal digits, with no leading zero. JavaScript agrees with this
      below 1e21, a bound that covers the cookie lifetimes used here:
      0, 900 and 604800. */
  function NatToString(n: nat): (s: string)
    ensures |s| >= 1 && IsDigits(s)
    ensures |s| > 1 ==> s[0] != '0'
  {
    if n < 10 then [DigitChar(n)] else NatToString(n / 10) + [DigitChar(n % 10)]
  }

  /** The value of a string of decimal digits. */
  function DecimalValue(s: string): nat
    requires IsDigits(s)
  {
    if s == [] then 0
    else DecimalValue(s[..|s| - 1]) * 10 + (s[|s| - 1] as int - '0' as int)
  }

  /** Reading the digits back gives the number. */
  lemma {:induction false} NatToStringValue(n: nat)
    ensures DecimalValue(NatToString(n)) == n
  {
    var s := NatToString(n);
    if n < 10 {
      assert s[..0] == [];
    } else {
      NatToStringValue(n / 10);
      assert s[..|s| - 1] == NatToString(n / 10);
    }
  }
}
