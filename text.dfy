/**
 * The string operations the authentication gate applies to header names and
 * header values: Python's `str.lower()`, `str.strip()` and
 * `str.split(maxsplit=1)`, over ASCII.
 */
module Text {

  /** Python's `str.isspace` on ASCII: tab, line feed, vertical tab, form feed,
      carriage return, the four separators 0x1C..0x1F, and space. */
  predicate IsSpace(c: char) {
    (9 <= c as int <= 13) || (28 <= c as int <= 31) || c == ' '
  }

  ghost predicate AllSpace(s: string) {
    forall i :: 0 <= i < |s| ==> IsSpace(s[i])
  }

  ghost predicate NoSpace(s: string) {
    forall i :: 0 <= i < |s| ==> !IsSpace(s[i])
  }

  /** A string with no leading and no trailing whitespace. */
  ghost predicate Trimmed(s: string) {
    s == [] || (!IsSpace(s[0]) && !IsSpace(s[|s| - 1]))
  }

  // ---------------------------------------------------------------- lower

  /** ASCII case folding of one character. */
  function LowerChar(c: char): char {
    if 'A' <= c <= 'Z' then (c as int - 'A' as int + 'a' as int) as char else c
  }

  /** `str.lower()` over ASCII. */
  function Lower(s: string): string {
    seq(|s|, i requires 0 <= i < |s| => LowerChar(s[i]))
  }

  /** Lowering leaves no upper-case letter behind and is idempotent. */
  lemma LowerIsLower(s: string)
    ensures forall i :: 0 <= i < |s| ==> !('A' <= Lower(s)[i] <= 'Z')
    ensures Lower(Lower(s)) == Lower(s)
  {
  }

  /** Lowering never turns a non-space into a space or back. */
  lemma LowerKeepsSpaces(s: string)
    ensures NoSpace(Lower(s)) <==> NoSpace(s)
    ensures AllSpace(Lower(s)) <==> AllSpace(s)
  {
    forall i | 0 <= i < |s| ensures IsSpace(Lower(s)[i]) <==> IsSpace(s[i]) {
      assert Lower(s)[i] == LowerChar(s[i]);
    }
  }

  /** The strings that lower to "bearer" are exactly its 64 spellings mixing
      upper and lower case letter by letter. */
  lemma LowerIsBearer(s: string)
    ensures Lower(s) == "bearer" <==>
      |s| == 6 && forall i :: 0 <= i < 6 ==> s[i] == "bearer"[i] || s[i] == "BEARER"[i]
  {
    if |s| == 6 && forall i :: 0 <= i < 6 ==> s[i] == "bearer"[i] || s[i] == "BEARER"[i] {
      forall i | 0 <= i < 6 ensures Lower(s)[i] == "bearer"[i] {
      }
    }
  }

  // ---------------------------------------------------------------- strip

  /** Drops the leading whitespace: the result is the suffix of `s` that starts
      at its first non-space character. */
  function TrimLeft(s: string): (r: string)
    ensures |r| <= |s| && r == s[|s| - |r|..]
    ensures AllSpace(s[..|s| - |r|])
    ensures r == [] || !IsSpace(r[0])
  {
    if s != [] && IsSpace(s[0]) then
      var r := TrimLeft(s[1..]);
      TrimLeftStep(s, r);
      r
    else
      s
  }

  /** Drops the trailing whitespace: the result is the prefix of `s` that ends
      at its last non-space character. */
  function TrimRight(s: string): (r: string)
    ensures |r| <= |s| && r == s[..|r|]
    ensures AllSpace(s[|r|..])
    ensures r == [] || !IsSpace(r[|r| - 1])
  {
    if s != [] && IsSpace(s[|s| - 1]) then
      var r := TrimRight(s[..|s| - 1]);
      TrimRightStep(s, r);
      r
    else
      s
  }

  /** One step of TrimLeft: dropping a leading space keeps the shape. */
  lemma TrimLeftStep(s: string, r: string)
    requires s != [] && IsSpace(s[0])
    requires |r| <= |s| - 1 && r == s[1..][|s| - 1 - |r|..]
    requires AllSpace(s[1..][..|s| - 1 - |r|])
    ensures r == s[|s| - |r|..]
    ensures AllSpace(s[..|s| - |r|])
  {
    var k := |s| - |r|;
    forall i | 0 <= i < k ensures IsSpace(s[..k][i]) {
      if i > 0 {
        assert s[..k][i] == s[1..][..k - 1][i - 1];
      }
    }
  }

  /** One step of TrimRight: dropping a trailing space keeps the shape. */
  lemma TrimRightStep(s: string, r: string)
    requires s != [] && IsSpace(s[|s| - 1])
    requires |r| <= |s| - 1 && r == s[..|s| - 1][..|r|]
    requires AllSpace(s[..|s| - 1][|r|..])
    ensures r == s[..|r|]
    ensures AllSpace(s[|r|..])
  {
    var k := |r|;
    forall i | 0 <= i < |s| - k ensures IsSpace(s[k..][i]) {
      if i < |s| - 1 - k {
        assert s[k..][i] == s[..|s| - 1][k..][i];
      }
    }
  }

  /** `str.strip()` with no argument. */
  function Strip(s: string): (r: string)
    ensures Trimmed(r)
  {
    TrimRight(TrimLeft(s))
  }

  /** TrimLeft removes exactly a whitespace prefix in front of a non-space. */
  lemma {:induction false} TrimLeftExact(w: string, m: string)
    requires AllSpace(w)
    requires m == [] || !IsSpace(m[0])
    ensures TrimLeft(w + m) == m
  {
    if w != [] {
      assert (w + m)[1..] == w[1..] + m;
      TrimLeftExact(w[1..], m);
    }
  }

  /** TrimRight removes exactly a whitespace suffix behind a non-space. */
  lemma {:induction false} TrimRightExact(m: string, w: string)
    requires AllSpace(w)
    requires m == [] || !IsSpace(m[|m| - 1])
    ensures TrimRight(m + w) == m
  {
    if w != [] {
      assert (m + w)[..|m + w| - 1] == m + w[..|w| - 1];
      TrimRightExact(m, w[..|w| - 1]);
    }
  }

  /** Strip cuts `s` into leading whitespace, the stripped text and trailing
      whitespace. */
  lemma StripSplit(s: string) returns (w1: string, w2: string)
    ensures AllSpace(w1) && AllSpace(w2) && s == w1 + Strip(s) + w2
  {
    var t := TrimLeft(s);
    var r := TrimRight(t);
    w1 := LeadingSpace(s);
    w2 := TrailingSpace(t);
    Associate3(w1, r, w2);
  }

  /** The whitespace TrimLeft removes. */
  lemma LeadingSpace(s: string) returns (w: string)
    ensures AllSpace(w) && s == w + TrimLeft(s)
  {
    w := s[..|s| - |TrimLeft(s)|];
    assert s == w + TrimLeft(s);
  }

  /** The whitespace TrimRight removes. */
  lemma TrailingSpace(s: string) returns (w: string)
    ensures AllSpace(w) && s == TrimRight(s) + w
  {
    w := s[|TrimRight(s)|..];
    assert s == TrimRight(s) + w;
  }

  lemma Associate3(p: string, q: string, r: string)
    ensures p + (q + r) == p + q + r
  {
  }

  /** Nothing is left after TrimLeft exactly when the string is blank. */
  lemma TrimLeftEmpty(s: string)
    ensures TrimLeft(s) == [] <==> AllSpace(s)
  {
    if TrimLeft(s) == [] {
      assert s[..|s|] == s;
    }
  }

  /** Strip is determined uniquely: whitespace around a trimmed middle is all it
      removes. */
  lemma StripExact(w1: string, m: string, w2: string)
    requires AllSpace(w1) && AllSpace(w2) && Trimmed(m)
    ensures Strip(w1 + m + w2) == m
  {
    if m == [] {
      assert AllSpace(w1 + m + w2);
      TrimLeftExact(w1 + m + w2, []);
      assert w1 + m + w2 + [] == w1 + m + w2;
    } else {
      assert w1 + m + w2 == w1 + (m + w2);
      TrimLeftExact(w1, m + w2);
      TrimRightExact(m, w2);
    }
  }

  /** Whitespace in front of a string is invisible to TrimLeft. */
  lemma {:induction false} TrimLeftSkip(w: string, s: string)
    requires AllSpace(w)
    ensures TrimLeft(w + s) == TrimLeft(s)
  {
    if w != [] {
      assert (w + s)[1..] == w[1..] + s;
      TrimLeftSkip(w[1..], s);
    } else {
      assert w + s == s;
    }
  }

  /** Whitespace behind a string is invisible to TrimRight. */
  lemma {:induction false} TrimRightSkip(s: string, w: string)
    requires AllSpace(w)
    ensures TrimRight(s + w) == TrimRight(s)
  {
    if w != [] {
      assert (s + w)[..|s + w| - 1] == s + w[..|w| - 1];
      TrimRightSkip(s, w[..|w| - 1]);
    } else {
      assert s + w == s;
    }
  }

  /** Once TrimLeft has reached a non-space, what follows is kept as is. */
  lemma {:induction false} TrimLeftAppend(s: string, x: string)
    requires TrimLeft(s) != []
    ensures TrimLeft(s + x) == TrimLeft(s) + x
  {
    assert s != [];
    if IsSpace(s[0]) {
      assert (s + x)[1..] == s[1..] + x;
      TrimLeftAppend(s[1..], x);
    }
  }

  /** Behind a non-space, TrimRight only ever works on what follows it. */
  lemma {:induction false} TrimRightPrepend(a: string, r: string)
    requires a != [] && !IsSpace(a[|a| - 1])
    ensures TrimRight(a + r) == a + TrimRight(r)
  {
    if r == [] {
      assert a + r == a;
      assert a + [] == a;
    } else if IsSpace(r[|r| - 1]) {
      assert (a + r)[..|a + r| - 1] == a + r[..|r| - 1];
      TrimRightPrepend(a, r[..|r| - 1]);
    } else {
      assert (a + r)[|a + r| - 1] == r[|r| - 1];
    }
  }

  /** Whitespace added around a string does not change what Strip keeps. */
  lemma StripIgnoresOuterSpace(w1: string, s: string, w2: string)
    requires AllSpace(w1) && AllSpace(w2)
    ensures Strip(w1 + s + w2) == Strip(s)
  {
    assert w1 + s + w2 == w1 + (s + w2);
    TrimLeftSkip(w1, s + w2);
    if TrimLeft(s) == [] {
      assert AllSpace(s) by { assert s[..|s|] == s; }
      TrimLeftSkip(s, w2);
      TrimLeftExact(w2, []);
      assert w2 + [] == w2;
    } else {
      TrimLeftAppend(s, w2);
      TrimRightSkip(TrimLeft(s), w2);
    }
  }

  // ---------------------------------------------------------------- split

  /** The length of the run of non-space characters that starts `s`. */
  function WordEnd(s: string): (n: nat)
    ensures n <= |s| && NoSpace(s[..n])
    ensures n == |s| || IsSpace(s[n])
  {
    if s == [] || IsSpace(s[0]) then 0 else 1 + WordEnd(s[1..])
  }

  /** The first word ends exactly where the whitespace after it begins. */
  lemma {:induction false} WordEndExact(a: string, w: string)
    requires NoSpace(a)
    requires w == [] || IsSpace(w[0])
    ensures WordEnd(a + w) == |a|
  {
    if a != [] {
      assert (a + w)[1..] == a[1..] + w;
      WordEndExact(a[1..], w);
    }
  }

  /** `str.split(maxsplit=1)`: skip the leading whitespace, take the first run
      of non-space characters, skip the whitespace after it, and keep whatever
      remains verbatim (inner and trailing whitespace included) as the second
      part when it is not empty. */
  function SplitOnce(s: string): (parts: seq<string>)
    ensures |parts| <= 2
    ensures parts == [] <==> AllSpace(s)
    ensures |parts| >= 1 ==> parts[0] != [] && NoSpace(parts[0])
    ensures |parts| == 2 ==> parts[1] != [] && !IsSpace(parts[1][0])
  {
    var t := TrimLeft(s);
    TrimLeftEmpty(s);
    if t == [] then []
    else
      var n := WordEnd(t);
      var rest := TrimLeft(t[n..]);
      if rest == [] then [t[..n]] else [t[..n], rest]
  }

  /** A string with no whitespace in it splits into at most one part. */
  lemma SplitOnceNoSpace(s: string)
    requires NoSpace(s)
    ensures |SplitOnce(s)| <= 1
  {
    var t := TrimLeft(s);
    if t != [] {
      assert t == s[|s| - |t|..];
      assert NoSpace(t);
      assert WordEnd(t) == |t|;
    }
  }

  /** Any whitespace, a word, a non-empty run of whitespace and a remainder
      that starts with a non-space split into exactly that word and that
      remainder. */
  lemma SplitOnceTwo(w1: string, a: string, w2: string, b: string)
    requires AllSpace(w1) && a != [] && NoSpace(a)
    requires w2 != [] && AllSpace(w2)
    requires b != [] && !IsSpace(b[0])
    ensures SplitOnce(w1 + a + w2 + b) == [a, b]
  {
    var t := a + (w2 + b);
    assert TrimLeft(w1 + a + w2 + b) == t by {
      Associate(w1, a, w2, b);
      TrimLeftExact(w1, t);
    }
    assert WordEnd(t) == |a| by {
      WordEndExact(a, w2 + b);
    }
    assert t[..|a|] == a;
    assert TrimLeft(t[|a|..]) == b by {
      assert t[|a|..] == w2 + b;
      TrimLeftExact(w2, b);
    }
  }

  /** The first part of a split is the first word. */
  lemma SplitOnceFirst(w1: string, a: string, r: string)
    requires AllSpace(w1) && a != [] && NoSpace(a)
    requires r == [] || IsSpace(r[0])
    ensures |SplitOnce(w1 + a + r)| >= 1 && SplitOnce(w1 + a + r)[0] == a
  {
    var t := a + r;
    assert TrimLeft(w1 + a + r) == t by {
      Associate3(w1, a, r);
      TrimLeftExact(w1, t);
    }
    assert WordEnd(t) == |a| by {
      WordEndExact(a, r);
    }
    assert t[..|a|] == a;
  }

  /** A word with whitespace around it splits into that word alone. */
  lemma SplitOnceOne(w1: string, a: string, w2: string)
    requires AllSpace(w1) && a != [] && NoSpace(a) && AllSpace(w2)
    ensures SplitOnce(w1 + a + w2) == [a]
  {
    var t := a + w2;
    assert TrimLeft(w1 + a + w2) == t by {
      Associate3(w1, a, w2);
      TrimLeftExact(w1, t);
    }
    assert WordEnd(t) == |a| by {
      WordEndExact(a, w2);
    }
    assert t[..|a|] == a;
    assert TrimLeft(t[|a|..]) == [] by {
      assert t[|a|..] == w2 + [];
      TrimLeftExact(w2, []);
    }
  }

  /** Conversely, two parts always come from whitespace, the first part, a
      non-empty run of whitespace and the second part, in that order. */
  lemma SplitOnceTwoShape(s: string, a: string, b: string) returns (w1: string, w2: string)
    requires SplitOnce(s) == [a, b]
    ensures AllSpace(w1) && AllSpace(w2) && w2 != [] && s == w1 + a + w2 + b
  {
    var t := TrimLeft(s);
    w1 := LeadingSpace(s);
    w2 := SplitRestShape(t, a, b);
    assert s == w1 + a + w2 + b by {
      Associate(w1, a, w2, b);
    }
  }

  /** After the first word, the whitespace that SplitOnce skips is not empty. */
  lemma SplitRestShape(t: string, a: string, b: string) returns (w2: string)
    requires t != [] && !IsSpace(t[0])
    requires a == t[..WordEnd(t)] && b == TrimLeft(t[WordEnd(t)..]) && b != []
    ensures AllSpace(w2) && w2 != [] && t == a + (w2 + b)
  {
    var u := t[WordEnd(t)..];
    w2 := LeadingSpace(u);
    assert IsSpace(u[0]);
    assert t == a + u;
  }

  lemma Associate(p: string, q: string, r: string, t: string)
    ensures p + (q + (r + t)) == p + q + r + t
  {
  }
}
