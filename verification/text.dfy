/** The two pieces of Rust's `str` API the parsers lean on: `split_whitespace`
    (as `Tokens`) and `to_lowercase` (as `ToLowercase`). */
module Text {

  /** The characters with the Unicode White_Space property, which is what
      Rust's `char::is_whitespace` tests. */
  const WHITESPACE: set<char> := {
    '\t', '\n', '\U{B}', '\U{C}', '\r', ' ', '\U{85}', '\U{A0}', '\U{1680}',
    '\U{2000}', '\U{2001}', '\U{2002}', '\U{2003}', '\U{2004}', '\U{2005}',
    '\U{2006}', '\U{2007}', '\U{2008}', '\U{2009}', '\U{200A}',
    '\U{2028}', '\U{2029}', '\U{202F}', '\U{205F}', '\U{3000}'
  }

  predicate IsWs(c: char) {
    c in WHITESPACE
  }

  predicate AllWs(s: string) {
    forall i :: 0 <= i < |s| ==> IsWs(s[i])
  }

  /** A token of `split_whitespace`: non-empty and free of whitespace. */
  predicate IsToken(t: string) {
    |t| > 0 && forall i :: 0 <= i < |t| ==> !IsWs(t[i])
  }

  /** Length of the longest prefix of `s` whose characters are whitespace
      (`ws`) or non-whitespace (`!ws`). */
  function RunLen(s: string, ws: bool): (n: nat)
    ensures n <= |s|
    ensures n < |s| ==> IsWs(s[n]) != ws
  {
    if s == [] || IsWs(s[0]) != ws then 0 else 1 + RunLen(s[1..], ws)
  }

  /** Every character of the run has the kind the run is made of; a string
      wholly of that kind is one run. */
  lemma {:induction false} RunLenPrefix(s: string, ws: bool)
    ensures forall i :: 0 <= i < RunLen(s, ws) ==> IsWs(s[i]) == ws
    ensures (forall i :: 0 <= i < |s| ==> IsWs(s[i]) == ws) ==> RunLen(s, ws) == |s|
  {
    if s != [] && IsWs(s[0]) == ws {
      RunLenPrefix(s[1..], ws);
      assert forall i :: 1 <= i < |s| ==> s[1..][i - 1] == s[i];
    }
  }

  /** `s.split_whitespace().collect()`: the maximal runs of non-whitespace
      characters, in order. */
  function Tokens(s: string): (ts: seq<string>)
    decreases |s|
  {
    var k := RunLen(s, true);
    if k == |s| then []
    else
      var rest := s[k..];
      var n := RunLen(rest, false);
      [rest[..n]] + Tokens(rest[n..])
  }

  /** The tokens joined with one space between neighbours: the canonical
      spelling of a token sequence. */
  function Unwords(ts: seq<string>): string {
    if |ts| == 0 then ""
    else if |ts| == 1 then ts[0]
    else ts[0] + " " + Unwords(ts[1..])
  }

  /** Splitting at a whitespace boundary: a prefix of whitespace (or of
      non-whitespace) stops at the end of `a` only if `a` is all of that kind. */
  lemma {:induction false} RunLenAppend(a: string, b: string, ws: bool)
    ensures RunLen(a + b, ws) == if RunLen(a, ws) == |a| then |a| + RunLen(b, ws) else RunLen(a, ws)
  {
    if a == [] {
      assert a + b == b;
    } else {
      assert (a + b)[0] == a[0];
      if IsWs(a[0]) == ws {
        assert (a + b)[1..] == a[1..] + b;
        RunLenAppend(a[1..], b, ws);
      }
    }
  }

  lemma SliceAppend(x: string, y: string, n: nat)
    requires n <= |x|
    ensures (x + y)[..n] == x[..n]
    ensures (x + y)[n..] == x[n..] + y
  {
  }

  /** One unfolding of `Tokens` on a string that is not all whitespace, with
      the text after the leading whitespace named `rest`. */
  lemma TokensUnfold(s: string, k: nat, rest: string, n: nat)
    requires k == RunLen(s, true) < |s|
    requires rest == s[k..]
    requires n == RunLen(rest, false)
    ensures Tokens(s) == [rest[..n]] + Tokens(rest[n..])
  {
  }

  /** Every token is non-empty and free of whitespace. */
  lemma {:induction false} TokensAreTokens(s: string)
    ensures forall i :: 0 <= i < |Tokens(s)| ==> IsToken(Tokens(s)[i])
    decreases |s|
  {
    var k := RunLen(s, true);
    if k < |s| {
      var rest := s[k..];
      var n := RunLen(rest, false);
      TokensUnfold(s, k, rest, n);
      var t := rest[..n];
      RunLenPrefix(rest, false);
      assert IsToken(t) by {
        assert forall i :: 0 <= i < n ==> t[i] == rest[i];
      }
      TokensAreTokens(rest[n..]);
    }
  }

  lemma TokensOfBlank(w: string)
    requires AllWs(w)
    ensures Tokens(w) == []
  {
    RunLenPrefix(w, true);
  }

  lemma TokensOfToken(t: string)
    requires IsToken(t)
    ensures Tokens(t) == [t]
  {
    assert RunLen(t, true) == 0;
    assert t[0..] == t;
    RunLenPrefix(t, false);
    TokensUnfold(t, 0, t, |t|);
    assert t[..|t|] == t;
    assert t[|t|..] == [];
  }

  /** Leading whitespace does not change the tokens. */
  lemma TokensAfterBlank(w: string, s: string)
    requires AllWs(w)
    ensures Tokens(w + s) == Tokens(s)
  {
    RunLenAppend(w, s, true);
    RunLenPrefix(w, true);
    var k := RunLen(s, true);
    var K := |w| + k;
    assert RunLen(w + s, true) == K;
    if k < |s| {
      var rest := s[k..];
      assert (w + s)[K..] == rest;
      var n := RunLen(rest, false);
      TokensUnfold(s, k, rest, n);
      TokensUnfold(w + s, K, rest, n);
    }
  }

  /** The cut between `a` and `b` falls next to whitespace. */
  predicate SeparatedAt(a: string, b: string) {
    a == [] || b == [] || IsWs(a[|a| - 1]) || IsWs(b[0])
  }

  /** The first token of `a` is also the first token of `a + b`, and what
      follows it is still separated from `b`. */
  lemma TokensAppendStep(a: string, b: string) returns (t: string, a': string)
    requires SeparatedAt(a, b)
    requires RunLen(a, true) < |a|
    ensures |a'| < |a| && SeparatedAt(a', b)
    ensures Tokens(a) == [t] + Tokens(a')
    ensures Tokens(a + b) == [t] + Tokens(a' + b)
  {
    var ka := RunLen(a, true);
    RunLenAppend(a, b, true);
    var ra := a[ka..];
    assert (a + b)[ka..] == ra + b;
    var na := RunLen(ra, false);
    assert ra[0] == a[ka];
    assert na > 0;
    RunLenAppend(ra, b, false);
    if na == |ra| {
      RunLenPrefix(ra, false);
      assert ra[|ra| - 1] == a[|a| - 1];
      assert b == [] || RunLen(b, false) == 0;
    }
    assert RunLen(ra + b, false) == na;
    TokensUnfold(a, ka, ra, na);
    TokensUnfold(a + b, ka, ra + b, na);
    t, a' := ra[..na], ra[na..];
    SliceAppend(ra, b, na);
    assert a' == [] || a'[|a'| - 1] == a[|a| - 1];
    calc {
      Tokens(a + b);
      [(ra + b)[..na]] + Tokens((ra + b)[na..]);
      [t] + Tokens(a' + b);
    }
  }

  lemma ConsAppend(t: string, xs: seq<string>, ys: seq<string>)
    ensures [t] + (xs + ys) == ([t] + xs) + ys
  {
  }

  /** The tokens of a concatenation are the tokens of the parts whenever the
      cut falls next to whitespace (so no token straddles it). */
  lemma {:induction false} TokensAppend(a: string, b: string)
    requires SeparatedAt(a, b)
    ensures Tokens(a + b) == Tokens(a) + Tokens(b)
    decreases |a|
  {
    if RunLen(a, true) == |a| {
      assert AllWs(a) by {
        RunLenPrefix(a, true);
      }
      TokensOfBlank(a);
      TokensAfterBlank(a, b);
    } else {
      var t, a' := TokensAppendStep(a, b);
      TokensAppend(a', b);
      ConsAppend(t, Tokens(a'), Tokens(b));
    }
  }

  /** Trailing whitespace does not change the tokens. */
  lemma TokensTrimEnd(s: string, w: string)
    requires AllWs(w)
    ensures Tokens(s + w) == Tokens(s)
  {
    TokensAppend(s, w);
    TokensOfBlank(w);
    assert Tokens(s) + [] == Tokens(s);
  }

  /** A non-empty run of whitespace between two pieces of text separates
      their tokens. */
  lemma TokensAroundBlank(a: string, w: string, b: string)
    requires |w| > 0 && AllWs(w)
    ensures Tokens(a + w + b) == Tokens(a) + Tokens(b)
  {
    TokensOfBlank(w);
    assert SeparatedAt(a, w);
    TokensAppend(a, w);
    assert SeparatedAt(a + w, b) by {
      assert (a + w)[|a + w| - 1] == w[|w| - 1];
    }
    TokensAppend(a + w, b);
    assert Tokens(a + w) == Tokens(a);
  }

  /** Any non-empty run of whitespace between two pieces of text separates
      tokens exactly as a single space does. */
  lemma TokensCollapseSpace(a: string, w: string, b: string)
    requires |w| > 0 && AllWs(w)
    ensures Tokens(a + w + b) == Tokens(a + " " + b)
  {
    TokensAroundBlank(a, w, b);
    TokensAroundBlank(a, " ", b);
  }

  /** Splitting undoes joining: a sequence of tokens is recovered from its
      canonical spelling. */
  lemma {:induction false} TokensOfUnwords(ts: seq<string>)
    requires forall i :: 0 <= i < |ts| ==> IsToken(ts[i])
    ensures Tokens(Unwords(ts)) == ts
  {
    if |ts| == 1 {
      TokensOfToken(ts[0]);
    } else if |ts| > 1 {
      TokensOfUnwords(ts[1..]);
      TokensAroundBlank(ts[0], " ", Unwords(ts[1..]));
      TokensOfToken(ts[0]);
      assert ts == [ts[0]] + ts[1..];
    }
  }

  /** Two tokens separated by one space split back into those two. */
  lemma TokensOfPair(a: string, b: string)
    requires IsToken(a) && IsToken(b)
    ensures Tokens(a + " " + b) == [a, b]
  {
    TokensOfUnwords([a, b]);
    assert Unwords([a, b]) == a + " " + b;
  }

  /** Joining undoes splitting up to spacing: re-splitting the canonical
      spelling of `s` gives the tokens of `s`. */
  lemma TokensNormalForm(s: string)
    ensures Tokens(Unwords(Tokens(s))) == Tokens(s)
  {
    TokensAreTokens(s);
    TokensOfUnwords(Tokens(s));
  }

  /** `char::to_lowercase` on the characters that have a one-character
      lowercase form in ASCII and Latin-1; other characters are unchanged. */
  function Lower(c: char): char {
    if 'A' <= c <= 'Z' || ('\U{C0}' <= c <= '\U{DE}' && c != '\U{D7}') then
      (c as int + 32) as char
    else c
  }

  /** `str::to_lowercase`, character by character. */
  function ToLowercase(s: string): (r: string)
    ensures |r| == |s|
  {
    seq(|s|, i requires 0 <= i < |s| => Lower(s[i]))
  }

  /** Two strings that differ only in letter case. */
  predicate EqualsIgnoreCase(a: string, b: string) {
    |a| == |b| && forall i :: 0 <= i < |a| ==> Lower(a[i]) == Lower(b[i])
  }

  /** Lowercasing neither creates nor removes whitespace. */
  lemma LowerKeepsWhitespace(c: char)
    ensures IsWs(Lower(c)) <==> IsWs(c)
  {
  }

  /** A case variant of a token is a token. */
  lemma CaseVariantIsToken(a: string, b: string)
    requires EqualsIgnoreCase(a, b) && IsToken(b)
    ensures IsToken(a)
  {
    forall i | 0 <= i < |a|
      ensures !IsWs(a[i])
    {
      LowerKeepsWhitespace(a[i]);
      LowerKeepsWhitespace(b[i]);
    }
  }

  /** Case-insensitive equality is exactly equality after lowercasing. */
  lemma ToLowercaseEqual(a: string, b: string)
    ensures ToLowercase(a) == ToLowercase(b) <==> EqualsIgnoreCase(a, b)
  {
    if EqualsIgnoreCase(a, b) {
      assert forall i :: 0 <= i < |a| ==> ToLowercase(a)[i] == ToLowercase(b)[i];
    }
    if ToLowercase(a) == ToLowercase(b) {
      assert forall i :: 0 <= i < |a| ==> ToLowercase(a)[i] == Lower(a[i]);
    }
  }

  /** A string lowercases to an already-lowercase word `w` exactly when it is
      a case variant of `w`. */
  lemma ToLowercaseIsWord(s: string, w: string)
    requires ToLowercase(w) == w
    ensures ToLowercase(s) == w <==> EqualsIgnoreCase(s, w)
  {
    ToLowercaseEqual(s, w);
  }
}
