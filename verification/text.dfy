/**
 * Text handling used by the category screen: the whitespace trimming applied to
 * every free-text form field, and the order in which category names are listed.
 */
module Text {

  /** The characters PHP's `trim` strips by default: space, tab, line feed,
      carriage return, NUL and vertical tab. */
  predicate IsBlank(c: char) {
    c == ' ' || c == '\t' || c == '\n' || c == '\r' || c == '\0' || c == '\U{0B}'
  }

  ghost predicate AllBlank(s: string) {
    forall i :: 0 <= i < |s| ==> IsBlank(s[i])
  }

  /** Neither end of `s` is a blank character. */
  predicate Trimmed(s: string) {
    s == [] || (!IsBlank(s[0]) && !IsBlank(s[|s| - 1]))
  }

  /** Drops the leading blanks: the result is a suffix of `s`, what was dropped is blank,
      and the result does not start with a blank. */
  function TrimStart(s: string): (r: string)
    ensures |r| <= |s| && r == s[|s| - |r|..]
    ensures forall i :: 0 <= i < |s| - |r| ==> IsBlank(s[i])
    ensures r == [] || !IsBlank(r[0])
  {
    if s != [] && IsBlank(s[0]) then TrimStart(s[1..]) else s
  }

  /** Drops the trailing blanks: the result is a prefix of `s`, what was dropped is blank,
      and the result does not end with a blank. */
  function TrimEnd(s: string): (r: string)
    ensures |r| <= |s| && r == s[..|r|]
    ensures forall i :: |r| <= i < |s| ==> IsBlank(s[i])
    ensures r == [] || !IsBlank(r[|r| - 1])
  {
    if s != [] && IsBlank(s[|s| - 1]) then TrimEnd(s[..|s| - 1]) else s
  }

  /** PHP `trim`: the result has no blank at either end, and it is empty exactly
      when the input consists of blanks only. */
  function Trim(s: string): (r: string)
    ensures Trimmed(r)
    ensures |r| <= |s|
    ensures r == [] <==> AllBlank(s)
  {
    var left := TrimStart(s);
    var r := TrimEnd(left);
    assert r != [] ==> r[0] == left[0];
    EmptyTrimMeansBlank(s, left, r);
    r
  }

  lemma EmptyTrimMeansBlank(s: string, left: string, r: string)
    requires left == TrimStart(s) && r == TrimEnd(left)
    ensures r == [] <==> AllBlank(s)
  {
    if r != [] {
      assert s[|s| - |left|] == left[0];
    }
  }

  lemma {:induction false} TrimStartSkipsBlanks(pre: string, rest: string)
    requires AllBlank(pre)
    requires rest == [] || !IsBlank(rest[0])
    ensures TrimStart(pre + rest) == rest
    decreases |pre|
  {
    if pre == [] {
      assert pre + rest == rest;
    } else {
      assert (pre + rest)[1..] == pre[1..] + rest;
      TrimStartSkipsBlanks(pre[1..], rest);
    }
  }

  lemma {:induction false} TrimEndSkipsBlanks(rest: string, post: string)
    requires AllBlank(post)
    requires rest == [] || !IsBlank(rest[|rest| - 1])
    ensures TrimEnd(rest + post) == rest
    decreases |post|
  {
    if post == [] {
      assert rest + post == rest;
    } else {
      var s := rest + post;
      assert s[..|s| - 1] == rest + post[..|post| - 1];
      TrimEndSkipsBlanks(rest, post[..|post| - 1]);
    }
  }

  /** Trim is characterised by what it keeps: blanks around a trimmed core are removed
      and the core itself is returned untouched. */
  lemma TrimPadded(pre: string, core: string, post: string)
    requires AllBlank(pre) && AllBlank(post)
    requires Trimmed(core)
    ensures Trim(pre + core + post) == core
  {
    if core == [] {
      assert pre + core + post == pre + post;
      TrimStartSkipsBlanks(pre + post, []);
      assert pre + post + [] == pre + post;
    } else {
      assert pre + core + post == pre + (core + post);
      TrimStartSkipsBlanks(pre, core + post);
      TrimEndSkipsBlanks(core, post);
    }
  }

  /** A value with no blank at either end is left as it is by trimming. */
  lemma TrimKeepsTrimmed(s: string)
    requires Trimmed(s)
    ensures Trim(s) == s
  {
    assert TrimStart(s) == s;
    assert TrimEnd(s) == s;
  }

  /** Trimming twice changes nothing. */
  lemma TrimIdempotent(s: string)
    ensures Trim(Trim(s)) == Trim(s)
  {
    TrimKeepsTrimmed(Trim(s));
  }

  /** Name order used for the listing: lexicographic by character code. */
  predicate NameLeq(a: string, b: string)
    decreases |a|
  {
    a == [] || (b != [] && (a[0] < b[0] || (a[0] == b[0] && NameLeq(a[1..], b[1..]))))
  }

  lemma {:induction false} NameLeqTotal(a: string, b: string)
    ensures NameLeq(a, b) || NameLeq(b, a)
    decreases |a|
  {
    if a != [] && b != [] && a[0] == b[0] {
      NameLeqTotal(a[1..], b[1..]);
    }
  }

  lemma {:induction false} NameLeqAntisymmetric(a: string, b: string)
    requires NameLeq(a, b) && NameLeq(b, a)
    ensures a == b
    decreases |a|
  {
    if a != [] {
      NameLeqAntisymmetric(a[1..], b[1..]);
      assert a == [a[0]] + a[1..];
      assert b == [b[0]] + b[1..];
    }
  }

  lemma {:induction false} NameLeqTransitive(a: string, b: string, c: string)
    requires NameLeq(a, b) && NameLeq(b, c)
    ensures NameLeq(a, c)
    decreases |a|
  {
    if a != [] && a[0] == b[0] && b[0] == c[0] {
      NameLeqTransitive(a[1..], b[1..], c[1..]);
    }
  }
}
