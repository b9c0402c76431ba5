/** The handful of Go string operations the catalog pipeline relies on:
    the `<` order on strings, `strings.TrimSpace`, `strings.Replace` with a
    one-character pattern, and a separator join.
    A Go string is modelled as the sequence of its code points. */
module GoStrings {

  /** Go's `a < b` on strings: lexicographic, a proper prefix sorts first. */
  predicate Less(a: string, b: string)
    decreases |a|
  {
    if |b| == 0 then false
    else if |a| == 0 then true
    else if a[0] != b[0] then a[0] < b[0]
    else Less(a[1..], b[1..])
  }

  lemma {:induction false} LessIrreflexive(a: string)
    ensures !Less(a, a)
  {
    if |a| > 0 {
      LessIrreflexive(a[1..]);
    }
  }

  lemma {:induction false} LessTransitive(a: string, b: string, c: string)
    requires Less(a, b) && Less(b, c)
    ensures Less(a, c)
  {
    if |a| > 0 && a[0] == b[0] && b[0] == c[0] {
      LessTransitive(a[1..], b[1..], c[1..]);
    }
  }

  /** Any two strings are equal or ordered one way. */
  lemma {:induction false} LessTrichotomy(a: string, b: string)
    ensures Less(a, b) || a == b || Less(b, a)
  {
    if |a| > 0 && |b| > 0 && a[0] == b[0] {
      LessTrichotomy(a[1..], b[1..]);
      assert a == [a[0]] + a[1..];
      assert b == [b[0]] + b[1..];
    }
  }

  lemma LessAsymmetric(a: string, b: string)
    requires Less(a, b)
    ensures !Less(b, a)
  {
    if Less(b, a) {
      LessTransitive(a, b, a);
      LessIrreflexive(a);
    }
  }

  /** Go's `unicode.IsSpace`, the test `strings.TrimSpace` trims by. */
  predicate IsSpace(c: char)
  {
    || c == '\t' || c == '\n' || c == '\U{000B}' || c == '\U{000C}' || c == '\r' || c == ' '
    || c == '\U{0085}' || c == '\U{00A0}' || c == '\U{1680}'
    || ('\U{2000}' <= c <= '\U{200A}')
    || c == '\U{2028}' || c == '\U{2029}' || c == '\U{202F}' || c == '\U{205F}' || c == '\U{3000}'
  }

  /** Drops the leading white space: the result is the longest suffix that
      does not start with a space. */
  function TrimLeft(s: string): (r: string)
    ensures |r| <= |s| && r == s[|s| - |r|..]
    ensures forall k :: 0 <= k < |s| - |r| ==> IsSpace(s[k])
    ensures r == [] || !IsSpace(r[0])
  {
    if |s| > 0 && IsSpace(s[0]) then TrimLeft(s[1..]) else s
  }

  /** Drops the trailing white space: the result is the longest prefix that
      does not end with a space. */
  function TrimRight(s: string): (r: string)
    ensures |r| <= |s| && r == s[..|r|]
    ensures forall k :: |r| <= k < |s| ==> IsSpace(s[k])
    ensures r == [] || !IsSpace(r[|r| - 1])
  {
    if |s| > 0 && IsSpace(s[|s| - 1]) then TrimRight(s[..|s| - 1]) else s
  }

  /** `strings.TrimSpace`: the slice `s[i..j]` left once every space before
      `i` and from `j` on is cut off, neither end of it being a space. */
  function TrimSpace(s: string): (r: string)
    ensures r == [] || (!IsSpace(r[0]) && !IsSpace(r[|r| - 1]))
    ensures exists i, j :: 0 <= i <= j <= |s| && r == s[i..j]
                           && (forall k :: 0 <= k < i ==> IsSpace(s[k]))
                           && (forall k :: j <= k < |s| ==> IsSpace(s[k]))
  {
    var l := TrimLeft(s);
    var r := TrimRight(l);
    var i := |s| - |l|;
    assert r == s[i..i + |r|];
    r
  }

  /** A string with no space at either end is its own trim. */
  lemma TrimSpaceOfTrimmed(s: string)
    requires s == [] || (!IsSpace(s[0]) && !IsSpace(s[|s| - 1]))
    ensures TrimSpace(s) == s
  {
    var r := TrimSpace(s);
    var i, j :| 0 <= i <= j <= |s| && r == s[i..j]
                && (forall k :: 0 <= k < i ==> IsSpace(s[k]))
                && (forall k :: j <= k < |s| ==> IsSpace(s[k]));
    assert s != [] ==> i == 0 && j == |s|;
    assert s[0..|s|] == s;
  }

  /** `strings.Replace(s, pat, rep, -1)` for a one-character `pat`: every
      occurrence of `pat`, left to right, becomes `rep`. */
  function Replace(s: string, pat: char, rep: string): string
  {
    if s == [] then []
    else (if s[0] == pat then rep else [s[0]]) + Replace(s[1..], pat, rep)
  }

  /** Each replaced occurrence changes the length by `|rep| - 1`. */
  lemma {:induction false} ReplaceLength(s: string, pat: char, rep: string)
    ensures |Replace(s, pat, rep)| == |s| + multiset(s)[pat] * (|rep| - 1)
  {
    if s != [] {
      var t := s[1..];
      assert s == [s[0]] + t;
      ReplaceLength(t, pat, rep);
      var n, d := multiset(t)[pat], |rep| - 1;
      assert multiset(s) == multiset{s[0]} + multiset(t);
      var head := if s[0] == pat then rep else [s[0]];
      assert Replace(s, pat, rep) == head + Replace(t, pat, rep);
      assert |Replace(s, pat, rep)| == |head| + |t| + n * d;
      if s[0] == pat {
        assert multiset(s)[pat] == n + 1;
        assert (n + 1) * d == n * d + d;
      } else {
        assert multiset(s)[pat] == n;
      }
    }
  }

  lemma {:induction false} ReplaceConcat(a: string, b: string, pat: char, rep: string)
    ensures Replace(a + b, pat, rep) == Replace(a, pat, rep) + Replace(b, pat, rep)
  {
    if a != [] {
      assert (a + b)[0] == a[0];
      assert (a + b)[1..] == a[1..] + b;
      ReplaceConcat(a[1..], b, pat, rep);
    } else {
      assert a + b == b;
    }
  }

  /** The strings of `xs`, one after another. */
  function Concat(xs: seq<string>): string
  {
    if xs == [] then "" else Concat(xs[..|xs| - 1]) + xs[|xs| - 1]
  }

  lemma {:induction false} ConcatAppend(xs: seq<string>, ys: seq<string>)
    ensures Concat(xs + ys) == Concat(xs) + Concat(ys)
    decreases |ys|
  {
    if ys == [] {
      assert xs + ys == xs;
    } else {
      var init := ys[..|ys| - 1];
      assert (xs + ys)[..|xs + ys| - 1] == xs + init;
      ConcatAppend(xs, init);
    }
  }

  lemma ConcatSingle(x: string)
    ensures Concat([x]) == x
  {
    assert [x][..0] == [];
    assert Concat([x]) == Concat([]) + x;
  }

  /** The `i`-th string sits between the strings before and after it. */
  lemma {:induction false} ConcatAt(xs: seq<string>, i: nat)
    requires i < |xs|
    ensures Concat(xs) == Concat(xs[..i]) + xs[i] + Concat(xs[i + 1..])
    decreases |xs|
  {
    var n := |xs|;
    var init, last := xs[..n - 1], xs[n - 1];
    assert init[..i] == xs[..i];
    if i == n - 1 {
      assert xs[i + 1..] == [];
      assert Concat(xs) == Concat(init) + last;
    } else {
      ConcatAt(init, i);
      var post := xs[i + 1..];
      assert post[..|post| - 1] == init[i + 1..];
      assert post[|post| - 1] == last;
      assert Concat(post) == Concat(init[i + 1..]) + last;
      assert Concat(xs) == Concat(init) + last;
    }
  }

  /** The strings of `xs` with `sep` between neighbours. */
  function Join(xs: seq<string>, sep: string): string
  {
    if |xs| == 0 then ""
    else if |xs| == 1 then xs[0]
    else Join(xs[..|xs| - 1], sep) + sep + xs[|xs| - 1]
  }
}
