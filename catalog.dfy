/** The catalog record `PoElement`, the `(Context, Id)` order every output is
    emitted in, and the in-place exchange sort `sort` of main.go. */
module Catalog {
  import opened GoStrings

  /** One translatable message: its context, its source text and its
      translation. */
  datatype PoElement = PoElement(Context: string, Id: string, Str: string)

  /** Two elements carry the same `(Context, Id)` key. */
  predicate SameKey(x: PoElement, y: PoElement)
  {
    x.Context == y.Context && x.Id == y.Id
  }

  /** `x` sorts strictly before `y`: by Context, then by Id. */
  predicate Before(x: PoElement, y: PoElement)
  {
    Less(x.Context, y.Context) || (x.Context == y.Context && Less(x.Id, y.Id))
  }

  /** Non-decreasing in `(Context, Id)`. */
  predicate Sorted(s: seq<PoElement>)
  {
    forall i, j :: 0 <= i < j < |s| ==> !Before(s[j], s[i])
  }

  /** No two positions share a `(Context, Id)` key. */
  predicate UniqueKeys(s: seq<PoElement>)
  {
    forall i, j :: 0 <= i < j < |s| ==> !SameKey(s[i], s[j])
  }

  lemma BeforeTransitive(x: PoElement, y: PoElement, z: PoElement)
    requires Before(x, y) && Before(y, z)
    ensures Before(x, z)
  {
    if Less(x.Context, y.Context) && Less(y.Context, z.Context) {
      LessTransitive(x.Context, y.Context, z.Context);
    } else if x.Context == y.Context == z.Context {
      LessTransitive(x.Id, y.Id, z.Id);
    }
  }

  lemma BeforeAsymmetric(x: PoElement, y: PoElement)
    requires Before(x, y)
    ensures !Before(y, x)
  {
    if Less(x.Context, y.Context) {
      LessAsymmetric(x.Context, y.Context);
      if x.Context == y.Context {
        LessIrreflexive(x.Context);
      }
    } else {
      LessAsymmetric(x.Id, y.Id);
      LessIrreflexive(x.Context);
    }
  }

  /** Neither element before the other means the keys are equal. */
  lemma BeforeTotal(x: PoElement, y: PoElement)
    requires !Before(x, y) && !Before(y, x)
    ensures SameKey(x, y)
  {
    LessTrichotomy(x.Context, y.Context);
    LessTrichotomy(x.Id, y.Id);
  }

  /** "Not after" means before or with the same key. */
  lemma NotBeforeCases(x: PoElement, y: PoElement)
    requires !Before(y, x)
    ensures Before(x, y) || SameKey(x, y)
  {
    if !Before(x, y) {
      BeforeTotal(x, y);
    }
  }

  /** "Not after" is transitive. */
  lemma NotBeforeTransitive(x: PoElement, y: PoElement, z: PoElement)
    requires !Before(y, x) && !Before(z, y)
    ensures !Before(z, x)
  {
    NotBeforeCases(x, y);
    NotBeforeCases(y, z);
    if Before(x, y) && Before(y, z) {
      BeforeTransitive(x, y, z);
      BeforeAsymmetric(x, z);
    } else if Before(x, y) || Before(y, z) {
      assert Before(x, z);
      BeforeAsymmetric(x, z);
    } else {
      LessIrreflexive(x.Context);
      LessIrreflexive(x.Id);
    }
  }

  /** `sort` (main.go:158-170): for every `i`, each later `j` whose key is
      smaller than the one now at `i` is swapped into `i`, so that `i` ends
      up holding the least remaining element. */
  method Sort(a: array<PoElement>)
    modifies a
    ensures Sorted(a[..])
    ensures multiset(a[..]) == multiset(old(a[..]))
  {
    var i := 0;
    while i < a.Length
      invariant 0 <= i <= a.Length
      invariant multiset(a[..]) == multiset(old(a[..]))
      invariant forall p, q :: 0 <= p < q < i ==> !Before(a[q], a[p])
      invariant forall p, q :: 0 <= p < i <= q < a.Length ==> !Before(a[q], a[p])
    {
      var j := i + 1;
      while j < a.Length
        invariant i + 1 <= j <= a.Length
        invariant multiset(a[..]) == multiset(old(a[..]))
        invariant forall p, q :: 0 <= p < q < i ==> !Before(a[q], a[p])
        invariant forall p, q :: 0 <= p < i <= q < a.Length ==> !Before(a[q], a[p])
        invariant forall q :: i < q < j ==> !Before(a[q], a[i])
      {
        if Less(a[j].Context, a[i].Context) {
          SwapSmaller(a, i, j);
        } else if a[i].Context == a[j].Context {
          if Less(a[j].Id, a[i].Id) {
            SwapSmaller(a, i, j);
          }
        }
        j := j + 1;
      }
      i := i + 1;
    }
  }

  /** One exchange of `sort`: the smaller `a[j]` moves to `i`. Every element
      between them that was not before the old `a[i]` is not before the new
      one either. */
  method SwapSmaller(a: array<PoElement>, i: int, j: int)
    requires 0 <= i < j < a.Length
    requires Before(a[j], a[i])
    requires forall q :: i < q < j ==> !Before(a[q], a[i])
    modifies a
    ensures a[i] == old(a[j]) && a[j] == old(a[i])
    ensures forall m :: 0 <= m < a.Length && m != i && m != j ==> a[m] == old(a[m])
    ensures multiset(a[..]) == multiset(old(a[..]))
    ensures forall q :: i < q <= j ==> !Before(a[q], a[i])
  {
    ghost var before := a[..];
    a[i], a[j] := a[j], a[i];
    assert a[..] == before[i := before[j]][j := before[i]];
    forall q | i < q < j
      ensures !Before(a[q], a[i])
    {
      if Before(a[q], a[i]) {
        BeforeTransitive(a[q], before[j], before[i]);
      }
    }
    BeforeAsymmetric(before[j], before[i]);
  }

  /** Insertion of one element into a sorted sequence, before the first
      element that does not sort before it. */
  function Insert(e: PoElement, s: seq<PoElement>): (r: seq<PoElement>)
    ensures multiset(r) == multiset(s) + multiset{e}
  {
    if s == [] || !Before(s[0], e) then [e] + s
    else
      assert s == [s[0]] + s[1..];
      [s[0]] + Insert(e, s[1..])
  }

  lemma {:induction false} InsertSorted(e: PoElement, s: seq<PoElement>)
    requires Sorted(s)
    ensures Sorted(Insert(e, s))
  {
    var r := Insert(e, s);
    if s == [] || !Before(s[0], e) {
      forall k | 0 <= k < |s|
        ensures !Before(s[k], e)
      {
        if k > 0 {
          NotBeforeTransitive(e, s[0], s[k]);
        }
      }
    } else {
      InsertSorted(e, s[1..]);
      var t := Insert(e, s[1..]);
      forall k | 0 <= k < |t|
        ensures !Before(t[k], s[0])
      {
        assert t[k] in multiset(t);
        if t[k] == e {
          BeforeAsymmetric(s[0], e);
        } else {
          assert t[k] in multiset(s[1..]);
        }
      }
    }
  }

  /** A reference sort: insertion sort on values. */
  function SortSeq(s: seq<PoElement>): (r: seq<PoElement>)
    ensures multiset(r) == multiset(s)
  {
    if s == [] then []
    else
      assert s == s[..|s| - 1] + [s[|s| - 1]];
      Insert(s[|s| - 1], SortSeq(s[..|s| - 1]))
  }

  lemma {:induction false} SortSeqSorted(s: seq<PoElement>)
    ensures Sorted(SortSeq(s))
  {
    if s != [] {
      SortSeqSorted(s[..|s| - 1]);
      InsertSorted(s[|s| - 1], SortSeq(s[..|s| - 1]));
    }
  }

  /** With unique keys, an element occurs at most once. */
  lemma {:induction false} UniqueKeysAtMostOnce(s: seq<PoElement>, x: PoElement)
    requires UniqueKeys(s)
    ensures multiset(s)[x] <= 1
  {
    if s != [] {
      assert s == [s[0]] + s[1..];
      UniqueKeysAtMostOnce(s[1..], x);
      if s[0] == x {
        forall k | 0 <= k < |s[1..]|
          ensures s[1..][k] != x
        {
          assert !SameKey(s[0], s[k + 1]);
        }
        assert x !in s[1..];
      }
    }
  }

  /** Key uniqueness survives any rearrangement. */
  lemma UniqueKeysPermutation(s: seq<PoElement>, t: seq<PoElement>)
    requires multiset(s) == multiset(t) && UniqueKeys(s)
    ensures UniqueKeys(t)
  {
    forall i, j | 0 <= i < j < |t|
      ensures !SameKey(t[i], t[j])
    {
      assert t == t[..j] + t[j..];
      assert t[i] in multiset(t[..j]) && t[j] in multiset(t[j..]);
      UniqueKeysAtMostOnce(s, t[i]);
      assert t[i] != t[j];
      assert t[i] in multiset(s) && t[j] in multiset(s);
      var p :| 0 <= p < |s| && s[p] == t[i];
      var q :| 0 <= q < |s| && s[q] == t[j];
      assert p != q;
    }
  }

  /** Two key-unique sequences with no key in common join into one. */
  lemma UniqueKeysAppend(s: seq<PoElement>, t: seq<PoElement>)
    requires UniqueKeys(s) && UniqueKeys(t)
    requires forall x, y :: x in s && y in t ==> !SameKey(x, y)
    ensures UniqueKeys(s + t)
  {
    var st := s + t;
    forall i, j | 0 <= i < j < |st|
      ensures !SameKey(st[i], st[j])
    {
      if j < |s| {
        assert st[i] == s[i] && st[j] == s[j];
      } else if i >= |s| {
        assert st[i] == t[i - |s|] && st[j] == t[j - |s|];
      } else {
        assert st[i] in s && st[j] in t;
      }
    }
  }

  lemma NotBeforeSelf(x: PoElement)
    ensures !Before(x, x)
  {
    LessIrreflexive(x.Context);
    LessIrreflexive(x.Id);
  }

  /** Two sorted sequences with unique keys and the same elements are the
      same sequence: with unique keys the sorted order has no ties. */
  lemma {:induction false} SortedSameElementsEqual(s: seq<PoElement>, t: seq<PoElement>)
    requires Sorted(s) && Sorted(t) && UniqueKeys(s) && UniqueKeys(t)
    requires forall x :: x in s <==> x in t
    ensures s == t
  {
    assert t == [] || t[0] in t;
    if s != [] {
      assert s[0] in t;
      assert t[0] in s;
      var i :| 0 <= i < |s| && s[i] == t[0];
      var j :| 0 <= j < |t| && t[j] == s[0];
      NotBeforeSelf(s[0]);
      NotBeforeSelf(t[0]);
      assert !Before(s[i], s[0]);
      assert !Before(t[j], t[0]);
      BeforeTotal(s[0], t[0]);
      assert SameKey(s[0], s[i]);
      assert i == 0;
      forall x
        ensures x in s[1..] <==> x in t[1..]
      {
        assert s == [s[0]] + s[1..];
        assert t == [t[0]] + t[1..];
        if x in s[1..] {
          var k :| 0 <= k < |s[1..]| && s[1..][k] == x;
          assert !SameKey(s[0], s[k + 1]);
          assert x in t && x != t[0];
        }
        if x in t[1..] {
          var k :| 0 <= k < |t[1..]| && t[1..][k] == x;
          assert !SameKey(t[0], t[k + 1]);
          assert x in s && x != s[0];
        }
      }
      SortedSameElementsEqual(s[1..], t[1..]);
      assert s == [s[0]] + s[1..];
      assert t == [t[0]] + t[1..];
    }
  }

  /** Determinism of the sorted order: when keys are unique, the only sorted
      rearrangement of `s` is the reference sort of `s`. */
  lemma SortedPermutationIsSortSeq(s: seq<PoElement>, t: seq<PoElement>)
    requires UniqueKeys(s) && Sorted(t) && multiset(t) == multiset(s)
    ensures t == SortSeq(s)
  {
    SortSeqSorted(s);
    UniqueKeysPermutation(s, t);
    UniqueKeysPermutation(s, SortSeq(s));
    forall x
      ensures x in t <==> x in SortSeq(s)
    {
      assert x in t <==> x in multiset(t);
      assert x in SortSeq(s) <==> x in multiset(SortSeq(s));
    }
    SortedSameElementsEqual(t, SortSeq(s));
  }

  /** With unique keys, having the same elements means being a rearrangement:
      each element occurs at most once on either side. */
  lemma UniqueKeysSameElements(s: seq<PoElement>, t: seq<PoElement>)
    requires UniqueKeys(s) && UniqueKeys(t)
    requires forall x :: x in s <==> x in t
    ensures multiset(s) == multiset(t)
  {
    forall x
      ensures multiset(s)[x] == multiset(t)[x]
    {
      UniqueKeysAtMostOnce(s, x);
      UniqueKeysAtMostOnce(t, x);
      assert x in s <==> x in multiset(s);
      assert x in t <==> x in multiset(t);
    }
  }

  /** Two sequences with unique keys and the same elements sort to the same
      sequence, whatever order they start in. */
  lemma SortSeqSameElements(s: seq<PoElement>, t: seq<PoElement>)
    requires UniqueKeys(s) && UniqueKeys(t)
    requires forall x :: x in s <==> x in t
    ensures SortSeq(s) == SortSeq(t)
  {
    UniqueKeysSameElements(s, t);
    SortSeqSorted(t);
    SortedPermutationIsSortSeq(s, SortSeq(t));
  }
}
