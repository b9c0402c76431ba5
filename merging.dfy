/** `Merge` of main.go (main.go:228-243): the base catalogue's elements, one
    for one, each taking the translation of the last target element with the
    same `(Context, Id)`, then written out by `Poify`. */
module Merging {
  import opened Catalog
  import opened PoFormat
  import opened PoParse

  /** The translation a base element ends up with: that of the last target
      element with its key, or its own when no target element has its key. */
  function MergedStr(target: seq<PoElement>, e: PoElement): (r: string)
    ensures || (exists j :: 0 <= j < |target| && SameKey(target[j], e) && r == target[j].Str
                           && forall k :: j < k < |target| ==> !SameKey(target[k], e))
            || ((forall j :: 0 <= j < |target| ==> !SameKey(target[j], e)) && r == e.Str)
  {
    if target == [] then e.Str
    else if SameKey(target[|target| - 1], e) then target[|target| - 1].Str
    else MergedStr(target[..|target| - 1], e)
  }

  /** The merged element list: the base list with each translation merged. */
  function Merged(base: seq<PoElement>, target: seq<PoElement>): seq<PoElement>
  {
    seq(|base|, i requires 0 <= i < |base| => PoElement(base[i].Context, base[i].Id, MergedStr(target, base[i])))
  }

  /** The nested loop of Merge (main.go:231-241). */
  method MergeElements(base: seq<PoElement>, target: seq<PoElement>) returns (eles: seq<PoElement>)
    ensures eles == Merged(base, target)
  {
    eles := [];
    var b := 0;
    while b < |base|
      invariant 0 <= b <= |base|
      invariant eles == Merged(base[..b], target)
    {
      var ee := base[b];
      var newe := PoElement(ee.Context, ee.Id, ee.Str);
      var t := 0;
      while t < |target|
        invariant 0 <= t <= |target|
        invariant newe == PoElement(ee.Context, ee.Id, MergedStr(target[..t], ee))
      {
        var ne := target[t];
        assert target[..t + 1][..t] == target[..t];
        if ee.Context == ne.Context && ee.Id == ne.Id {
          newe := newe.(Str := ne.Str);
        }
        t := t + 1;
      }
      assert target[..t] == target;
      assert base[..b + 1][..b] == base[..b];
      eles := eles + [newe];
      b := b + 1;
    }
    assert base[..b] == base;
  }

  /** Merge (main.go:228-243) from the two decoded catalogues. With a base
      catalogue decoded from maps, the output is the sorted merged list in PO
      form, whatever order the decoder visited either catalogue in. */
  method Merge(enpo: Decoding, newpo: Decoding) returns (out: string)
    requires WellFormed(enpo)
    ensures out == PoText(SortSeq(Merged(Elements(enpo), Elements(newpo))))
  {
    var eneles := ParsePO(enpo);
    var neweles := ParsePO(newpo);
    var eles := MergeElements(eneles, neweles);
    var a := new PoElement[|eles|](i requires 0 <= i < |eles| => eles[i]);
    assert a[..] == eles;
    out := Poify(a);
    ElementsUniqueKeys(enpo);
    MergedUniqueKeys(eneles, neweles);
    SortedPermutationIsSortSeq(eles, a[..]);
  }

  /** The merged list follows the base list one for one: same length, same
      `(Context, Id)` at every position. */
  lemma MergedKeepsBaseKeys(base: seq<PoElement>, target: seq<PoElement>)
    ensures |Merged(base, target)| == |base|
    ensures forall i :: 0 <= i < |base| ==> SameKey(Merged(base, target)[i], base[i])
  {
  }

  /** Elements only the target has never appear. */
  lemma MergedDropsTargetOnly(base: seq<PoElement>, target: seq<PoElement>, e: PoElement)
    requires forall i :: 0 <= i < |base| ==> !SameKey(e, base[i])
    ensures forall x :: x in Merged(base, target) ==> !SameKey(x, e)
  {
  }

  /** A base element no target element matches keeps its own translation. */
  lemma MergedFallback(base: seq<PoElement>, target: seq<PoElement>, i: nat)
    requires i < |base|
    requires forall j :: 0 <= j < |target| ==> !SameKey(target[j], base[i])
    ensures Merged(base, target)[i].Str == base[i].Str
  {
  }

  /** The last target element with the base element's key gives the
      translation. */
  lemma MergedOverride(base: seq<PoElement>, target: seq<PoElement>, i: nat, j: nat)
    requires i < |base| && j < |target|
    requires SameKey(target[j], base[i])
    requires forall k :: j < k < |target| ==> !SameKey(target[k], base[i])
    ensures Merged(base, target)[i].Str == target[j].Str
  {
    var r := MergedStr(target, base[i]);
    var j' :| 0 <= j' < |target| && SameKey(target[j'], base[i]) && r == target[j'].Str
              && forall k :: j' < k < |target| ==> !SameKey(target[k], base[i]);
    assert !(j' < j) && !(j < j');
  }

  /** When the target keys are unique, as for a target decoded from maps,
      the target element with the base element's key gives the translation,
      whatever order the target was visited in. */
  lemma MergedOverrideUnique(base: seq<PoElement>, target: seq<PoElement>, i: nat, x: PoElement)
    requires i < |base| && UniqueKeys(target)
    requires x in target && SameKey(x, base[i])
    ensures Merged(base, target)[i].Str == x.Str
  {
    var j :| 0 <= j < |target| && target[j] == x;
    forall k | j < k < |target|
      ensures !SameKey(target[k], base[i])
    {
      assert !SameKey(target[j], target[k]);
    }
    MergedOverride(base, target, i, j);
  }

  /** The merged list keeps the base list's key uniqueness. */
  lemma MergedUniqueKeys(base: seq<PoElement>, target: seq<PoElement>)
    requires UniqueKeys(base)
    ensures UniqueKeys(Merged(base, target))
  {
    var m := Merged(base, target);
    forall i, j | 0 <= i < j < |m|
      ensures !SameKey(m[i], m[j])
    {
      assert SameKey(m[i], base[i]) && SameKey(m[j], base[j]);
    }
  }

  /** With unique target keys, a base element's translation depends only on
      which elements the target holds, not on their order. */
  lemma MergedStrSameElements(t1: seq<PoElement>, t2: seq<PoElement>, e: PoElement)
    requires UniqueKeys(t1) && UniqueKeys(t2)
    requires forall x :: x in t1 <==> x in t2
    ensures MergedStr(t1, e) == MergedStr(t2, e)
  {
    if exists y :: y in t1 && SameKey(y, e) {
      var y :| y in t1 && SameKey(y, e);
      MergedOverrideUnique([e], t1, 0, y);
      MergedOverrideUnique([e], t2, 0, y);
      assert Merged([e], t1)[0].Str == MergedStr(t1, e);
      assert Merged([e], t2)[0].Str == MergedStr(t2, e);
    } else {
      forall j | 0 <= j < |t1|
        ensures !SameKey(t1[j], e)
      {
        assert t1[j] in t1;
      }
      forall j | 0 <= j < |t2|
        ensures !SameKey(t2[j], e)
      {
        assert t2[j] in t1;
      }
      MergedFallback([e], t1, 0);
      MergedFallback([e], t2, 0);
      assert Merged([e], t1)[0].Str == MergedStr(t1, e);
      assert Merged([e], t2)[0].Str == MergedStr(t2, e);
    }
  }

  /** An element of the merged list is a base element with its merged
      translation. */
  lemma MergedMembers(base: seq<PoElement>, target: seq<PoElement>, x: PoElement)
    ensures x in Merged(base, target) <==>
              exists b :: b in base && x == PoElement(b.Context, b.Id, MergedStr(target, b))
  {
    var m := Merged(base, target);
    if x in m {
      var i :| 0 <= i < |m| && m[i] == x;
      assert base[i] in base;
    }
    if exists b :: b in base && x == PoElement(b.Context, b.Id, MergedStr(target, b)) {
      var b :| b in base && x == PoElement(b.Context, b.Id, MergedStr(target, b));
      var i :| 0 <= i < |base| && base[i] == b;
      assert m[i] == x;
    }
  }

  /** Merge's sorted list, and so its PO text, does not depend on the order
      the two element lists come in when each has unique keys: only on
      which elements they hold. */
  lemma MergeOrderIndependent(b1: seq<PoElement>, b2: seq<PoElement>, t1: seq<PoElement>, t2: seq<PoElement>)
    requires UniqueKeys(b1) && UniqueKeys(b2) && UniqueKeys(t1) && UniqueKeys(t2)
    requires forall x :: x in b1 <==> x in b2
    requires forall x :: x in t1 <==> x in t2
    ensures SortSeq(Merged(b1, t1)) == SortSeq(Merged(b2, t2))
  {
    MergedUniqueKeys(b1, t1);
    MergedUniqueKeys(b2, t2);
    forall b
      ensures MergedStr(t1, b) == MergedStr(t2, b)
    {
      MergedStrSameElements(t1, t2, b);
    }
    forall x
      ensures x in Merged(b1, t1) <==> x in Merged(b2, t2)
    {
      MergedMembers(b1, t1, x);
      MergedMembers(b2, t2, x);
    }
    SortSeqSameElements(Merged(b1, t1), Merged(b2, t2));
  }

  /** An untranslated key falls back to the base text; a translated one
      takes the target's text. */
  lemma MergeGreeting()
    ensures Merged([PoElement(".greeting", "Hello", "Hello")], [PoElement(".greeting", "Hello", "Bonjour")])
         == [PoElement(".greeting", "Hello", "Bonjour")]
    ensures Merged([PoElement(".greeting", "Hello", "Hello")], []) == [PoElement(".greeting", "Hello", "Hello")]
  {
    var b := PoElement(".greeting", "Hello", "Hello");
    var t := PoElement(".greeting", "Hello", "Bonjour");
    assert MergedStr([t], b) == "Bonjour";
    assert MergedStr([], b) == "Hello";
  }
}
