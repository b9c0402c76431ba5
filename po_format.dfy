/** `Poify` of main.go: sorts the elements in place and writes one gettext
    `msgctxt`/`msgid`/`msgstr` block per element. */
module PoFormat {
  import opened Catalog
  import opened Escaping
  import opened GoStrings

  /** The layout of one block (main.go:149-153) around its three fields. */
  function Layout(ctx: string, id: string, str: string): string
  {
    "msgctxt \"" + ctx + "\"\nmsgid \"" + id + "\"\nmsgstr \"" + str + "\"\n\n"
  }

  /** The block written for one element: its fields escaped and laid out. */
  function Block(e: PoElement): string
  {
    Layout(EscapeSlash(e.Context), EscapeSlash(e.Id), EscapeSlash(e.Str))
  }

  /** The block of each element, position by position. */
  function Blocks(s: seq<PoElement>): (r: seq<string>)
    ensures |r| == |s| && forall i :: 0 <= i < |s| ==> r[i] == Block(s[i])
  {
    seq(|s|, i requires 0 <= i < |s| => Block(s[i]))
  }

  /** The blocks of `s`, in the order of `s`. */
  function PoText(s: seq<PoElement>): string
  {
    Concat(Blocks(s))
  }

  /** Poify (main.go:144-156): the caller's elements are sorted in place, then
      the output is their blocks in the new order. */
  method Poify(a: array<PoElement>) returns (out: string)
    modifies a
    ensures Sorted(a[..])
    ensures multiset(a[..]) == multiset(old(a[..]))
    ensures out == PoText(a[..])
  {
    Sort(a);
    out := "";
    var k := 0;
    while k < a.Length
      invariant 0 <= k <= a.Length
      invariant out == PoText(a[..k])
    {
      assert Blocks(a[..k + 1]) == Blocks(a[..k]) + [Block(a[k])];
      out := out + Block(a[k]);
      k := k + 1;
    }
    assert a[..a.Length] == a[..];
  }

  lemma PoTextConcat(s: seq<PoElement>, t: seq<PoElement>)
    ensures PoText(s + t) == PoText(s) + PoText(t)
  {
    assert Blocks(s + t) == Blocks(s) + Blocks(t);
    ConcatAppend(Blocks(s), Blocks(t));
  }

  lemma PoTextSingle(e: PoElement)
    ensures PoText([e]) == Block(e)
  {
    assert Blocks([e]) == [Block(e)];
    ConcatSingle(Block(e));
  }

  /** Element `i` is written as the `i`-th block, after the blocks of the
      elements before it and before those of the elements after it. */
  lemma PoTextAt(s: seq<PoElement>, i: nat)
    requires i < |s|
    ensures PoText(s) == PoText(s[..i]) + Block(s[i]) + PoText(s[i + 1..])
  {
    var bs := Blocks(s);
    ConcatAt(bs, i);
    assert bs[..i] == Blocks(s[..i]);
    assert bs[i + 1..] == Blocks(s[i + 1..]);
  }

  /** Empty input, and only empty input, gives empty output. */
  lemma PoTextEmpty(s: seq<PoElement>)
    ensures PoText(s) == "" <==> s == []
  {
    if s != [] {
      assert |Block(s[|s| - 1])| > 0;
    }
  }

  /** The layout adds four line breaks to those of its fields. */
  lemma LayoutLineBreaks(ctx: string, id: string, str: string)
    ensures multiset(Layout(ctx, id, str))['\n']
         == multiset(ctx)['\n'] + multiset(id)['\n'] + multiset(str)['\n'] + 4
  {
    var p0, p1, p2, p3 := "msgctxt \"", "\"\nmsgid \"", "\"\nmsgstr \"", "\"\n\n";
    assert multiset(p0 + ctx + p1 + id + p2 + str + p3)['\n']
        == multiset(p0)['\n'] + multiset(ctx)['\n'] + multiset(p1)['\n'] + multiset(id)['\n']
           + multiset(p2)['\n'] + multiset(str)['\n'] + multiset(p3)['\n'];
    LiteralLineBreaks();
  }

  /** The fixed text of the layout holds four line breaks. */
  lemma LiteralLineBreaks()
    ensures multiset("msgctxt \"")['\n'] == 0
    ensures multiset("\"\nmsgid \"")['\n'] == 1
    ensures multiset("\"\nmsgstr \"")['\n'] == 1
    ensures multiset("\"\n\n")['\n'] == 2
  {
    assert '\n' !in "msgctxt \"";
    assert "\"\nmsgid \"" == "\"\n" + "msgid \"";
    assert '\n' !in "msgid \"";
    assert "\"\nmsgstr \"" == "\"\n" + "msgstr \"";
    assert '\n' !in "msgstr \"";
  }

  /** A block holds exactly four line breaks: the escaped fields hold none. */
  lemma BlockLineBreaks(e: PoElement)
    ensures multiset(Block(e))['\n'] == 4
  {
    var c, i, t := EscapeSlash(e.Context), EscapeSlash(e.Id), EscapeSlash(e.Str);
    EscapeSlashNoControl(e.Context);
    EscapeSlashNoControl(e.Id);
    EscapeSlashNoControl(e.Str);
    LayoutLineBreaks(c, i, t);
  }

  /** The output has four line breaks per element. */
  lemma {:induction false} PoTextLineBreaks(s: seq<PoElement>)
    ensures multiset(PoText(s))['\n'] == 4 * |s|
  {
    if s != [] {
      var init, e := s[..|s| - 1], s[|s| - 1];
      assert s == init + [e];
      PoTextConcat(init, [e]);
      PoTextSingle(e);
      PoTextLineBreaks(init);
      BlockLineBreaks(e);
    }
  }

  /** Poify's output does not depend on the order of its input when keys are
      unique: two rearrangements of the same elements sort to the same
      sequence, hence to the same text. */
  lemma PoifyDeterministic(x: seq<PoElement>, y: seq<PoElement>, sx: seq<PoElement>, sy: seq<PoElement>)
    requires multiset(x) == multiset(y) && UniqueKeys(x)
    requires Sorted(sx) && multiset(sx) == multiset(x)
    requires Sorted(sy) && multiset(sy) == multiset(y)
    ensures sx == sy && PoText(sx) == PoText(sy)
  {
    SortedPermutationIsSortSeq(x, sx);
    SortedPermutationIsSortSeq(x, sy);
  }
}
