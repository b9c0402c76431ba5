/** `Jsonify`, `toJsonKey` and `JsonToPo` of main.go: the flat JSON object
    written from a catalogue, and the PO catalogue built back from two
    decoded JSON objects. */
module JsonFormat {
  import opened Wrappers
  import opened GoStrings
  import opened Catalog
  import opened Escaping
  import opened PoFormat

  /** The key Jsonify writes for a context (main.go:189-192): a leading dot
      of the raw context is dropped, and nothing else is trimmed; any other
      context is trimmed of white space. */
  function JsonKey(ctx: string): string
    requires |ctx| > 0
  {
    if ctx[0] == '.' then ctx[1..] else TrimSpace(ctx)
  }

  /** toJsonKey (main.go:172-178): trims first, then drops a leading dot.
      Jsonify does not call it. */
  function ToJsonKey(key: string): string
    requires |TrimSpace(key)| > 0
  {
    var t := TrimSpace(key);
    if t[0] == '.' then t[1..] else t
  }

  /** One entry line (main.go:194): a tab, the key, the escaped translation. */
  function Line(e: PoElement): string
    requires |e.Context| > 0
  {
    "\t\"" + JsonKey(e.Context) + "\": \"" + EscapeSlash(e.Str) + "\""
  }

  predicate HasContexts(s: seq<PoElement>)
  {
    forall e :: e in s ==> |e.Context| > 0
  }

  /** The entry line of each element, position by position. */
  function Lines(s: seq<PoElement>): (r: seq<string>)
    requires HasContexts(s)
    ensures |r| == |s| && forall i :: 0 <= i < |s| ==> r[i] == Line(s[i])
  {
    seq(|s|, i requires 0 <= i < |s| => Line(s[i]))
  }

  /** The document Jsonify writes for `s`: nothing for no elements, otherwise
      a brace, the lines joined by a comma and line break, a brace. */
  function JsonText(s: seq<PoElement>): string
    requires HasContexts(s)
  {
    if s == [] then "" else "{\n" + Join(Lines(s), ",\n") + "\n}"
  }

  /** What Jsonify has written before line `i`: the opening brace and the
      first `i` lines, each followed by its separator. */
  function JsonHead(ls: seq<string>, i: nat): string
    requires i <= |ls|
  {
    "{\n" + (if i == 0 then "" else Join(ls[..i], ",\n") + ",\n")
  }

  /** Joining one line more. */
  lemma JoinStep(ls: seq<string>, sep: string, i: nat)
    requires i < |ls|
    ensures Join(ls[..i + 1], sep) == (if i == 0 then "" else Join(ls[..i], sep) + sep) + ls[i]
  {
    var xs := ls[..i + 1];
    if i == 0 {
      assert xs == [ls[0]];
    } else {
      assert xs[..i] == ls[..i];
    }
  }

  /** Writing line `i` and the separator that follows it, when more lines
      follow. */
  lemma JsonHeadStep(ls: seq<string>, i: nat)
    requires i + 1 < |ls|
    ensures JsonHead(ls, i) + ls[i] + ",\n" == JsonHead(ls, i + 1)
  {
    JoinStep(ls, ",\n", i);
  }

  /** Writing the last line and the closing brace. */
  lemma JsonLastStep(ls: seq<string>, i: nat)
    requires i + 1 == |ls|
    ensures JsonHead(ls, i) + ls[i] + "\n}" == "{\n" + Join(ls, ",\n") + "\n}"
  {
    JoinStep(ls, ",\n", i);
    assert ls[..i + 1] == ls;
  }

  /** Jsonify (main.go:181-202): empty input gives empty output and is left
      alone; otherwise the caller's elements are sorted in place and written
      in the new order. Every context must be non-empty: its first byte is
      read unguarded. */
  method Jsonify(a: array<PoElement>) returns (out: string)
    requires HasContexts(a[..])
    modifies a
    ensures Sorted(a[..])
    ensures multiset(a[..]) == multiset(old(a[..]))
    ensures HasContexts(a[..]) && out == JsonText(a[..])
  {
    if a.Length == 0 {
      return "";
    }
    Sort(a);
    forall e | e in a[..]
      ensures |e.Context| > 0
    {
      assert e in multiset(old(a[..]));
    }
    out := WriteJson(a);
  }

  /** The writing loop of Jsonify over elements already sorted. */
  method WriteJson(a: array<PoElement>) returns (out: string)
    requires a.Length > 0 && HasContexts(a[..])
    ensures out == JsonText(a[..])
  {
    ghost var ls := Lines(a[..]);
    var buffer := "{\n";
    var i := 0;
    while i < a.Length
      invariant 0 <= i <= a.Length
      invariant i < a.Length ==> buffer == JsonHead(ls, i)
      invariant i == a.Length ==> buffer == "{\n" + Join(ls, ",\n") + "\n}"
    {
      var e := a[i];
      assert e in a[..];
      var jsonkey := TrimSpace(e.Context);
      if e.Context[0] == '.' {
        jsonkey := e.Context[1..];
      }
      var line := "\t\"" + jsonkey + "\": \"" + EscapeSlash(e.Str) + "\"";
      assert line == ls[i];
      buffer := buffer + line;
      if i == a.Length - 1 {
        JsonLastStep(ls, i);
        buffer := buffer + "\n}";
      } else {
        JsonHeadStep(ls, i);
        buffer := buffer + ",\n";
      }
      i := i + 1;
    }
    out := buffer;
  }

  /** Empty input, and only empty input, gives the empty string. */
  lemma JsonTextEmpty(s: seq<PoElement>)
    requires HasContexts(s)
    ensures JsonText(s) == "" <==> s == []
  {
  }

  /** A dotted context loses its dot and keeps any space after it. */
  lemma JsonKeyDottedExamples()
    ensures JsonKey(".foo") == "foo"
    ensures JsonKey(".foo ") == "foo "
  {
    assert ".foo"[1..] == "foo";
    assert ".foo "[1..] == "foo ";
  }

  /** A context with no white space at either end is its own key. */
  lemma JsonKeyPlainExample()
    ensures JsonKey("bar") == "bar"
  {
    TrimSpaceOfTrimmed("bar");
  }

  /** Any other context is trimmed of the white space on both sides. */
  lemma JsonKeyTrimmedExample()
    ensures JsonKey(" bar\t") == "bar"
  {
    var s := " bar\t";
    assert IsSpace(s[0]);
    assert s[1..] == "bar\t";
    assert !IsSpace('b');
    assert TrimLeft(s) == "bar\t";
    var l := "bar\t";
    assert IsSpace(l[3]);
    assert l[..3] == "bar";
    assert !IsSpace('r');
    assert TrimRight(l) == "bar";
  }

  /** A dot behind a space is not a leading dot: it stays in the key. */
  lemma JsonKeySpacedDotExample()
    ensures JsonKey(" .foo") == ".foo"
  {
    var s := " .foo";
    assert IsSpace(s[0]);
    assert s[1..] == ".foo";
    assert !IsSpace('.') && !IsSpace('o');
    assert TrimLeft(s) == ".foo";
    TrimSpaceOfTrimmed(".foo");
    assert TrimRight(".foo") == ".foo";
  }

  /** On a context with no white space at either end, Jsonify's key rule and
      toJsonKey agree. */
  lemma JsonKeyMatchesToJsonKey(ctx: string)
    requires |ctx| > 0 && !IsSpace(ctx[0]) && !IsSpace(ctx[|ctx| - 1])
    ensures JsonKey(ctx) == ToJsonKey(ctx)
  {
    TrimSpaceOfTrimmed(ctx);
  }

  /** ... and they differ on a dotted context with a space in front. */
  lemma JsonKeyDiffersFromToJsonKey()
    ensures JsonKey(" .foo") == ".foo" && ToJsonKey(" .foo") == "foo"
  {
    JsonKeySpacedDotExample();
    assert ".foo"[1..] == "foo";
  }

  /** The contexts JsonToPo builds read back as their JSON keys. */
  lemma JsonKeyOfDotted(k: string)
    ensures JsonKey("." + k) == k
  {
    assert ("." + k)[0] == '.' && ("." + k)[1..] == k;
  }

  /** Go's `m[k]`: the zero value, the empty string, for a missing key. */
  function GoIndex(m: map<string, string>, k: string): string
  {
    if k in m then m[k] else ""
  }

  /** `order` visits every key of `m` exactly once: the iteration order of a
      range over the map. */
  ghost predicate Enumerates(order: seq<string>, m: map<string, string>)
  {
    && (forall i, j :: 0 <= i < j < |order| ==> order[i] != order[j])
    && (forall k :: k in m <==> k in order)
  }

  /** The elements JsonToPo builds, in visiting order (main.go:216-224). */
  function JsonElements(en: map<string, string>, la: map<string, string>, order: seq<string>): (r: seq<PoElement>)
    requires forall k :: k in order ==> k in en
  {
    seq(|order|, i requires 0 <= i < |order| => PoElement("." + order[i], en[order[i]], GoIndex(la, order[i])))
  }

  /** JsonToPo (main.go:204-226) from the two decoder outcomes: a failure of
      either is returned as the error, the base one first; otherwise the PO
      text of one element per base key, sorted. */
  method JsonToPo(en: Result<map<string, string>>, la: Result<map<string, string>>, order: seq<string>)
    returns (r: Result<string>)
    requires en.Success? ==> Enumerates(order, en.value)
    ensures en.Failure? ==> r == Failure(en.error)
    ensures en.Success? && la.Failure? ==> r == Failure(la.error)
    ensures en.Success? && la.Success? ==> r == Success(PoText(SortSeq(JsonElements(en.value, la.value, order))))
  {
    if en.Failure? {
      return Failure(en.error);
    }
    if la.Failure? {
      return Failure(la.error);
    }
    var enmap, lamap := en.value, la.value;
    var poes: seq<PoElement> := [];
    var i := 0;
    while i < |order|
      invariant 0 <= i <= |order|
      invariant poes == JsonElements(enmap, lamap, order[..i])
    {
      var k := order[i];
      var v := enmap[k];
      poes := poes + [PoElement("." + k, v, GoIndex(lamap, k))];
      i := i + 1;
    }
    assert order[..i] == order;
    var a := new PoElement[|poes|](j requires 0 <= j < |poes| => poes[j]);
    assert a[..] == poes;
    var out := Poify(a);
    JsonElementsUnique(enmap, lamap, order);
    SortedPermutationIsSortSeq(poes, a[..]);
    r := Success(out);
  }

  /** Distinct keys give distinct contexts, hence unique keys. */
  lemma JsonElementsUnique(en: map<string, string>, la: map<string, string>, order: seq<string>)
    requires Enumerates(order, en)
    ensures UniqueKeys(JsonElements(en, la, order))
  {
    var r := JsonElements(en, la, order);
    forall i, j | 0 <= i < j < |r|
      ensures r[i].Context != r[j].Context
    {
      assert r[i].Context[1..] == order[i] && r[j].Context[1..] == order[j];
    }
  }

  lemma {:induction false} DistinctCardinality(order: seq<string>)
    requires forall i, j :: 0 <= i < j < |order| ==> order[i] != order[j]
    ensures |set k | k in order| == |order|
  {
    if order != [] {
      var init := order[..|order| - 1];
      var last := order[|order| - 1];
      DistinctCardinality(init);
      assert (set k | k in order) == (set k | k in init) + {last};
      assert last !in init;
    }
  }

  /** One element per base key `k`: context `"." + k`, id the base value,
      translation the target value or the empty string. */
  lemma JsonElementsMembers(en: map<string, string>, la: map<string, string>, order: seq<string>)
    requires Enumerates(order, en)
    ensures |JsonElements(en, la, order)| == |en|
    ensures forall k :: k in en ==> PoElement("." + k, en[k], GoIndex(la, k)) in JsonElements(en, la, order)
    ensures forall e :: e in JsonElements(en, la, order) ==>
              exists k :: k in en && e == PoElement("." + k, en[k], GoIndex(la, k))
  {
    var r := JsonElements(en, la, order);
    DistinctCardinality(order);
    assert en.Keys == set k | k in order;
    forall k | k in en
      ensures PoElement("." + k, en[k], GoIndex(la, k)) in r
    {
      var i :| 0 <= i < |order| && order[i] == k;
      assert r[i] == PoElement("." + k, en[k], GoIndex(la, k));
    }
    forall e | e in r
      ensures exists k :: k in en && e == PoElement("." + k, en[k], GoIndex(la, k))
    {
      var i :| 0 <= i < |r| && r[i] == e;
      assert order[i] in en;
    }
  }

  /** Two visiting orders of the same base map give the same elements. */
  lemma JsonElementsSameMembers(en: map<string, string>, la: map<string, string>, o1: seq<string>, o2: seq<string>)
    requires Enumerates(o1, en) && Enumerates(o2, en)
    ensures forall x :: x in JsonElements(en, la, o1) <==> x in JsonElements(en, la, o2)
  {
    JsonElementsMembers(en, la, o1);
    JsonElementsMembers(en, la, o2);
  }

  /** The output of JsonToPo does not depend on the order the base map is
      visited in. */
  lemma JsonToPoOrderIndependent(en: map<string, string>, la: map<string, string>, o1: seq<string>, o2: seq<string>)
    requires Enumerates(o1, en) && Enumerates(o2, en)
    ensures SortSeq(JsonElements(en, la, o1)) == SortSeq(JsonElements(en, la, o2))
  {
    JsonElementsUnique(en, la, o1);
    JsonElementsUnique(en, la, o2);
    JsonElementsSameMembers(en, la, o1, o2);
    SortSeqSameElements(JsonElements(en, la, o1), JsonElements(en, la, o2));
  }
}
