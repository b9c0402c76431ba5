/** The element-building loop of `ParsePO` (main.go:111-129): one element
    per context and non-empty message id of a decoded catalogue, its
    translation forms joined by " | ". The PO grammar and the binary
    round trip that produce the decoded catalogue are not part of this model;
    the decoder's outcome is an input. */
module PoParse {
  import opened GoStrings
  import opened Catalog

  /** One translation form as the decoded catalogue yields it: its plural
      index and its text. */
  datatype Form = Form(index: int, text: string)

  /** One message id with its forms, in the order they are visited. */
  datatype Message = Message(id: string, forms: seq<Form>)

  /** One context with its messages, in the order they are visited. */
  datatype ContextGroup = ContextGroup(name: string, messages: seq<Message>)

  /** What the decoder yields: a failure, or the contexts in the order they
      are visited. */
  datatype Decoding = DecodeError | Decoded(contexts: seq<ContextGroup>)

  /** The decoded value comes from maps: context names are distinct, and so
      are the ids within one context. */
  predicate WellFormed(d: Decoding)
  {
    d.Decoded? ==>
      && (forall c1, c2 :: 0 <= c1 < c2 < |d.contexts| ==> d.contexts[c1].name != d.contexts[c2].name)
      && (forall c, m1, m2 :: 0 <= c < |d.contexts| && 0 <= m1 < m2 < |d.contexts[c].messages|
            ==> d.contexts[c].messages[m1].id != d.contexts[c].messages[m2].id)
  }

  /** The translation built from the forms: each form's text, preceded by
      " | " when its index is not 0. */
  function JoinForms(forms: seq<Form>): string
  {
    if forms == [] then ""
    else
      var last := forms[|forms| - 1];
      JoinForms(forms[..|forms| - 1]) + (if last.index != 0 then " | " else "") + last.text
  }

  /** The texts of the forms, position by position. */
  function Texts(forms: seq<Form>): (r: seq<string>)
    ensures |r| == |forms| && forall i :: 0 <= i < |forms| ==> r[i] == forms[i].text
  {
    seq(|forms|, i requires 0 <= i < |forms| => forms[i].text)
  }

  /** Forms visited in index order 0, 1, 2, ... give their texts joined by
      " | ", in that order. */
  lemma {:induction false} JoinFormsInOrder(forms: seq<Form>)
    requires forall i :: 0 <= i < |forms| ==> forms[i].index == i
    ensures JoinForms(forms) == Join(Texts(forms), " | ")
  {
    var n := |forms|;
    if n == 1 {
      assert forms[..0] == [];
      assert JoinForms(forms) == "" + "" + forms[0].text;
    } else if n > 1 {
      var init := forms[..n - 1];
      JoinFormsInOrder(init);
      assert Texts(forms)[..n - 1] == Texts(init);
    }
  }

  /** What the separator test on the index means when the forms are visited
      out of index order: the separator goes before the text, not between. */
  lemma JoinFormsOutOfOrder()
    ensures JoinForms([Form(1, "b"), Form(0, "a")]) == " | ba"
  {
    var forms := [Form(1, "b"), Form(0, "a")];
    assert forms[..1] == [Form(1, "b")];
    assert forms[..1][..0] == [];
  }

  /** The elements of one context, from its messages in visiting order. */
  function MessageElements(ctx: string, ms: seq<Message>): seq<PoElement>
  {
    if ms == [] then []
    else
      var m := ms[|ms| - 1];
      MessageElements(ctx, ms[..|ms| - 1])
        + (if m.id == "" then [] else [PoElement(ctx, m.id, JoinForms(m.forms))])
  }

  /** The elements of all contexts, in visiting order. */
  function ContextElements(gs: seq<ContextGroup>): seq<PoElement>
  {
    if gs == [] then []
    else ContextElements(gs[..|gs| - 1]) + MessageElements(gs[|gs| - 1].name, gs[|gs| - 1].messages)
  }

  /** ParsePO's result: nothing on a decode failure. */
  function Elements(d: Decoding): seq<PoElement>
  {
    match d
    case DecodeError => []
    case Decoded(gs) => ContextElements(gs)
  }

  /** ParsePO from the decoded catalogue on (main.go:106-129). */
  method ParsePO(d: Decoding) returns (poes: seq<PoElement>)
    ensures poes == Elements(d)
  {
    if d.DecodeError? {
      return [];
    }
    var gs := d.contexts;
    poes := [];
    var c := 0;
    while c < |gs|
      invariant 0 <= c <= |gs|
      invariant poes == ContextElements(gs[..c])
    {
      var g := gs[c];
      ghost var before := poes;
      var m := 0;
      while m < |g.messages|
        invariant 0 <= m <= |g.messages|
        invariant poes == before + MessageElements(g.name, g.messages[..m])
      {
        var msg := g.messages[m];
        assert g.messages[..m + 1][..m] == g.messages[..m];
        if msg.id != "" {
          var str := "";
          var i := 0;
          while i < |msg.forms|
            invariant 0 <= i <= |msg.forms|
            invariant str == JoinForms(msg.forms[..i])
          {
            assert msg.forms[..i + 1][..i] == msg.forms[..i];
            if msg.forms[i].index != 0 {
              str := str + " | ";
            }
            str := str + msg.forms[i].text;
            i := i + 1;
          }
          assert msg.forms[..i] == msg.forms;
          poes := poes + [PoElement(g.name, msg.id, str)];
        }
        m := m + 1;
      }
      assert g.messages[..m] == g.messages;
      assert gs[..c + 1][..c] == gs[..c];
      c := c + 1;
    }
    assert gs[..c] == gs;
  }

  /** An element of one context is exactly a message with a non-empty id,
      under that context, with its forms joined. */
  lemma {:induction false} MessageElementsMembers(ctx: string, ms: seq<Message>, e: PoElement)
    ensures e in MessageElements(ctx, ms)
        <==> exists m :: 0 <= m < |ms| && ms[m].id != "" && e == PoElement(ctx, ms[m].id, JoinForms(ms[m].forms))
  {
    if ms != [] {
      var init := ms[..|ms| - 1];
      MessageElementsMembers(ctx, init, e);
      if e in MessageElements(ctx, init) {
        var m :| 0 <= m < |init| && init[m].id != "" && e == PoElement(ctx, init[m].id, JoinForms(init[m].forms));
        assert ms[m] == init[m];
      }
      if exists m :: 0 <= m < |ms| && ms[m].id != "" && e == PoElement(ctx, ms[m].id, JoinForms(ms[m].forms)) {
        var m :| 0 <= m < |ms| && ms[m].id != "" && e == PoElement(ctx, ms[m].id, JoinForms(ms[m].forms));
        if m < |ms| - 1 {
          assert init[m] == ms[m];
        }
      }
    }
  }

  /** An element of the parse is exactly a (context, non-empty id) pair of
      the decoded catalogue, with that message's forms joined. */
  lemma {:induction false} ContextElementsMembers(gs: seq<ContextGroup>, e: PoElement)
    ensures e in ContextElements(gs)
        <==> exists c, m :: 0 <= c < |gs| && 0 <= m < |gs[c].messages| && gs[c].messages[m].id != ""
                         && e == PoElement(gs[c].name, gs[c].messages[m].id, JoinForms(gs[c].messages[m].forms))
  {
    if gs != [] {
      var init, g := gs[..|gs| - 1], gs[|gs| - 1];
      ContextElementsMembers(init, e);
      MessageElementsMembers(g.name, g.messages, e);
      if e in ContextElements(init) {
        var c, m :| 0 <= c < |init| && 0 <= m < |init[c].messages| && init[c].messages[m].id != ""
                    && e == PoElement(init[c].name, init[c].messages[m].id, JoinForms(init[c].messages[m].forms));
        assert gs[c] == init[c];
      }
      if e in MessageElements(g.name, g.messages) {
        var m :| 0 <= m < |g.messages| && g.messages[m].id != "" && e == PoElement(g.name, g.messages[m].id, JoinForms(g.messages[m].forms));
        assert gs[|gs| - 1] == g;
      }
      if exists c, m :: 0 <= c < |gs| && 0 <= m < |gs[c].messages| && gs[c].messages[m].id != ""
                     && e == PoElement(gs[c].name, gs[c].messages[m].id, JoinForms(gs[c].messages[m].forms)) {
        var c, m :| 0 <= c < |gs| && 0 <= m < |gs[c].messages| && gs[c].messages[m].id != ""
                    && e == PoElement(gs[c].name, gs[c].messages[m].id, JoinForms(gs[c].messages[m].forms));
        if c < |gs| - 1 {
          assert init[c] == gs[c];
        }
      }
    }
  }

  /** No element has an empty id: the empty id is the header entry. */
  lemma ElementsNonEmptyIds(d: Decoding)
    ensures forall e :: e in Elements(d) ==> e.Id != ""
  {
    if d.Decoded? {
      forall e | e in Elements(d)
        ensures e.Id != ""
      {
        ContextElementsMembers(d.contexts, e);
      }
    }
  }

  lemma {:induction false} MessageElementsUnique(ctx: string, ms: seq<Message>)
    requires forall m1, m2 :: 0 <= m1 < m2 < |ms| ==> ms[m1].id != ms[m2].id
    ensures UniqueKeys(MessageElements(ctx, ms))
  {
    if ms != [] {
      var init, m := ms[..|ms| - 1], ms[|ms| - 1];
      MessageElementsUnique(ctx, init);
      var tail := if m.id == "" then [] else [PoElement(ctx, m.id, JoinForms(m.forms))];
      forall x, y | x in MessageElements(ctx, init) && y in tail
        ensures !SameKey(x, y)
      {
        MessageElementsMembers(ctx, init, x);
      }
      UniqueKeysAppend(MessageElements(ctx, init), tail);
    }
  }

  /** The parse of a catalogue decoded from maps has unique keys: each
      (context, non-empty id) pair gives exactly one element. */
  lemma ElementsUniqueKeys(d: Decoding)
    requires WellFormed(d)
    ensures UniqueKeys(Elements(d))
  {
    if d.Decoded? {
      ContextElementsUnique(d.contexts);
    }
  }

  lemma {:induction false} ContextElementsUnique(gs: seq<ContextGroup>)
    requires WellFormed(Decoded(gs))
    ensures UniqueKeys(ContextElements(gs))
  {
    if gs != [] {
      var init, g := gs[..|gs| - 1], gs[|gs| - 1];
      assert WellFormed(Decoded(init));
      ContextElementsUnique(init);
      MessageElementsUnique(g.name, g.messages);
      forall x, y | x in ContextElements(init) && y in MessageElements(g.name, g.messages)
        ensures !SameKey(x, y)
      {
        ContextElementsMembers(init, x);
        MessageElementsMembers(g.name, g.messages, y);
        var c, m :| 0 <= c < |init| && 0 <= m < |init[c].messages| && init[c].messages[m].id != ""
                    && x == PoElement(init[c].name, init[c].messages[m].id, JoinForms(init[c].messages[m].forms));
        assert x.Context == gs[c].name;
      }
      UniqueKeysAppend(ContextElements(init), MessageElements(g.name, g.messages));
    }
  }
}
