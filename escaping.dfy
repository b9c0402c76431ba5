/** `escapeSlash` of main.go: the PO escaping of one field, as four
    whole-string replace passes, and its character-by-character reading. */
module Escaping {
  import opened GoStrings

  /** The replace passes of escapeSlash, in the order they are applied. */
  const Passes: seq<(char, string)> := [('\n', "\\n"), ('\r', "\\r"), ('\t', "\\t"), ('"', "\\\"")]

  /** Applies each pass to the output of the one before. */
  function ApplyPasses(s: string, passes: seq<(char, string)>): string
    decreases |passes|
  {
    if passes == [] then s else ApplyPasses(Replace(s, passes[0].0, passes[0].1), passes[1..])
  }

  /** escapeSlash: newline, carriage return, tab and double quote are
      replaced, one whole-string pass each, in that order. */
  function EscapeSlash(s: string): string
  {
    ApplyPasses(s, Passes)
  }

  /** The passes written out as the nested calls of the source. */
  lemma EscapeSlashNested(s: string)
    ensures EscapeSlash(s)
         == Replace(Replace(Replace(Replace(s, '\n', "\\n"), '\r', "\\r"), '\t', "\\t"), '"', "\\\"")
  {
    var r1 := Replace(s, '\n', "\\n");
    var r2 := Replace(r1, '\r', "\\r");
    var r3 := Replace(r2, '\t', "\\t");
    assert Passes[1..][1..][1..][1..] == [];
    calc {
      EscapeSlash(s);
      ApplyPasses(r1, Passes[1..]);
      ApplyPasses(r2, Passes[1..][1..]);
      ApplyPasses(r3, Passes[1..][1..][1..]);
      ApplyPasses(Replace(r3, '"', "\\\""), Passes[1..][1..][1..][1..]);
    }
  }

  /** The escape of a single character. */
  function EscapeChar(c: char): string
  {
    match c
    case '\n' => "\\n"
    case '\r' => "\\r"
    case '\t' => "\\t"
    case '"' => "\\\""
    case _ => [c]
  }

  /** The escape as one left-to-right map over the characters. */
  function EscapeMap(s: string): string
  {
    if s == [] then [] else EscapeChar(s[0]) + EscapeMap(s[1..])
  }

  lemma EscapeSlashConcat(a: string, b: string)
    ensures EscapeSlash(a + b) == EscapeSlash(a) + EscapeSlash(b)
  {
    EscapeSlashNested(a);
    EscapeSlashNested(b);
    EscapeSlashNested(a + b);
    var r1a, r1b := Replace(a, '\n', "\\n"), Replace(b, '\n', "\\n");
    ReplaceConcat(a, b, '\n', "\\n");
    var r2a, r2b := Replace(r1a, '\r', "\\r"), Replace(r1b, '\r', "\\r");
    ReplaceConcat(r1a, r1b, '\r', "\\r");
    var r3a, r3b := Replace(r2a, '\t', "\\t"), Replace(r2b, '\t', "\\t");
    ReplaceConcat(r2a, r2b, '\t', "\\t");
    ReplaceConcat(r3a, r3b, '"', "\\\"");
  }

  /** Replacing a character that does not occur changes nothing. */
  lemma {:induction false} ReplaceAbsent(s: string, pat: char, rep: string)
    requires pat !in s
    ensures Replace(s, pat, rep) == s
  {
    if s != [] {
      ReplaceAbsent(s[1..], pat, rep);
      assert s == [s[0]] + s[1..];
    }
  }

  lemma ReplaceSingle(c: char, pat: char, rep: string)
    ensures Replace([c], pat, rep) == if c == pat then rep else [c]
  {
    assert [c][1..] == [];
    var head := if c == pat then rep else [c];
    assert head + [] == head;
  }

  lemma EscapeSlashChar(c: char)
    ensures EscapeSlash([c]) == EscapeChar(c)
  {
    EscapeSlashNested([c]);
    ReplaceSingle(c, '\n', "\\n");
    var r1 := Replace([c], '\n', "\\n");
    if c == '\n' {
      ReplaceAbsent(r1, '\r', "\\r");
      ReplaceAbsent(r1, '\t', "\\t");
      ReplaceAbsent(r1, '"', "\\\"");
    } else {
      ReplaceSingle(c, '\r', "\\r");
      var r2 := Replace(r1, '\r', "\\r");
      if c == '\r' {
        ReplaceAbsent(r2, '\t', "\\t");
        ReplaceAbsent(r2, '"', "\\\"");
      } else {
        ReplaceSingle(c, '\t', "\\t");
        var r3 := Replace(r2, '\t', "\\t");
        if c == '\t' {
          ReplaceAbsent(r3, '"', "\\\"");
        } else {
          ReplaceSingle(c, '"', "\\\"");
        }
      }
    }
  }

  /** Every character other than newline, carriage return, tab and double
      quote, the backslash included, comes out of escapeSlash unchanged. */
  lemma EscapeSlashKeeps()
    ensures forall c :: c !in "\n\r\t\"" ==> EscapeSlash([c]) == [c]
  {
    forall c | c !in "\n\r\t\""
      ensures EscapeSlash([c]) == [c]
    {
      EscapeSlashChar(c);
    }
  }

  /** The four passes one after another equal the single per-character map:
      none of the replacement texts contains a character a later pass would
      replace again. */
  lemma {:induction false} EscapeSlashIsCharMap(s: string)
    ensures EscapeSlash(s) == EscapeMap(s)
  {
    if s != [] {
      assert s == [s[0]] + s[1..];
      EscapeSlashConcat([s[0]], s[1..]);
      EscapeSlashChar(s[0]);
      EscapeSlashIsCharMap(s[1..]);
      assert EscapeSlash(s) == EscapeChar(s[0]) + EscapeSlash(s[1..]);
    }
  }

  /** The escaped text holds no raw newline, carriage return or tab. */
  lemma {:induction false} EscapeSlashNoControl(s: string)
    ensures '\n' !in EscapeSlash(s) && '\r' !in EscapeSlash(s) && '\t' !in EscapeSlash(s)
  {
    EscapeSlashIsCharMap(s);
    EscapeMapNoControl(s);
  }

  lemma {:induction false} EscapeMapNoControl(s: string)
    ensures '\n' !in EscapeMap(s) && '\r' !in EscapeMap(s) && '\t' !in EscapeMap(s)
  {
    if s != [] {
      EscapeMapNoControl(s[1..]);
    }
  }

  /** Escaping adds one character per newline, carriage return, tab and
      double quote of the input. */
  lemma {:induction false} EscapeSlashLength(s: string)
    ensures |EscapeSlash(s)| == |s| + multiset(s)['\n'] + multiset(s)['\r'] + multiset(s)['\t'] + multiset(s)['"']
  {
    EscapeSlashIsCharMap(s);
    EscapeMapLength(s);
  }

  lemma {:induction false} EscapeMapLength(s: string)
    ensures |EscapeMap(s)| == |s| + multiset(s)['\n'] + multiset(s)['\r'] + multiset(s)['\t'] + multiset(s)['"']
  {
    if s != [] {
      assert s == [s[0]] + s[1..];
      EscapeMapLength(s[1..]);
    }
  }

  /** Reads one escaped field back: `\n`, `\r`, `\t` and `\"` become the
      character they stand for, any other character stands for itself. */
  function Unescape(s: string): string
    decreases |s|
  {
    if s == [] then []
    else if |s| >= 2 && s[0] == '\\' && s[1] in "nrt\"" then
      [match s[1] case 'n' => '\n' case 'r' => '\r' case 't' => '\t' case _ => '"'] + Unescape(s[2..])
    else [s[0]] + Unescape(s[1..])
  }

  lemma UnescapeEscapeChar(c: char, rest: string)
    requires c != '\\'
    ensures Unescape(EscapeChar(c) + rest) == [c] + Unescape(rest)
  {
    var e := EscapeChar(c) + rest;
    if c == '\n' || c == '\r' || c == '\t' || c == '"' {
      assert e[0] == '\\' && e[2..] == rest;
    } else {
      assert e[0] == c && e[1..] == rest;
    }
  }

  /** A field without backslashes comes back unchanged from its escape. */
  lemma {:induction false} UnescapeEscapeSlash(s: string)
    requires '\\' !in s
    ensures Unescape(EscapeSlash(s)) == s
  {
    EscapeSlashIsCharMap(s);
    UnescapeEscapeMap(s);
  }

  lemma {:induction false} UnescapeEscapeMap(s: string)
    requires '\\' !in s
    ensures Unescape(EscapeMap(s)) == s
  {
    if s != [] {
      UnescapeEscapeChar(s[0], EscapeMap(s[1..]));
      UnescapeEscapeMap(s[1..]);
      assert s == [s[0]] + s[1..];
    }
  }

  /** A backslash is not escaped, so a newline and the two characters
      backslash, `n` escape to the same text. */
  lemma EscapeSlashCollides()
    ensures EscapeSlash("\n") == EscapeSlash("\\n") == "\\n"
  {
    EscapeSlashIsCharMap("\n");
    EscapeSlashIsCharMap("\\n");
    assert "\\n"[1..] == "n";
    assert "\\n"[1..][1..] == [];
  }
}
