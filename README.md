# Catalog transform pipeline of subiz/lang, in Dafny

`main.go` of subiz/lang keeps translation catalogues in sync. It works on a
flat list of `PoElement{Context, Id, Str}` records:

- `ParsePO` reads a decoded GNU gettext PO catalogue into such a list. It
  skips the empty header id and joins the plural forms with `" | "`.
- `sort` puts the list in `(Context, Id)` order in place.
- `Poify` writes the list back as PO text: one `msgctxt`/`msgid`/`msgstr`
  block per element, the fields escaped by `escapeSlash`.
- `Jsonify` writes a flat JSON object keyed by context.
- `JsonToPo` builds a PO catalogue from two decoded JSON objects.
- `Merge` carries a target language's translations over onto the base
  (`en-US`) catalogue.

The model follows that code file by file:

| file | module | models |
|---|---|---|
| `wrappers.dfy` | `Wrappers` | `Result`, for Go's `(value, error)` pairs |
| `go_strings.dfy` | `GoStrings` | Go's string `<`, `strings.TrimSpace`, `strings.Replace` with a one-character pattern, concatenation and join |
| `catalog.dfy` | `Catalog` | `PoElement`, the `(Context, Id)` order, `sort` as an in-place method on an array, a reference sort on sequences, determinism of the sorted order |
| `escaping.dfy` | `Escaping` | `escapeSlash` as four replace passes, its per-character reading, its length and what it leaves out |
| `po_format.dfy` | `PoFormat` | `Poify` as a method that sorts the array in place and appends block by block |
| `po_parse.dfy` | `PoParse` | the element-building loops of `ParsePO` over the decoder's outcome |
| `merging.dfy` | `Merging` | the nested merge loop of `Merge`, and `Merge` end to end |
| `json_format.dfy` | `JsonFormat` | `toJsonKey`, `Jsonify` in place, and `JsonToPo` from the decoder outcomes |

Modelling choices:

- **Strings.** A Go string is its sequence of code points. Go compares and
  slices strings by byte. For valid UTF-8, byte order and code-point order
  agree, and the only slices taken (`Context[1:]` after a `.`, and the
  `TrimSpace` bounds) fall on code-point boundaries.
- **Map iteration order.** Go's map iteration order is unspecified. It is an
  input of the model: the order of the decoded contexts, ids and forms in
  `PoParse.Decoding`, and the key order `order` of `JsonToPo`. The outputs
  of `Poify`, `Jsonify`, `JsonToPo` and `Merge` are stated through the
  reference sort `Catalog.SortSeq`. Any sorted rearrangement of a list with
  unique keys equals it (`Catalog.SortedPermutationIsSortSeq`). So the
  order of the elements does not reach the output: `PoifyDeterministic`,
  `JsonToPoOrderIndependent` and `MergeOrderIndependent` state this for
  lists with unique keys and the same elements. The order the forms of
  one message are visited in is different: it changes that message's
  translation text (see "## Left out").
- **Preconditions that come from the input types.** Two `requires` clauses
  state facts the real input types already guarantee:
  - `Merge` requires `WellFormed(enpo)`: the gob-decoded catalogue is a map
    of maps, so its context names are distinct, and so are the ids within
    one context.
  - `JsonToPo` requires that `order` lists each key of the decoded base map
    exactly once, which is what a `range` over a map visits.
- **Two key rules.** `toJsonKey` (main.go:172-178) trims a key and then
  drops a leading dot. `Jsonify` does not call it. It tests the raw context
  for a leading dot and only trims when the dot is absent (main.go:189-192).
  The model has both (`JsonFormat.JsonKey` for Jsonify's rule,
  `JsonFormat.ToJsonKey`). It shows the two agree on contexts with no
  surrounding space and differ on `" .foo"`.
- **The indent character.** The JSON entry format on main.go:194 starts
  with a literal tab, and the model writes `"\t"`.

## Model

| member | source | states |
|---|---|---|
| GoStrings.Less | main.go:161-164 | definition, no contract: Go's `<` on strings, lexicographic with a proper prefix first; its properties are the four lemmas below |
| GoStrings.LessIrreflexive | main.go:161-164 | no string sorts before itself under Go's `<` |
| GoStrings.LessTransitive | main.go:161-164 | Go's `<` on strings is transitive |
| GoStrings.LessTrichotomy | main.go:161-164 | any two strings are equal or ordered one way |
| GoStrings.LessAsymmetric | main.go:161-164 | two strings are never each before the other |
| GoStrings.TrimLeft | main.go:189 | the result is the longest suffix not starting with white space; everything dropped is white space |
| GoStrings.TrimRight | main.go:189 | the result is the longest prefix not ending with white space; everything dropped is white space |
| GoStrings.TrimSpace | main.go:189 | the result is a slice `s[i..j]` with only white space outside it, and neither of its ends is white space |
| GoStrings.TrimSpaceOfTrimmed | main.go:173 | a string with no white space at either end trims to itself |
| GoStrings.Replace | main.go:134-140 | definition, no contract: `strings.Replace` with a one-character pattern and no limit; its properties are the lemmas below and those in Escaping |
| GoStrings.ReplaceLength | main.go:137-140 | each replaced occurrence changes the length by the replacement's length minus one |
| GoStrings.ReplaceConcat | main.go:137-140 | a one-character replace distributes over concatenation |
| GoStrings.ConcatAppend | main.go:147-155 | concatenating two lists of pieces is concatenating their concatenations |
| GoStrings.ConcatSingle | main.go:147-155 | one piece concatenates to itself |
| GoStrings.ConcatAt | main.go:147-155 | piece `i` sits between the pieces before it and those after it |
| Catalog.BeforeTransitive | main.go:161-166 | the `(Context, Id)` order is transitive |
| Catalog.BeforeAsymmetric | main.go:161-166 | the `(Context, Id)` order is asymmetric |
| Catalog.BeforeTotal | main.go:161-166 | two elements not ordered either way have the same `(Context, Id)` |
| Catalog.NotBeforeCases | main.go:161-166 | not after means before or the same key |
| Catalog.NotBeforeTransitive | main.go:161-166 | "not after" is transitive |
| Catalog.Sort | main.go:158-170 | after the call the array is in `(Context, Id)` order and holds the same elements with the same counts |
| Catalog.SwapSmaller | main.go:162 | the two positions are exchanged, nothing else changes, and position `i` still holds the least element of `i..j` |
| Catalog.Insert | main.go:158-170 | the reference insertion adds exactly one element |
| Catalog.InsertSorted | main.go:158-170 | inserting into a sorted list keeps it sorted |
| Catalog.SortSeq | main.go:158-170 | the reference sort is a rearrangement of its input |
| Catalog.SortSeqSorted | main.go:158-170 | the reference sort is in `(Context, Id)` order |
| Catalog.UniqueKeysAtMostOnce | main.go:158-170 | with unique keys, each element occurs at most once |
| Catalog.UniqueKeysPermutation | main.go:158-170 | a rearrangement keeps keys unique |
| Catalog.UniqueKeysAppend | main.go:158-170 | two lists with unique and disjoint keys concatenate to one with unique keys |
| Catalog.NotBeforeSelf | main.go:161-166 | no element is before itself |
| Catalog.SortedSameElementsEqual | main.go:158-170 | two sorted lists with unique keys and the same elements are equal |
| Catalog.SortedPermutationIsSortSeq | main.go:158-170 | with unique keys, every sorted rearrangement, and so what `sort` leaves, is the reference sort |
| Catalog.UniqueKeysSameElements | main.go:158-170 | with unique keys, the same elements means the same multiset |
| Catalog.SortSeqSameElements | main.go:158-170 | lists with unique keys and the same elements sort to the same list, whatever their order |
| Escaping.EscapeSlash | main.go:133-141 | definition, no contract: the four replace passes applied in order; its properties are the lemmas below |
| Escaping.EscapeSlashNested | main.go:133-141 | the pass table applies exactly the four nested replace calls, in the source's order |
| Escaping.EscapeSlashKeeps | main.go:133-141 | every character other than newline, carriage return, tab and double quote, backslash included, comes out of escapeSlash unchanged |
| Escaping.EscapeSlashConcat | main.go:133-141 | escaping distributes over concatenation |
| Escaping.ReplaceAbsent | main.go:137-140 | replacing a character that does not occur changes nothing |
| Escaping.ReplaceSingle | main.go:137-140 | a one-character string is replaced exactly when it is the pattern |
| Escaping.EscapeSlashChar | main.go:133-141 | one character escapes as the per-character map says |
| Escaping.EscapeSlashIsCharMap | main.go:133-141 | the four sequential passes equal the single per-character escape map |
| Escaping.EscapeSlashNoControl | main.go:133-141 | the escaped text holds no raw newline, carriage return or tab |
| Escaping.EscapeMapNoControl | main.go:133-141 | the per-character map leaves no raw newline, carriage return or tab |
| Escaping.EscapeSlashLength | main.go:133-141 | the escaped length is the input length plus the number of newlines, carriage returns, tabs and double quotes |
| Escaping.EscapeMapLength | main.go:133-141 | the same length count for the per-character map |
| Escaping.UnescapeEscapeChar | main.go:133-141 | reading back one escaped non-backslash character gives the character |
| Escaping.UnescapeEscapeSlash | main.go:133-141 | a field without backslashes reads back unchanged from its escape |
| Escaping.UnescapeEscapeMap | main.go:133-141 | the same round trip for the per-character map |
| Escaping.EscapeSlashCollides | main.go:133-141 | a newline and the two characters `\`, `n` escape to the same text, since the backslash is not escaped |
| PoFormat.Layout | main.go:149-153 | definition, no contract: the literal block layout around its three fields |
| PoFormat.Block | main.go:148-153 | definition, no contract: the block of one element, each field escaped |
| PoFormat.PoText | main.go:148-154 | definition, no contract: the blocks of the elements in order; its properties are the PoText lemmas below |
| PoFormat.Poify | main.go:144-156 | the array ends sorted and a rearrangement of the input, and the output is the blocks of the sorted elements in order |
| PoFormat.PoTextConcat | main.go:148-154 | the text of two lists is the text of one then the other |
| PoFormat.PoTextSingle | main.go:149-153 | a single element gives exactly its block |
| PoFormat.PoTextAt | main.go:148-154 | element `i` is the `i`-th block, between the blocks before and after it |
| PoFormat.PoTextEmpty | main.go:144-156 | the output is empty exactly when the input is |
| PoFormat.LayoutLineBreaks | main.go:149-153 | the block layout adds four line breaks to its fields' |
| PoFormat.LiteralLineBreaks | main.go:149-153 | the fixed text of the block layout holds four line breaks: one after the context, one after the id, two after the translation |
| PoFormat.BlockLineBreaks | main.go:149-153 | each block holds exactly four line breaks, as the escaped fields hold none |
| PoFormat.PoTextLineBreaks | main.go:144-156 | the output holds four line breaks per element |
| PoFormat.PoifyDeterministic | main.go:145 | two rearrangements of one list with unique keys sort to the same list and give the same text |
| PoParse.JoinForms | main.go:118-124 | definition, no contract: each form's text, preceded by `" \| "` when its index is not 0; see the two lemmas below |
| PoParse.MessageElements | main.go:113-127 | definition, no contract: one element per message with a non-empty id, see MessageElementsMembers |
| PoParse.ContextElements | main.go:112-128 | definition, no contract: the elements of all contexts in visiting order, see ContextElementsMembers |
| PoParse.Elements | main.go:106-128 | definition, no contract: nothing on a decode failure, else the elements of the contexts |
| PoParse.JoinFormsInOrder | main.go:118-124 | forms visited in index order give their texts joined by `" \| "` in order |
| PoParse.JoinFormsOutOfOrder | main.go:119-124 | the separator depends on the form's index, not its position: forms visited as 1, 0 give `" \| ba"` |
| PoParse.ParsePO | main.go:106-129 | the loops build exactly the elements of the decoded catalogue, in visiting order, and nothing on a decode failure |
| PoParse.MessageElementsMembers | main.go:113-127 | an element of one context is exactly a message with a non-empty id and its joined forms |
| PoParse.ContextElementsMembers | main.go:112-128 | an element is exactly a (context, non-empty id) pair with its joined forms |
| PoParse.ElementsNonEmptyIds | main.go:114-116 | no element has an empty id |
| PoParse.MessageElementsUnique | main.go:113-127 | distinct ids give one element each |
| PoParse.ElementsUniqueKeys | main.go:112-128 | a catalogue decoded from maps parses to a list with unique `(Context, Id)` keys |
| PoParse.ContextElementsUnique | main.go:112-128 | distinct contexts with distinct ids give unique keys |
| Merging.Merged | main.go:231-241 | definition, no contract: the base list with each translation merged; its properties are the Merged lemmas below |
| Merging.MergedStr | main.go:233-238 | the last target element with the base key gives the translation, or the base's own when none has the key |
| Merging.MergeElements | main.go:231-241 | the nested loop builds the merged list |
| Merging.Merge | main.go:228-243 | the output is the PO text of the sorted merged list |
| Merging.MergedKeepsBaseKeys | main.go:232-241 | the merged list has the base's length and its `(Context, Id)` at every position |
| Merging.MergedDropsTargetOnly | main.go:232-241 | a key only the target has never appears |
| Merging.MergedFallback | main.go:233 | a base element no target matches keeps its own translation |
| Merging.MergedOverride | main.go:234-238 | the last matching target element gives the translation |
| Merging.MergedOverrideUnique | main.go:234-238 | with unique target keys, the matching target element gives the translation, in any visiting order |
| Merging.MergedUniqueKeys | main.go:232-241 | merging keeps the base's key uniqueness |
| Merging.MergedStrSameElements | main.go:234-238 | with unique target keys, a base element's translation depends only on which elements the target holds |
| Merging.MergedMembers | main.go:232-241 | an element of the merged list is exactly a base element with its merged translation |
| Merging.MergeOrderIndependent | main.go:228-243 | for lists with unique keys, the sorted merged list depends only on which elements the base and target lists hold, not on their order |
| Merging.MergeGreeting | main.go:233-238 | a translated key takes the target text; with no target it keeps the base text |
| JsonFormat.JsonKey | main.go:189-192 | definition, no contract: the raw context without its leading dot, or else trimmed; see the JsonKey lemmas below |
| JsonFormat.ToJsonKey | main.go:172-178 | definition, no contract: trimmed, then without a leading dot |
| JsonFormat.Line | main.go:194 | definition, no contract: a tab, the quoted key, `": "`, the quoted escaped translation |
| JsonFormat.JsonText | main.go:182-201 | definition, no contract: empty for no elements, else the lines joined by `",\n"` between `"{\n"` and `"\n}"`; see JsonTextEmpty and Jsonify |
| JsonFormat.JoinStep | main.go:195-199 | joining one more line adds the separator and the line |
| JsonFormat.JsonHeadStep | main.go:194-199 | a line followed by `",\n"` extends what is written by one line |
| JsonFormat.JsonLastStep | main.go:194-197 | the last line followed by `"\n}"` completes the document |
| JsonFormat.Jsonify | main.go:181-202 | the array ends sorted and a rearrangement of the input; the output is empty for no elements, else `{`, the entry lines of the sorted elements joined by `,` and a line break, `}` |
| JsonFormat.WriteJson | main.go:186-201 | the writing loop produces exactly the document of the elements |
| JsonFormat.JsonTextEmpty | main.go:182-184 | the document is empty exactly when there are no elements |
| JsonFormat.JsonKeyDottedExamples | main.go:190-192 | a raw leading dot is dropped and trailing space kept |
| JsonFormat.JsonKeyPlainExample | main.go:189 | an untrimmed plain context is its own key |
| JsonFormat.JsonKeyTrimmedExample | main.go:189 | a context without a leading dot is trimmed on both sides |
| JsonFormat.JsonKeySpacedDotExample | main.go:189-192 | a dot behind a space stays in the key |
| JsonFormat.JsonKeyMatchesToJsonKey | main.go:172-178 | `toJsonKey` and Jsonify's rule agree on contexts without surrounding white space |
| JsonFormat.JsonKeyDiffersFromToJsonKey | main.go:172-178 | the two rules differ on `" .foo"` |
| JsonFormat.JsonKeyOfDotted | main.go:219 | a context built by JsonToPo reads back as its JSON key |
| JsonFormat.GoIndex | main.go:221 | definition, no contract: Go's `m[k]`, the empty string when `k` is absent |
| JsonFormat.JsonElements | main.go:216-224 | definition, no contract: one element per visited key; see JsonElementsMembers |
| JsonFormat.JsonToPo | main.go:204-226 | a base decode failure is returned first, then a target one; otherwise the PO text of the sorted elements built from the base keys |
| JsonFormat.JsonElementsUnique | main.go:216-224 | distinct base keys give unique element keys |
| JsonFormat.DistinctCardinality | main.go:217 | a list without repeats has as many distinct keys as entries |
| JsonFormat.JsonElementsMembers | main.go:216-224 | exactly one element per base key `k`: context `"." + k`, id the base value, translation the target value or `""` |
| JsonFormat.JsonElementsSameMembers | main.go:217 | two visiting orders give the same elements |
| JsonFormat.JsonToPoOrderIndependent | main.go:217-225 | the output does not depend on the order the base map is visited in |

## Left out

- `main` and `buildAllPoInPath` (main.go:14-87) only list a directory, read
  and write files, print progress and add the `export default` wrapper.
  That is file I/O, so they are not modelled.
- The PO grammar of gotext's `Po.Parse`, `MarshalBinary` and the gob
  decode (main.go:96-108) belong to a foreign library. The decoder's
  outcome is the input `PoParse.Decoding`: a failure, or the contexts with
  their ids and forms in visiting order.
- `json.Unmarshal` (main.go:208-214) is a foreign decoder. Its two
  outcomes are `Result` inputs of `JsonToPo`.
- `fmt.Sprintf` (main.go:149-153, main.go:194) is modelled as concatenation
  around the `%s` arguments. This is exact: neither format string holds a
  verb other than `%s`, and `Sprintf` never interprets its arguments, so a
  translation holding `%d` is copied as it is.
- Go's byte-wise string comparison and slicing is modelled on code points.
  Strings that are not valid UTF-8 are not modelled.
- The index type of the gotext forms is not visible from this file. The
  model gives each form an integer index and tests `index != 0` as the
  loop at main.go:120 does.
- Poify, Jsonify: the `bytes.Buffer` is modelled as a string that the loop
  appends to.
- Jsonify: an empty context makes the Go code panic on `Context[0]`. The
  model makes a non-empty context a precondition instead of modelling the
  panic.
- JsonFormat.JsonKey, JsonFormat.ToJsonKey: keys are not escaped, and the
  model does not escape them either. A key holding `"` gives JSON that does
  not parse. The model does not state what a JSON reader would make of it.
- ParsePO, Merge: the translation of a message with several forms depends
  on the order its forms are visited in, because the separator is chosen by
  the form's index, not its position (main.go:119-124). Forms visited as
  1, 0 give `" | ba"` where 0, 1 give `"a | b"` (`PoParse.JoinFormsOutOfOrder`,
  `PoParse.JoinFormsInOrder`). So the model does not promise that ParsePO
  or Merge is independent of that order; the order independence it proves
  is for the order of the elements.
- Merge: the output is stated for a base catalogue whose keys are unique,
  which every decoded catalogue has. Lists that repeat a key are not
  covered by its postcondition.
