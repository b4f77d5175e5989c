# Parameter binder of the SPARQL named-query service

This project models the parameter binder of `SparqlNamedQueryService`. The
binder takes the text of a stored SPARQL query template and a dictionary of
parameters. It produces the query text that the service sends to the endpoint.

The binder walks the dictionary in enumeration order. It looks at the runtime
shape of each value:

- a sequence of strings becomes SPARQL literals, formatted by dotNetRDF's
  `SparqlFormatter` and joined by single spaces;
- a sequence of `Uri`s becomes IRIs, each enclosed in `<` `>`, joined by
  single spaces;
- `null` becomes the keyword `undef` (inline-data `UNDEF`, SPARQL 1.1 Query
  Language, section 10.2);
- any other shape is skipped.

For each entry it handles, the binder rewrites the current command text with
`String.Replace("@" + key, …)`. That is an ordinal, left-to-right,
non-overlapping replacement of every occurrence. Later entries act on the text
that earlier ones produced.

Files:

- `wrappers.dfy`: `Option`, which models a reference that may be null (the
  dictionary itself).
- `text.dfy`: the .NET string operations the binder relies on. `ReplaceAll`
  follows the scan of `String.Replace`, and `Join` is `string.Join`. `SplitOn`
  is a separate definition of what a replacement means: it cuts a text into
  the pieces between the greedy occurrences of a pattern. The lemmas prove that
  `String.Replace` equals splitting and then joining with the replacement, and
  that the greedy split is unique. So nothing outside the rewritten
  occurrences changes. The lemmas also prove the length change, the identity
  cases, and when a replacement leaves its input unchanged (both directions).
- `formatting.dfy`: rendering of values. The formatter's literal quoting and
  its IRI escaping are library code, so they are function fields of
  `Formatter` and the model puts no constraint on them. The model does give
  the `<`…`>` enclosure and the space-joining. It also proves that a rendered
  URI list splits back on single spaces into one well-formed `IRIREF`
  (SPARQL 1.1, section 19.8) per URI, under two conditions: the list is not
  empty, and the escaper emits only characters allowed inside an `IRIREF`.
  The real formatter may emit characters outside that set, such as `\`, and
  then the read-back is not claimed.
- `binder.dfy`: the parameter values (`ParamValue`) and the pure
  specification (`ApplyEntry`, `ApplyAll`, `Bind`). The mutable
  `ParameterizedString` is a class whose `commandText` field the methods
  `SetLiterals`, `SetUris` and `SetUndef` reassign in place.
  `SetQueryParameters` is the `foreach` loop over the entries, proved against
  `Bind`. The binder file also holds the lemmas about each kind of entry, about
  sequencing and identity, and about order dependence.

Three behaviours of the binder follow from the code and are easy to miss:

- Order matters beyond keys that are prefixes of each other. Each replacement
  rescans the whole current text. That includes text inserted for earlier
  entries, and new occurrences that form across the edge of an inserted value.
  See `PrefixKeyHazard`, `LaterEntriesRewriteInsertedText` and
  `UndefMayLeaveLookalike`.
- The placeholder of a key that is absent from the dictionary can still be
  rewritten, when a present key is a prefix of the absent one. With only `x`
  bound, `@xy` becomes `undefy` (`ShorterKeyFirst`, via `PrefixKeyHazard`).
- Each URI goes through the formatter's own IRI escaping before it is enclosed
  in `<` `>`. The model keeps that escaping abstract.

## Model

| member | source | states |
|---|---|---|
| `Text.ReplaceAll` | SparqlNamedQueryService.cs:94 | the definition of ordinal `String.Replace`: scan left to right, rewrite an occurrence at the current position and resume after it, otherwise keep one character; a text shorter than the pattern, or a replacement equal to the pattern, gives the text back |
| `Text.Join` | SparqlNamedQueryService.cs:94 | the definition of `string.Join`: the elements in order with the separator between each two neighbours, and the empty text for no elements |
| `Text.JoinEnds` | SparqlNamedQueryService.cs:94 | a non-empty join begins with its first element and ends with its last |
| `Text.SplitOn` | SparqlNamedQueryService.cs:94 | the greedy pieces between occurrences: joined with the pattern they give the text back, and no occurrence of the pattern starts inside a piece |
| `Text.ReplaceAllIsJoinOfSplit` | SparqlNamedQueryService.cs:94 | `String.Replace` yields the greedy pieces of the text, in order and unchanged, with the replacement where each occurrence was; nothing else changes |
| `Text.SplitOnUnique` | SparqlNamedQueryService.cs:94 | any list of pieces that joins back to the text and has no occurrence starting in a piece is the greedy split, so split and join are inverse both ways |
| `Text.ContainsIffSplits` | SparqlNamedQueryService.cs:94 | the pattern occurs in the text if and only if at least one occurrence is rewritten |
| `Text.JoinLength` | SparqlNamedQueryService.cs:94 | the length of `string.Join` is the total length of the pieces plus one separator length per pair of neighbours |
| `Text.ReplaceAllLength` | SparqlNamedQueryService.cs:102 | the length changes by the difference between the replacement and the pattern, once per rewritten occurrence |
| `Text.ReplaceAllDeletes` | SparqlNamedQueryService.cs:94 | replacing with the empty join deletes each occurrence: the pieces are concatenated and the text shrinks by the pattern length per occurrence |
| `Text.ReplaceAllUnchangedIff` | SparqlNamedQueryService.cs:107 | the replacement returns its input exactly when the pattern is absent or the replacement equals the pattern |
| `Text.ReplaceAllChanges` | SparqlNamedQueryService.cs:107 | rewriting at least one occurrence with a different text changes the text |
| `Text.ReplaceAllAbsent` | SparqlNamedQueryService.cs:107 | a text without an occurrence of the placeholder is left as it is |
| `Text.ReplaceAllSkipsSigilFree` | SparqlNamedQueryService.cs:94 | a prefix that does not contain the placeholder's first character passes through unchanged, and the replacement applies to the rest |
| `Text.ReplaceAllFirstAfter` | SparqlNamedQueryService.cs:94 | the first occurrence after a prefix free of `@` is rewritten, and scanning resumes after it |
| `SparqlFormatting.FormatUri` | SparqlNamedQueryService.cs:102 | one URI as the formatter writes it: the escaped text between `<` and `>`, two characters longer than the escaped text |
| `SparqlFormatting.RenderLiterals` | SparqlNamedQueryService.cs:94 | the formatted literals joined by single spaces; no values give the empty text, and the first formatted literal begins the result |
| `SparqlFormatting.RenderUris` | SparqlNamedQueryService.cs:102 | the formatted URIs joined by single spaces; no URIs give the empty text, and otherwise the result begins with `<` and ends with `>` |
| `SparqlFormatting.RenderUrisReadsBack` | SparqlNamedQueryService.cs:97-103 | when the escaper emits only IRIREF characters, the joined URIs split on single spaces into one well-formed `<…>` token per URI, in order |
| `NamedQuery.Substitution` | SparqlNamedQueryService.cs:71-82 | the type dispatch: a string sequence gives its rendered literals, a `Uri` sequence its rendered URIs, null gives `undef`; exactly the other shapes give nothing |
| `NamedQuery.ApplyEntry` | SparqlNamedQueryService.cs:71-82 | one entry's effect on the command text: every `@key` replaced by the entry's substitution; an entry of another shape, or a text shorter than the placeholder, is left as it is |
| `NamedQuery.ApplyAll` | SparqlNamedQueryService.cs:69-83 | the entries applied first to last, each to the text the earlier ones produced; no entries leave the text, one entry acts as `ApplyEntry` |
| `NamedQuery.Bind` | SparqlNamedQueryService.cs:65-86 | the query text for a template and a possibly null dictionary; a null or empty dictionary gives the template back |
| `NamedQuery.ParameterizedString.ToString` | SparqlNamedQueryService.cs:86 | the string form of the parameterized query is its command text |
| `NamedQuery.ParameterizedString.constructor` | SparqlNamedQueryService.cs:58 | a new parameterized string holds the template text as its command text |
| `NamedQuery.SetLiterals` | SparqlNamedQueryService.cs:89-95 | the new command text is the old one with every `@parameter` replaced by the formatted literals joined by spaces |
| `NamedQuery.SetUris` | SparqlNamedQueryService.cs:97-103 | the new command text is the old one with every `@parameter` replaced by the bracketed URIs joined by spaces |
| `NamedQuery.SetUndef` | SparqlNamedQueryService.cs:105-108 | the new command text is the old one with every `@parameter` replaced by `undef` |
| `NamedQuery.SetQueryParameters` | SparqlNamedQueryService.cs:65-87 | the returned text and the new command text are the entries applied in order to the old text; a null dictionary returns the text unchanged |
| `NamedQuery.QueryStringFromTemplate` | SparqlNamedQueryService.cs:50-63 | the query text for a template is the template with the dictionary bound to it, and the template itself when the dictionary is null |
| `NamedQuery.OtherEntryIgnored` | SparqlNamedQueryService.cs:69-83 | entries that are neither string sequences, `Uri` sequences nor null leave the command text unchanged |
| `NamedQuery.OtherEntryAnywhere` | SparqlNamedQueryService.cs:69-83 | an entry of another shape can be removed from any position of the dictionary without changing the result |
| `NamedQuery.UndefEntryEffect` | SparqlNamedQueryService.cs:79-81 | a null entry keeps every piece between the occurrences of `@key` and turns each occurrence into `undef`; in the input, no occurrence of `@key` starts inside a piece |
| `NamedQuery.UndefMayLeaveLookalike` | SparqlNamedQueryService.cs:105-108 | binding `u` to null in `@@u` gives `@undef`, which again contains `@u` |
| `NamedQuery.LiteralsEntryEffect` | SparqlNamedQueryService.cs:71-73 | a string-sequence entry turns each occurrence of `@key` into the formatted literals joined by single spaces and keeps the rest |
| `NamedQuery.EmptyLiteralsDeletePlaceholder` | SparqlNamedQueryService.cs:89-95 | an empty string sequence deletes every occurrence of `@key`: the pieces are concatenated and the text shrinks by the placeholder length per occurrence |
| `NamedQuery.UrisEntryEffect` | SparqlNamedQueryService.cs:75-77 | a `Uri`-sequence entry turns each occurrence of `@key` into the URIs, each as `<` escaped text `>`, joined by single spaces, and keeps the rest |
| `NamedQuery.ApplyAllAppend` | SparqlNamedQueryService.cs:69 | entries act one after another: binding `first + second` is binding `second` to the result of binding `first` |
| `NamedQuery.FullyBoundUnchanged` | SparqlNamedQueryService.cs:65-86 | a text in which no entry's placeholder occurs is returned unchanged |
| `NamedQuery.NoSigilTemplateUnchanged` | SparqlNamedQueryService.cs:65-86 | a template without `@` is returned unchanged for every dictionary, null or not |
| `NamedQuery.PrefixKeyHazard` | SparqlNamedQueryService.cs:69-83 | with keys `x` and `xy` both null, `@xy` becomes `undefy` when `x` comes first and `undef` when `xy` comes first |
| `NamedQuery.ShorterKeyFirst` | SparqlNamedQueryService.cs:107 | replacing `@x` rewrites the `@x` prefix of `@xy` to `undefy`; a later `@xy` then finds nothing |
| `NamedQuery.LongerKeyFirst` | SparqlNamedQueryService.cs:107 | replacing `@xy` first gives `undef`; a later `@x` then finds nothing |
| `NamedQuery.LaterEntriesRewriteInsertedText` | SparqlNamedQueryService.cs:69-83 | the URI `http://ex/@y`, inserted for `@x`, is rewritten by a later null `y` into `<http://ex/undef>`, although `x` is not a prefix of `y` |
| `NamedQuery.TwoLiteralsExample` | SparqlNamedQueryService.cs:94 | `["a","b"]` bound to `@x` in `SELECT @x` gives `SELECT ` + literal(a) + ` ` + literal(b) |
| `NamedQuery.OneUriExample` | SparqlNamedQueryService.cs:102 | `["http://ex/1"]` bound to `@x` in `SELECT @x` gives `SELECT <` + escaped IRI + `>` |

## Left out

- Service construction (SparqlNamedQueryService.cs:26-30) is left out. It reads the endpoint URI from configuration and creates the remote endpoint and connector, which is network client setup.
- `GetGraph` (SparqlNamedQueryService.cs:33-36) is left out. It sends the bound query to the remote endpoint, and its result depends on that endpoint.
- `GetSparqlResultSet` (SparqlNamedQueryService.cs:39-42) is left out. It only throws `NotImplementedException`.
- `Dispose` (SparqlNamedQueryService.cs:45-48) is left out. It is resource teardown.
- Loading the template from an embedded resource stream (SparqlNamedQueryService.cs:54-60) is left out because it is I/O. `QueryStringFromTemplate` takes the template text as a parameter instead.
- ISparqlNamedQueryService.cs is left out. It declares an interface and holds no logic.
- The internals of dotNetRDF's `SparqlFormatter` and `NodeFactory` are library code. The model does not fix how a literal is quoted and escaped, or how IRI text is escaped. Which string form of a `Uri` the formatter uses is also part of that abstract escaping.
- `SparqlParameterizedString.ToString()` is modelled as returning the command text. The binder sets none of the library's own parameters, namespaces or base IRI, and the library's handling of those is not part of this model.
- The runtime type tests are reduced to the four `ParamValue` shapes. A value that is both an `IEnumerable<string>` and an `IEnumerable<Uri>` takes the string branch, as in the code. An `IEnumerable<object>` that holds strings is "other". Null elements inside a sequence are not modelled; the formatter would reject them.
- The order of the dictionary is the order of the entry sequence. For a .NET `IDictionary`, that order is up to the implementation.
- `String.Replace` throws on an empty pattern. That path cannot be reached here, because the placeholder always starts with `@`.
- UndefEntryEffect: it states that in the input no occurrence of `@key` starts inside a piece, so the occurrences rewritten are exactly the greedy ones. It states nothing about occurrences in the result. The result need not be free of `@key`: `UndefMayLeaveLookalike` shows that `@@u` becomes `@undef`.
- No lemma states that the placeholder of an absent key is left untouched. That does not hold when a present key is a prefix of the absent one: `ShorterKeyFirst` shows `@xy` becoming `undefy` with only `x` bound.
- No lemma states that the order of keys that are not prefixes of each other is irrelevant. That does not hold either, because later entries rescan inserted text (`LaterEntriesRewriteInsertedText`).
