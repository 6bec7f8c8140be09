# Atlas core of the Scaife Viewer backend, in Dafny

This project models the computing core of the `atlas` package of the
Scaife Viewer backend and proves properties of it. The core has four parts.

- **Tokenization.** `Token.get_word_value` and `Token.tokenize` cut a text
  part into whitespace pieces. Each piece becomes a token with a word value,
  a position, a `ve_ref`, an idx drawn from a shared counter, and a CTS
  subreference `word[n]`. `tokenize_text_parts` runs this over every
  lowest-level text part of a version. With `force` it first deletes every
  token whose text part URN contains the version URN, ignoring case, which
  can also hit the tokens of other versions.
- **The materialized-path node tree.** The model covers `Node.label`,
  `lowest_citable_part`, `get_descendants`, `get_children` and
  `get_refpart_siblings` over a path-ordered node store. `Node.dump_tree`
  builds the nested `{data, children}` forest in one pass with a path index.
- **Schema helpers.**
  - `TextAlignmentMetadata`'s passage references, which cover
    `get_passage_reference`, `generate_passage_reference` and
    `passage_references`.
  - `TextPartFilterSet.reference_filter`.
  - `initialize_passage`.
  - `_crush_sense`, which rewrites a dumped sense tree into an id-only tree.
- **The metrical short form.** `MetricalAnnotation.generate_short_form`
  writes a line's feet as `|`-headed groups of syllables with `:`, `/` and
  space marks.

The modules are:

- `Common`: Option, Result and filters.
- `Strings`: split, join, count, prefix and substring tests, lower-casing,
  digits, whitespace pieces and lexicographic order.
- `NodeTree`, `DumpTree`, `Tokens`, `Tokenizers`, `Metrical`, `Alignment`
  and `Schema`.

Code that updates state step by step is modelled as methods, with loops
where the source loops:

- the token loop and its substring-counting inner loops;
- the per-version driver, over a `TokenStore` class whose token table it
  reassigns;
- the single pass of `dump_tree`;
- the short-form loops;
- the reference loop of `passage_references`;
- `initialize_passage`, over a `GqlContext` class.

Each loop method is proved against a specification function. The properties the
source promises are then proved as lemmas about those functions.
`Schema.InitializePassage` has no loop; its contract states the new
`GqlContext` state directly.

The subreference count follows the code, not the plain reading of the CTS
subreference convention. `n` counts how often the word value has occurred as
a contiguous substring, overlaps included, in the word values of this and
every earlier piece of the text part. It is not the number of earlier equal
words. So `a ab a` numbers its last `a` as `a[3]`. An empty word value, from a
piece without word characters, always gets `n = 0`
(`Tokens.PunctuationSubref`). For a non-empty word value the two counts
agree when no other word value so far contains it
(`Tokens.SubrefCountsEqualWords`).

## Model

| member | source | states |
|---|---|---|
| Tokens.WordValue | atlas/scaife_viewer/atlas/models.py:480-482 | the word value keeps only word characters and is no longer than the piece |
| Tokens.WordValueChar | atlas/scaife_viewer/atlas/models.py:480-482 | one character is kept exactly when it is a word character and removed otherwise; with WordValueAppend this fixes the word value of every string |
| Tokens.WordValueOfWords | atlas/scaife_viewer/atlas/models.py:480-482 | a string is its own word value if and only if all its characters are word characters |
| Tokens.WordValueIdempotent | atlas/scaife_viewer/atlas/models.py:480-482 | stripping non-word characters twice is stripping once |
| Tokens.WordValueAppend | atlas/scaife_viewer/atlas/models.py:480-482 | the word value of a concatenation is the concatenation of the word values |
| Tokens.CountSlices | atlas/scaife_viewer/atlas/models.py:501-503 | after the nested slice loops, every key's count has grown by exactly the number of non-empty slices of the word value equal to it, and no other count changed |
| Tokens.SubrefIndex | atlas/scaife_viewer/atlas/models.py:500-505 | the count `n` read for a token is 0 exactly when its word value is empty |
| Tokens.TokenAt | atlas/scaife_viewer/atlas/models.py:496-517 | the `k`-th token belongs to the part, holds the `k`-th piece and its word value, has position `k+1` and idx start plus `k` |
| Tokens.PartTokens | atlas/scaife_viewer/atlas/models.py:494-520 | a text part yields exactly one token per whitespace piece |
| Tokens.Tokenize | atlas/scaife_viewer/atlas/models.py:484-520 | returns the part's tokens in piece order: each has its piece, word value, `word[n]` subreference, position `k+1`, `ve_ref` `<ref>.t<k+1>` and idx counter-on-entry plus `k`; the counter ends advanced by the number of tokens |
| Tokens.PunctuationSubref | atlas/scaife_viewer/atlas/models.py:500-505 | a piece without word characters gets the empty word value and the subreference `[0]` |
| Tokens.PunctuationSubrefsCollide | atlas/scaife_viewer/atlas/models.py:500-505 | two punctuation-only pieces of one part (", ;") share the subreference `[0]` |
| Tokens.SubrefCountsEqualWords | atlas/scaife_viewer/atlas/models.py:500-504 | when the word value is non-empty and no other word value so far contains it, `n` equals the number of equal word values so far |
| Tokens.SubrefIndexIncreases | atlas/scaife_viewer/atlas/models.py:500-504 | a later occurrence of the same non-empty word value gets a strictly larger `n` |
| Tokens.SubrefValueInjective | atlas/scaife_viewer/atlas/models.py:505 | distinct (word value, count) pairs give distinct `word[n]` strings |
| Tokens.SubrefsUniqueForWords | atlas/scaife_viewer/atlas/models.py:496-516 | within one text part, tokens with non-empty word values have pairwise distinct subreferences |
| Tokens.RepeatedWordExample | atlas/scaife_viewer/atlas/models.py:500-505 | "a a b a" is numbered a[1], a[2], b[1], a[3] |
| Tokens.SubstringCountsExample | atlas/scaife_viewer/atlas/models.py:500-505 | "a ab a" is numbered a[1], ab[1], a[3]: the "a" inside "ab" counts |
| Tokens.OccurrencesOfSelf | atlas/scaife_viewer/atlas/models.py:502-504 | a non-empty word value occurs in itself exactly once |
| Tokens.OccurrencesWithoutContains | atlas/scaife_viewer/atlas/models.py:502-504 | a word value that does not contain the key adds nothing to its count |
| Strings.Pieces | atlas/scaife_viewer/atlas/models.py:494 | `split()` pieces are non-empty and contain no whitespace, and there are no more pieces than characters (none for the empty text) |
| Strings.PiecesSkipSpace | atlas/scaife_viewer/atlas/models.py:494 | a whitespace character before the text adds no piece, so leading and repeated whitespace only separate |
| Strings.PiecesOfRun | atlas/scaife_viewer/atlas/models.py:494 | a non-empty whitespace-free run ended by whitespace or the end of the text is exactly one piece, followed by the pieces of the rest |
| Strings.PiecesOfJoin | atlas/scaife_viewer/atlas/models.py:494 | splitting a single-space join of whitespace-free pieces gives back the pieces |
| Strings.NatToStringInjective | atlas/scaife_viewer/atlas/models.py:505 | distinct counts print as distinct decimal strings |
| Strings.SplitOn | atlas/scaife_viewer/atlas/models.py:342 | `str.split(c)` gives one more part than there are `c`, and no part contains `c` |
| Strings.JoinSplit | atlas/scaife_viewer/atlas/models.py:342 | joining the parts of a split with the separator gives back the string |
| Strings.SplitJoin | atlas/scaife_viewer/atlas/schema.py:219 | splitting a join of separator-free parts gives back the parts |
| Strings.Lower | atlas/scaife_viewer/atlas/tokenizers.py:13 | lower-casing keeps the length and maps every character |
| NodeTree.ParentPath | atlas/scaife_viewer/atlas/models.py:389 | the parent path is a strict prefix, one step shorter, one level shallower |
| NodeTree.Label | atlas/scaife_viewer/atlas/models.py:320-322 | the metadata label when present, otherwise the URN |
| NodeTree.LowestCitablePart | atlas/scaife_viewer/atlas/models.py:333-342 | none exactly for a falsy rank; otherwise a segment holding no dot |
| NodeTree.LowestCitablePartIsLastSegment | atlas/scaife_viewer/atlas/models.py:333-342 | none exactly for a falsy rank; otherwise a dot-free tail of `ref` that is all of `ref` or follows a dot |
| NodeTree.Descendants | atlas/scaife_viewer/atlas/models.py:409-421 | every descendant is a stored node other than the node itself (by primary key) whose path starts with the node's path |
| NodeTree.DescendantsAreStrictExtensions | atlas/scaife_viewer/atlas/models.py:409-421 | descendants are exactly the stored nodes whose path strictly extends the node's path (self excluded), in path order |
| NodeTree.Children | atlas/scaife_viewer/atlas/models.py:423-432 | every child is a stored node whose path strictly extends the node's path |
| NodeTree.ChildrenHaveParentPath | atlas/scaife_viewer/atlas/models.py:423-432 | children are exactly the stored nodes whose parent path is the node's path, in path order, and each is a descendant |
| NodeTree.RefpartSiblings | atlas/scaife_viewer/atlas/models.py:397-407 | none for a falsy rank; every sibling is a descendant of the version with the node's rank |
| NodeTree.RefpartSiblingsByRank | atlas/scaife_viewer/atlas/models.py:397-407 | none for a falsy rank; otherwise exactly the version's descendants with the same rank, whatever their parent, in path order |
| NodeTree.RefpartSiblingsCrossBooks | atlas/scaife_viewer/atlas/models.py:397-407 | lines 1.611 and 2.1 are refpart siblings although their parent paths differ |
| DumpTree.Kept | atlas/scaife_viewer/atlas/models.py:359-367 | the queryset keeps exactly the nodes under the root's path and no deeper than the bound, in path order |
| DumpTree.LastIdxIsLast | atlas/scaife_viewer/atlas/models.py:394 | the index holds a path exactly when an earlier node had it, and then holds the last such node |
| DumpTree.FirstOrphanIsFirst | atlas/scaife_viewer/atlas/models.py:389-390 | the first node whose parent path the index lacks, if there is one |
| DumpTree.PlaceNode | atlas/scaife_viewer/atlas/models.py:384-394 | one iteration fails with the parent path exactly for an orphan; otherwise the entries, top list and index are those after one more node |
| DumpTree.PlaceNodes | atlas/scaife_viewer/atlas/models.py:369-394 | the loop fails at the first orphan with its parent path, or ends with the specified entries and top list |
| DumpTree.DumpTreeSpec | atlas/scaife_viewer/atlas/models.py:345-395 | the result is ValueError with the given kind exactly when `up_to` is given and is not a node kind |
| DumpTree.DumpTree | atlas/scaife_viewer/atlas/models.py:345-395 | on a path-ordered store, as `get_tree()` gives, returns or raises exactly what the specification of the nested forest says: ValueError for an unknown `up_to`, KeyError for a missing parent, else the forest of the kept nodes |
| DumpTree.ArenaMatchesSpec | atlas/scaife_viewer/atlas/models.py:384-394 | the shared entries, once every child is appended, nest into exactly the specified subtrees |
| DumpTree.ArenaStepTop | atlas/scaife_viewer/atlas/models.py:386-387 | a top node adds one childless entry and changes no other entry |
| DumpTree.ArenaStepChild | atlas/scaife_viewer/atlas/models.py:389-393 | a child is appended to its parent's children only, and adds one childless entry |
| DumpTree.TopsAreTopNodes | atlas/scaife_viewer/atlas/models.py:386-387 | the top-level list holds exactly the top nodes, each once, in path order |
| DumpTree.ChildIdxAreChildren | atlas/scaife_viewer/atlas/models.py:389-393 | an entry's children are exactly the nodes placed under it, each once, in path order |
| DumpTree.PlacedExactlyOnce | atlas/scaife_viewer/atlas/models.py:384-394 | every kept node is placed once: top-level exactly when it is a top node, otherwise under exactly one earlier entry whose path is its path minus the last step |
| DumpTree.ChildrenKeyOnlyWhenAppended | atlas/scaife_viewer/atlas/models.py:391-393 | an entry has a `children` key exactly when some node was appended to it |
| DumpTree.NoMissingParent | atlas/scaife_viewer/atlas/models.py:389-390 | in a well-formed store with a stored root, the pass never raises KeyError |
| DumpTree.DumpTreeFailsOnlyOnUnknownKind | atlas/scaife_viewer/atlas/models.py:352-353 | in a well-formed store, `dump_tree` fails exactly when `up_to` is given and is not a node kind |
| DumpTree.TopsAreRootOrFirstLevel | atlas/scaife_viewer/atlas/models.py:386 | top-level entries are the depth-1 nodes without a root, and the root itself with one |
| Tokenizers.NodeByUrn | atlas/scaife_viewer/atlas/tokenizers.py:15 | succeeds exactly when one node has the URN, returning it; DoesNotExist exactly when none has it |
| Tokenizers.LowestKind | atlas/scaife_viewer/atlas/tokenizers.py:16 | the last entry of a present, non-empty citation scheme, and an error otherwise |
| Tokenizers.AfterReset | atlas/scaife_viewer/atlas/tokenizers.py:12-13 | without `force` nothing is deleted; with it exactly the tokens whose part URN contains the version URN, ignoring case |
| Tokenizers.ResetHitsLongerUrns | atlas/scaife_viewer/atlas/tokenizers.py:13 | the reset is a substring test: resetting "v1" deletes the tokens of "V10" |
| Tokenizers.TokenizePlan | atlas/scaife_viewer/atlas/tokenizers.py:15-17 | a failed URN lookup is the error, before the citation scheme is read; otherwise the only errors are a missing or empty citation scheme |
| Tokenizers.TextParts | atlas/scaife_viewer/atlas/tokenizers.py:16-17 | at most one text part per stored node; each is a descendant of the version of the lowest kind |
| Tokenizers.VersionTokens | atlas/scaife_viewer/atlas/tokenizers.py:18-21 | the parts' tokens, as many as the whitespace pieces over the parts |
| Tokenizers.TokenizeParts | atlas/scaife_viewer/atlas/tokenizers.py:18-21 | the loop yields the tokens of the parts in order, numbered from 0 by one shared counter |
| Tokenizers.TokenizeTextParts | atlas/scaife_viewer/atlas/tokenizers.py:11-22 | on a failed lookup the error, with only the reset applied; otherwise the kept tokens followed by the version's new tokens, and their number |
| Tokenizers.TextPartsAreLowestDescendants | atlas/scaife_viewer/atlas/tokenizers.py:16-17 | the tokenized parts are exactly the version's stored descendants of the lowest kind, in path order |
| Tokenizers.VersionTokensNumbering | atlas/scaife_viewer/atlas/tokenizers.py:18-22 | the number of tokens is the number of pieces over the parts; idx values run from the start without gaps; each token belongs to one of the parts |
| Tokenizers.VersionTokensBlocks | atlas/scaife_viewer/atlas/tokenizers.py:20-21 | each part's tokens form one contiguous block after those of every earlier part |
| Metrical.FootSize | atlas/scaife_viewer/atlas/models.py:196-201 | an `a` foot takes 3 syllables and every other foot 2 |
| Metrical.ShortForm | atlas/scaife_viewer/atlas/models.py:189-211 | at least one character per foot, and a non-empty foot code starts the form with the foot bar |
| Metrical.GenerateShortForm | atlas/scaife_viewer/atlas/models.py:189-211 | the loop over the foot code writes exactly the specified short form |
| Metrical.FootForm | atlas/scaife_viewer/atlas/models.py:202-210 | the inner loop writes the foot bar and then the syllables, each with its marks |
| Metrical.ConsumedCountsDactyls | atlas/scaife_viewer/atlas/models.py:196-201 | the feet consume 3 syllables per `a` and 2 per other foot |
| Metrical.Marks | atlas/scaife_viewer/atlas/models.py:204-209 | at most two mark characters; the first syllable of a foot gets only a caesura's `/` |
| Metrical.MarksAreMarks | atlas/scaife_viewer/atlas/models.py:204-209 | the marks before a syllable are mark characters only, hold no foot bar, and hold one `/` exactly for a caesura |
| Metrical.MarksWhen | atlas/scaife_viewer/atlas/models.py:204-209 | one space exactly for a word start (word position none or `r`) that is not first in its foot, written first; one `:` exactly for a later syllable without a caesura; the first syllable carries only a caesura's `/` |
| Metrical.ShortFormSpellsReadSyllables | atlas/scaife_viewer/atlas/models.py:195-210 | with the marks removed, the short form is the texts of the syllables the feet read, in order |
| Metrical.ShortFormBarPerFoot | atlas/scaife_viewer/atlas/models.py:195-202 | the short form holds one foot bar per foot |
| Metrical.ShortFormSlashPerCaesura | atlas/scaife_viewer/atlas/models.py:206-207 | the short form holds one `/` per caesura among the syllables read |
| Metrical.ShortFormExample | atlas/scaife_viewer/atlas/models.py:190-192 | the foot code "ab" over me, nin, a, ei, de (caesura before de) gives the two feet "me:nin :a" and "ei /de", each after a foot bar |
| Alignment.GetPassageReference | atlas/scaife_viewer/atlas/schema.py:486-492 | IndexError exactly for no text parts; otherwise the version URN, the first ref and, only when the last differs, `-` and the last ref |
| Alignment.PassageReferenceSplits | atlas/scaife_viewer/atlas/schema.py:486-492 | the reference starts with the version URN and its ref part splits at `-` back into the first ref, or the first and last refs |
| Alignment.SortByIdx | atlas/scaife_viewer/atlas/schema.py:496 | `order_by("idx")` is sorted by idx and a permutation of its input |
| Alignment.TokenList | atlas/scaife_viewer/atlas/schema.py:495-497 | the token list is sorted by idx and no longer than the tokens |
| Alignment.TokenListMembers | atlas/scaife_viewer/atlas/schema.py:495-497 | the token list holds exactly the tokens whose part URN starts with the version URN |
| Alignment.PartsWithTokens | atlas/scaife_viewer/atlas/schema.py:498-500 | no more parts than stored nodes; exactly the stored nodes that own one of the tokens |
| Alignment.PartsWithVersionTokens | atlas/scaife_viewer/atlas/schema.py:498-500 | the text parts are exactly the stored nodes owning a token of the version, in path order |
| Alignment.GeneratePassageReference | atlas/scaife_viewer/atlas/schema.py:494-505 | it fails only with IndexError |
| Alignment.GeneratedRange | atlas/scaife_viewer/atlas/schema.py:501-504 | `start_idx <= end_idx`; both are idx values of the version's tokens; every such token's idx lies between them |
| Alignment.GenerateFailsOnlyWithoutTokens | atlas/scaife_viewer/atlas/schema.py:494-505 | when every token's part is stored, generation fails exactly when the version has no token |
| Alignment.OtherVersions | atlas/scaife_viewer/atlas/schema.py:527 | exactly the alignment's versions whose URN differs from the anchor's, and no more of them than versions |
| Alignment.OtherVersionsKeepOrder | atlas/scaife_viewer/atlas/schema.py:527 | `exclude` keeps the alignment's order: the other versions of a concatenation are those of each half in turn, and one version stays exactly when its URN differs |
| Alignment.AlignmentByUrn | atlas/scaife_viewer/atlas/schema.py:526 | succeeds exactly when one alignment has the URN, returning it; DoesNotExist exactly when none has it |
| Alignment.ReferencesOf | atlas/scaife_viewer/atlas/schema.py:527-528 | the loop over the versions fails only with IndexError |
| Alignment.PassageReferencesSpec | atlas/scaife_viewer/atlas/schema.py:508-529 | empty without records; otherwise at least the anchor's reference; failures are IndexError or the alignment lookup's DoesNotExist or MultipleObjectsReturned |
| Alignment.PassageReferences | atlas/scaife_viewer/atlas/schema.py:508-529 | returns or raises exactly what the specification says |
| Alignment.GenerateEach | atlas/scaife_viewer/atlas/schema.py:527-528 | the loop yields the references of the versions in order, or the first failure |
| Alignment.ReferencesOfFailureStays | atlas/scaife_viewer/atlas/schema.py:527-528 | once one version fails, the loop's result is that failure |
| Alignment.ReferencesOfSuccess | atlas/scaife_viewer/atlas/schema.py:527-528 | a successful loop gives one reference per version, the `k`-th generated for the `k`-th version |
| Alignment.PassageReferencesShape | atlas/scaife_viewer/atlas/schema.py:508-529 | empty without records; otherwise the anchor's reference first, then one per version of the alignment whose URN differs from the anchor's, the `k`-th generated for the `k`-th other version |
| Schema.RangeQuery | atlas/scaife_viewer/atlas/schema.py:220-228 | the refs are `[start]`, plus `end` when non-empty; candidates are exactly the stored nodes under the version URN at depth "dotted segments of start plus one" |
| Schema.ReferenceFilterAsWritten | atlas/scaife_viewer/atlas/schema.py:217-230 | succeeds exactly when the ref holds exactly one `-` |
| Schema.AsWrittenRejectsSingleParts | atlas/scaife_viewer/atlas/schema.py:219 | every single-part passage reference (no `-`) is rejected |
| Schema.AsWrittenRejectsSingleRef | atlas/scaife_viewer/atlas/schema.py:219 | the ref "1.2" is rejected with ValueError |
| Schema.ReferenceFilter | atlas/scaife_viewer/atlas/schema.py:217-230 | succeeds exactly when the ref holds at most one `-` |
| Schema.ReferenceFilterExtendsAsWritten | atlas/scaife_viewer/atlas/schema.py:217-230 | where the filter as written succeeds, the corrected one gives the same query |
| Schema.ReferenceFilterAcceptsPassageReferences | atlas/scaife_viewer/atlas/schema.py:220-222 | every passage reference of stored refs is accepted and asks for exactly its first, and its last, ref |
| Schema.InitializePassage | atlas/scaife_viewer/atlas/schema.py:244-257 | stores the healed passage, returns its reference, and records the healed reference only when healing happened |
| Schema.CrushSense | atlas/scaife_viewer/atlas/schema.py:785-791 | a node without a `data` URN fails; a crushed node has no `data`, its `id` is the former URN, and it keeps its number of children |
| Schema.CrushSenses | atlas/scaife_viewer/atlas/schema.py:790-791 | a crushed list of children keeps its length |
| Schema.CrushSenseCorrect | atlas/scaife_viewer/atlas/schema.py:785-791 | succeeds exactly when every node has a `data` URN; then no node has `data`, the nesting and child order are unchanged, and node by node the `id` is the former URN |
| Schema.CrushSensesCorrect | atlas/scaife_viewer/atlas/schema.py:790-791 | the same for the loop over the children |

## Left out

- `tokenize_all_text_parts` is not modelled. It fans `tokenize_text_parts` out over a process pool, and its point is concurrency.
- Nullable node fields: the source allows null for `ref`, `text_content` and `metadata`. The model types them as a string and a metadata record, so a null is modelled as `""` or as metadata without a label or citation scheme. The AttributeError paths are not modelled: `tokenize` on a null text content, `label` on null metadata, and `lowest_citable_part` on a truthy rank with a null ref. `dump_tree` serializes a null ref or text content as `""`, not as null.
- ORM persistence is not modelled: `bulk_create` batching, `.delete()`, the stderr report and the database queries. Querysets are filters over sequences. The token table is a field of `TokenStore` that the driver reassigns.
- Strings.IsWordChar, Strings.IsSpace and Strings.LowerChar approximate `\w`, the whitespace of `str.split()` and `lower` by fixed character sets, not by the Unicode character database.
  - `IsSpace` is the ASCII whitespace, U+001C to U+001F, U+0085 and U+00A0. U+2009, U+3000 and the other Unicode spaces neither split pieces nor are removed from word values.
  - `IsWordChar` is every character from the space upward that is neither `IsSpace` nor in the listed ASCII punctuation, U+00B7, U+0387, U+037E and a few typographic marks in U+2010 to U+2026. So combining marks U+0300 to U+036F count as word characters, although `\w` strips them from decomposed Greek. Unlisted symbols such as « » § © count as word characters too.
  - `LowerChar` folds ASCII letters only.
  - Proofs use particular facts about the sets: SubrefValueInjective that `[` is not a word character, PiecesOfJoin that the space is whitespace. The concrete examples PunctuationSubrefsCollide, RepeatedWordExample, SubstringCountsExample and ResetHitsLongerUrns use ASCII characters, which the sets classify as Python does.
- The constants module is not part of this model. `CTS_URN_NODES` and `CTS_URN_DEPTHS` are one `kindDepths` map parameter: a kind is recognised exactly when it is a key.
- Treebeard's stored `depth` is not a separate field. It is derived from the path, as `dump_tree` itself derives it. `get_children`'s path interval is modelled as a prefix test at depth plus one.
- `serializers.serialize` and `camelize` are not modelled. A node's serialized fields are the `NodeData` record, which has no path, depth or numchild. Key renaming is not modelled.
- DumpTree.DumpTree: the shared dictionaries are modelled by an arena, and the nested value is built at the end. An entry's aliasing is captured by indices, not by references.
- Schema.CrushSenseCorrect: `_crush_sense` is modelled on values. The partial in-place change left behind when a KeyError is raised deep in the tree is not captured. An absent `children` key is the empty list. The other keys of `data` vanish with it, and `id` values are a small scalar type.
- `passage_heal` is a function parameter of `InitializePassage`. `extract_version_urn_and_ref` is not modelled: the version URN and the ref are inputs. `filter_via_ref_predicate` is not modelled: the filter returns the candidates and the refs it would apply.
- Tokenizers.TokenizeTextParts: `force` is a required argument. The source defaults it to True, and `tokenize_all_text_parts`, which is not modelled, passes its `reset` argument, which defaults to False.
- The alignment-record relation query is the `tokens` parameter of the passage-reference members.
- `generate_html`, the `resolve_references` methods, `lemma_filter`, hookset calls and the GraphQL glue are not modelled: they are presentation, persistence or foreign code.
- Metrical: a syllable record is typed. A missing `word_pos`, `caesura` or `text` key is not modelled.

## Findings

| source | as written | input that shows it | evidently intended | confidence | as-written member | corrected member |
|---|---|---|---|---|---|---|
| atlas/scaife_viewer/atlas/schema.py:219 | `start, end = ref.split("-")` unpacks exactly two parts, so a ref without `-` raises ValueError | the ref `1.2`, or any passage reference of a single text part | a single ref is a range from it to nothing, as the `if end:` branch on line 221 expects | medium, not executed | Schema.ReferenceFilterAsWritten, Schema.AsWrittenRejectsSingleRef | Schema.ReferenceFilter, Schema.ReferenceFilterAcceptsPassageReferences |
