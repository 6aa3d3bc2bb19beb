# Fairy-tale corpus: index, search and annotation clean-up in Dafny

This project models the data-shaping core of a small web application for a
corpus of annotated Russian fairy tales, and of the script that produced the
corpus file.

From `app.py` it models:

- the tale index, keyed by stripped id, and its size `TOTAL_TALES`;
- the per-url entity lists and the normaliser that keeps only PER and LOC
  tags, as `"per"` and `"loc"`;
- the paginated key list and the page count of the index page;
- lookup of one tale by trimmed id;
- the `/search` handler: exact-lemma search and entity search, both
  de-duplicated on sentence text.

From `relemmatize_spacy.py` it models:

- `parse_title`: the first non-blank dot-separated piece as title, and the
  collector and translator read by regular expressions;
- `clean_content`: cut at the share-button marker, drop everything up to the
  last publication stamp, strip;
- the mapping of named-entity labels to `"per"` and `"loc"`.

Modules, one per file:

| file | module | what it holds |
|---|---|---|
| `wrappers.dfy` | `Wrappers` | `Option` |
| `text.dfy` | `Text` | `strip`, `lower`, `upper`, `in`, `find`, `split`, whitespace runs |
| `dict.dfy` | `Dict` | an insertion-ordered dict and the comprehension `{k: v for ...}` |
| `corpus.dfy` | `Corpus` | tales, entities, the two indexes, the normaliser, lookup |
| `paging.dfy` | `Paging` | Python slicing, `paginate`, the page count |
| `search.dfy` | `Search` | both searches as functions: a candidate stream, then the seen-set pass |
| `search_loops.dfy` | `SearchLoops` | the handler's nested loops, proved equal to the functions |
| `title.dfy` | `TitleParse` | `parse_title`, with the regular expression as a backtracking scan |
| `content.dfy` | `ContentClean` | `clean_content` |
| `ner.dfy` | `NerLabels` | the label mapping of the annotation script |

Each search is a function in two stages. The first stage lists candidate
hits: every tale in index order, every sentence in order, one hit per
sentence that matches. The second stage, `Emit`, keeps a candidate only when
its sentence text has not been reported yet. The methods in `SearchLoops`
are the loops as written, with `break` and the shared `seen` set. Each is
proved to return exactly the function's result.

Behaviour of the code that a reader might not expect, all stated in the
contracts:

- The entity classes are the strings `"per"` and `"loc"`. A filter such as
  `"person"` or `"location"` therefore finds nothing (`UnknownFilterFindsNothing`).
- The server's normaliser keeps only PER and LOC, in any ASCII casing. PERSON
  and GPE are dropped, although the annotation script maps them to per and loc
  (`MapLabelExtendsClassifyTag`).
- The search mode is compared exactly. The filter is lower-cased.
- A lemma hit carries the tale's stored id, which may be unstripped. An
  entity hit carries the stripped url it was found under.
- Entity search walks the entity file's order, not the corpus order.
- Page 0 is empty. A negative page does not fail: Python's negative slice
  bounds wrap around (`NonPositivePages`).
- When two tales share a stripped id, the later one wins. The key keeps the
  position of its first appearance.
- A group without an `"entities"` key gets an empty list.

## Model

| member | source | states |
|---|---|---|
| Text.Strip | app.py:17 | `str.strip()` returns a text with no whitespace at either end |
| Text.StripPadded | app.py:63 | the stripped text is the argument minus whitespace before and after it; with `Trimmed` this fixes the result uniquely |
| Text.StripUnique | app.py:63 | there is only one trimmed text that the argument pads with whitespace |
| Text.StripEmpty | relemmatize_spacy.py:14 | `strip()` gives `""` exactly when the argument is all whitespace |
| Text.StripIdempotent | app.py:17 | stripping twice is stripping once |
| Text.Find | relemmatize_spacy.py:29 | the first offset where the pattern occurs, and none exactly when it does not occur |
| Text.SplitJoin | relemmatize_spacy.py:14 | joining the pieces of `split('.')` with the separator gives back the text |
| Text.LowerIdempotent | app.py:87 | lower-casing a lower-cased text again changes nothing |
| Dict.FromPairs | app.py:17 | a dict comprehension has exactly the keys of its pairs, and each key holds the value of its last pair |
| Dict.FromPairsOrder | app.py:17 | the dict lists its keys in the order of their first appearance |
| Dict.FromPairsSize | app.py:18 | `len` of the dict is the number of distinct keys |
| Corpus.ClassifyTagCases | app.py:32-37 | a tag is kept as per or loc exactly when it is an ASCII casing of PER or LOC; every other tag is dropped |
| Corpus.ClassifyTagExamples | app.py:32-37 | "per" and "Loc" are kept; "PERSON" and "GPE" are dropped |
| Corpus.NormalizeEntity | app.py:29-38 | one raw item is kept exactly when it is a two-element list with a known tag; its text is kept verbatim |
| Corpus.NormalizeEntities | app.py:27-38 | the list holds every kept item and nothing else |
| Corpus.NormalizeEntitiesAppend | app.py:28-38 | normalising distributes over concatenation, so kept items keep their order |
| Corpus.NormalizeEntitiesEmpty | app.py:28-38 | a group whose items are all rejected gets the empty list |
| Corpus.BuildTaleIndex | app.py:17 | the index keys are exactly the stripped ids |
| Corpus.TaleIndexLast | app.py:17 | a tale is the value of its stripped id when no later tale shares that id |
| Corpus.TaleIndexValues | app.py:17 | every key holds a corpus tale whose stripped id is that key |
| Corpus.TotalTalesCountsIds | app.py:18 | `TOTAL_TALES` is the number of distinct stripped ids |
| Corpus.TaleIndexOrder | app.py:17 | the index lists the stripped ids in the order each first appears in the corpus |
| Corpus.KeysAreStripped | app.py:17 | every index key is already stripped |
| Corpus.BuildEntityIndex | app.py:24-26 | the entity index keys are exactly the stripped urls |
| Corpus.EntityIndexLast | app.py:25-39 | a url holds the normalised list of the last group with that url; a missing "entities" key gives an empty list |
| Corpus.EntityIndexOrder | app.py:25-39 | the entity index lists the stripped urls in the order each first appears in the file |
| Corpus.Lookup | app.py:63-65 | a lookup strips the requested id; it finds a tale exactly when the stripped id is a key |
| Corpus.LookupCorpus | app.py:63-65 | a request is answered exactly when its stripped form is some tale's stripped id; the answer has that stripped id and is the last tale with it |
| Corpus.LookupKey | app.py:63-65 | every stripped id, which is an index key, requested as it is, finds the tale stored under it |
| Paging.PySlice | app.py:44 | Python slicing with non-negative bounds is the part between them, cut at the end |
| Paging.Paginate | app.py:42-44 | page `p >= 1` holds the items from `(p-1)*per_page` on, at most `per_page` of them |
| Paging.PageCount | app.py:57 | `(total + 9) // 10` is the least number of ten-item pages holding every item |
| Paging.PagesArePrefix | app.py:42-44 | the first `k` pages together are the first `k * per_page` items |
| Paging.AllPagesReproduce | app.py:50-57 | pages 1 to the page count, concatenated, give back the key list with no gap or repeat |
| Paging.NonPositivePages | app.py:42-44 | page 0 is empty; page -1 of 25 items is items 5 to 14 |
| Search.EmitSpec | app.py:92-93 | the seen-set pass keeps unseen candidates only, no text twice, and the first candidate of every unseen text |
| Search.EmitContexts | app.py:119-120 | the texts reported are the candidates' texts minus those already seen |
| Search.EmitIsSubsequence | app.py:92-94 | the pass keeps candidates in their order |
| Search.EmitAppend | app.py:75 | one seen set shared across tales: the pass over two streams is the pass over the first, then over the second with the first's texts seen |
| Search.EmitIsFirsts | app.py:92-94 | the pass keeps exactly the candidates whose text is unseen and carried by no earlier candidate, in candidate order |
| Search.LemmaHitsInSpec | app.py:89-100 | a tale's candidates are exactly its sentences with a token of that lemma |
| Search.LemmaHitsInSnoc | app.py:89-100 | one more sentence adds at most one candidate, after the earlier ones: its hit when it holds the lemma, nothing otherwise |
| Search.LemmaCandidatesSpec | app.py:88-100 | the candidates of a key list are sound, and every matching sentence of those tales is a candidate |
| Search.LemmaSearchSpec | app.py:86-100 | every lemma hit reports a corpus sentence holding the folded query as a lemma; texts are distinct; every such sentence text is reported |
| Search.LemmaSearchOrder | app.py:88-100 | the lemma results are exactly the candidates in corpus order that are the first of their text |
| Search.StoredLemmaFindsItself | app.py:87-91 | a stored lemma, which is lower-cased, used as the query finds every sentence carrying it |
| Search.MatchedEntitiesSpec | app.py:108-114 | the matched entities are exactly the group's entities containing the folded query and passing the filter |
| Search.MatchedEntitiesAppend | app.py:109-114 | matching keeps the entities' order |
| Search.Winner | app.py:118-128 | the entity reported for a sentence is the first matched entity, in list order, that occurs in it; none exactly when no matched entity occurs |
| Search.EntityHitsInSpec | app.py:116-128 | a tale's entity candidates report its sentences with a matched entity in them, each with that sentence's winning entity |
| Search.EntityHitsInSnoc | app.py:116-128 | one more sentence adds at most one candidate, after the earlier ones: the hit of its winning entity, or nothing when none occurs |
| Search.GroupHitsSpec | app.py:104-115 | a url with no tale or no matched entity contributes nothing; otherwise every sentence with a matched entity is a candidate |
| Search.EntityCandidatesSpec | app.py:104-128 | the candidates of a url list are sound and complete |
| Search.EntitySearchSpec | app.py:102-128 | every entity hit reports a sentence of the url's tale and that sentence's winning entity; texts are distinct; every sentence with a matched entity is reported |
| Search.EntityHitIsFirstMatch | app.py:116-128 | the entity of every hit is the first matched entity of its group, in list order, whose text occurs in the sentence |
| Search.EntitySearchOrder | app.py:104-128 | the entity results are exactly the candidates in entity-file order that are the first of their text |
| Search.UnknownFilterFindsNothing | app.py:112-113 | a filter other than "", "per" and "loc" finds nothing |
| Search.SearchRequest | app.py:70-86 | a blank query or an unknown mode gives no results; results never repeat a text; each mode's hits are sound for the stripped query and lower-cased filter |
| SearchLoops.HasLemmaLoop | app.py:90-91 | the token scan finds a token exactly when the sentence holds the lemma |
| SearchLoops.LemmaTaleLoop | app.py:89-100 | the sentence loop of one tale appends that tale's unseen candidates and keeps `seen` equal to the reported texts |
| SearchLoops.LemmaSearchLoop | app.py:86-100 | the nested lemma loops compute the lemma search |
| SearchLoops.MatchEntitiesLoop | app.py:108-114 | the entity loop collects the matched entities |
| SearchLoops.PickEntity | app.py:118-128 | the inner loop picks the first matched entity in the sentence, or none when the text was seen |
| SearchLoops.EntityTaleLoop | app.py:116-128 | the sentence loop of one tale appends its unseen entity candidates |
| SearchLoops.EntityGroupLoop | app.py:104-128 | one url's iteration appends that url's unseen entity candidates |
| SearchLoops.EntitySearchLoop | app.py:102-128 | the nested entity loops compute the entity search |
| SearchLoops.HandleSearch | app.py:70-136 | the handler returns the results of the search request |
| TitleParse.Title | relemmatize_spacy.py:10-16 | the title is never empty, has no whitespace at either end and holds no dot |
| TitleParse.TitleSpec | relemmatize_spacy.py:10-16 | the title is the first piece of `split('.')` with more than whitespace, stripped, or the default when every piece is blank |
| TitleParse.TitleIsPartOfLine | relemmatize_spacy.py:14-16 | a title other than the default is a substring of the line |
| TitleParse.FirstMatch | relemmatize_spacy.py:18 | `re.search` returns a match and none the engine tries earlier; nothing exactly when the pattern cannot match |
| TitleParse.Extract | relemmatize_spacy.py:18-24 | a value is extracted exactly when the pattern matches; it is the stripped group of the match the engine prefers, part of the line, trimmed, and holds no newline |
| TitleParse.ParseTitle | relemmatize_spacy.py:9-26 | the title is never empty; the collector and translator are present exactly when their patterns match, and each is the stripped group of the preferred match |
| ContentClean.CutAtMarker | relemmatize_spacy.py:29 | the text before the first marker: a prefix with no marker, ending where the marker starts, or the whole text |
| ContentClean.StampEndAt | relemmatize_spacy.py:30 | the stamp end the engine finds at a position is a stamp; none when no stamp starts there |
| ContentClean.LastStampStartIsLast | relemmatize_spacy.py:30 | the greedy `.*` picks the last position where a stamp starts |
| ContentClean.DropPreamble | relemmatize_spacy.py:30 | the substitution keeps a suffix; a text without a stamp is unchanged |
| ContentClean.DropPreambleSpec | relemmatize_spacy.py:30 | with a stamp present, the substitution removes everything up to the end of the stamp that starts last |
| ContentClean.DropPreambleNoStamp | relemmatize_spacy.py:30 | what the substitution keeps holds no stamp |
| ContentClean.CleanContent | relemmatize_spacy.py:28-31 | the cleaned text has no whitespace at either end |
| ContentClean.CleanContentSpec | relemmatize_spacy.py:28-31 | the cleaned text is the stripped text before the marker when it holds no stamp, and otherwise the stripped rest after its last stamp |
| ContentClean.CleanContentIsPart | relemmatize_spacy.py:28-31 | the cleaned text is a substring of the page text |
| ContentClean.CleanContentNoMarker | relemmatize_spacy.py:28-31 | the cleaned text holds no marker |
| ContentClean.CleanContentNoStamp | relemmatize_spacy.py:28-31 | the cleaned text holds no publication stamp |
| ContentClean.CleanContentIdempotent | relemmatize_spacy.py:28-31 | cleaning a cleaned text changes nothing |
| NerLabels.MapLabel | relemmatize_spacy.py:73-79 | after upper-casing, PER and PERSON give per, LOC and GPE give loc, anything else is skipped |
| NerLabels.MapLabelCases | relemmatize_spacy.py:73-79 | the labels kept are exactly the ASCII casings of the four words, under the modelled `Upper` |
| NerLabels.NamedEntitiesSpec | relemmatize_spacy.py:71-83 | every entity comes from a span with a known label, and every such span gives its entity |
| NerLabels.NamedEntitiesAppend | relemmatize_spacy.py:71-83 | the entities keep the recogniser's order |
| NerLabels.NamedEntitiesKeepAll | relemmatize_spacy.py:71-83 | when every label is known nothing is dropped, and the texts come out in order |
| NerLabels.MapLabelExtendsClassifyTag | relemmatize_spacy.py:73-79 | the script keeps every tag the server keeps, with the same class, and also PERSON and GPE |

## Left out

- Flask routing, templates, `abort(404)` and request parsing are left out. `Lookup` returns `None` where the handler aborts. `SearchRequest` takes the raw query, mode and filter strings.
- Reading and writing the JSON files is left out. The corpus and the entity file are parameters.
- JSON values of other shapes are left out. Ids, urls, texts, tags and lemmas are modelled as strings. A raw entity is a list of strings or "not a list".
- The annotation script's main loop is left out: file handling, the spaCy pipeline, sentence and token building, and the `"."` fallback text. The recogniser's spans are an input to `NerLabels.NamedEntities`.
- Text.Lower: maps only Basic Latin and the basic Cyrillic block (U+0400..U+045F), not every cased Unicode letter. Any other letter is left unchanged where Python would fold it. For example Ґ (U+0490) stays Ґ, so an entity query "ґалич" misses the entity "Ґалич", which Python finds. Text.Upper is limited in the same way. For the script's labels this matters in one case: Python's `upper()` turns ſ (U+017F) into S, so the script keeps a label "perſon" as per, while `NerLabels.MapLabel` drops it.
- Text.IsSpace is Python's `str.isspace()` set. `\d` is modelled as ASCII digits only, not every Unicode decimal digit.
- Python's general regular-expression engine is left out. The three patterns are modelled as backtracking scans that report the first match in the engine's order.
- Paging.Paginate: the contract describes pages from 1 on. Pages below 1 follow Python's slice rules through `PySlice`; `NonPositivePages` shows one example.
