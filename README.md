# Hierarchical retrieval for a travel-guide assistant, in Dafny

This project models the retrieval pipeline of a travel-question assistant.
The pipeline is a Python system. It scrapes Wikipedia/Wikivoyage pages, turns
them into a title -> chunks corpus, and answers a query with a two-stage
semantic search. The model has five modules, plus `Wrappers` for the `Option` and `Result`
types.

- `PyStrings` and `PyDicts` (`py_strings.dfy`, `py_dicts.dfy`) model the
  Python built-ins the code relies on:
  - substring tests, `str.replace`, `split(...)[0]`, slices with negative
    bounds, `\s`;
  - insertion-ordered dicts, as sequences of key-value pairs, with `get`,
    assignment and `pop`.
- `DataParsing` (`data_parsing.dfy`) covers the scraper helpers that do no
  I/O:
  - the page URL builder;
  - the two validators applied to parsed HTML tags (a tag is a name plus an
    attribute map);
  - the limit-and-keep loop of `scrape_pages`, with the page parsers given
    as functions.
- `DataProcessing` (`data_processing.dfy`) covers corpus preprocessing:
  - the blank-text test;
  - in-place removal of metadata sections from a page (a page is an object
    whose `sections` field is mutated);
  - section naming;
  - `flatten_data`, which groups every non-empty section text by section
    key;
  - `make_chunks`, with the text splitter given as a function.
- `Retrieval` (`hierarchical_retrieval.dfy`) covers the retriever:
  - a class holding the corpus, the settings and the two vector stores;
  - the store construction loop;
  - `retrieve`: a title search, one filtered chunk search per title, then a
    stable sort by score, a `total_chunks` slice and a `max_distance`
    threshold;
  - the `crop_text` display helper.
  - The vector stores are values: the documents they were built from. Their
    similarity search is a function parameter. `SearchContract` states what
    it is relied on to do: return at most `k` documents of the store, in
    ascending score order, each matching the title filter when one is given.

The imperative parts of the source are methods with loops, proved against
specification functions:
- `RemoveMetadata`, `FlattenData`, `MakeChunks`;
- `PrepareVectorStores`, `Retrieve`;
- `ScrapePages`.

The properties are lemmas about those functions.

A few behaviours of the code are captured as written, and differ from what a
reader might expect:
- `validate_section_title` matches the pattern `p(-.*)*` with `re.match`.
  The pattern is anchored only at the start and its group may repeat zero
  times, so it rejects every id that begins with `p`, not only `p-...` ids
  (`SectionPatternIsPPrefix`).
- A heading whose class is held as a list never equals one of the two chrome
  class strings. A heading without a string `id` makes the pattern match
  raise a `TypeError`; the model returns `Failure(TypeError)`.
- `validate_content` on a `div` without a `class` raises a `TypeError`
  (`"vcard" in None`). A class given as a string is tested by substring
  search.
- Python's `sorted` is stable, so chunks with equal scores keep
  title-processing order (`SortByScoreStable`): the order of the titles can
  decide the order of tied chunks.
- The code raises no error of its own for an empty corpus and has no index
  persistence.
- For a non-negative `total_chunks`, because the sorted pool is ascending,
  thresholding after the `total_chunks` slice gives the same chunks as
  slicing after thresholding (`RankHitsTruncateLast`). A negative
  `total_chunks` drops candidates from the end before the threshold, so the
  two orders can differ there.

## Model

| member | source | states |
|---|---|---|
| PyStrings.IsSubstring | data_processing.py:15 | `a in b` on strings holds exactly when `a` occurs at some index of `b` |
| PyStrings.Replace | data_processing.py:17 | `s.replace(a, b)` keeps the length, maps every `a` to `b` and leaves other characters alone; no `a` remains when `a != b` |
| PyStrings.BeforeFirst | data_parsing.py:22 | `s.split(sep)[0]` is the prefix of `s` up to (not including) the first `sep`, and holds no `sep` |
| PyStrings.Prefix | hierarchical_retrieval.py:112-114 | `s[:n]` is a prefix of `s` of length `min(n, len(s))` for `n >= 0` and `max(len(s) + n, 0)` for negative `n` |
| PyDicts.Get | data_processing.py:29-32 | `d.get(k)` is `None` exactly when `k` is not a key, and otherwise a value stored under `k` |
| PyDicts.GetAt | data_processing.py:29-32 | `d.get` returns the value of the first item with the key |
| PyDicts.Put | data_processing.py:29-32 | `d[k] = v` appends `(k, v)` for a new key; the key list is unchanged for an existing key and gains `k` at the end for a new one |
| PyDicts.PutAt | data_processing.py:31-32 | assigning to an existing key replaces that one item in place and leaves every other item as it was |
| PyDicts.GetSnoc | data_processing.py:45-46 | appending an item leaves every other key's lookup unchanged, and a new key is found with its value |
| PyDicts.Keys | hierarchical_retrieval.py:64 | `list(d.keys())` lists the keys of the items, one per item, in insertion order |
| PyDicts.PutDistinct | data_parsing.py:247 | assignment never makes a key appear twice |
| PyDicts.Pop | data_processing.py:11 | `d.pop(k, None)` leaves no item with key `k`, every other key keeps its value, and nothing changes when `k` is absent |
| DataProcessing.AllSpace | data_processing.py:6 | `re.match(r'^\s*$', s)` succeeds exactly when every character of `s` is whitespace |
| DataProcessing.IsValidText | data_processing.py:5-6 | the text is truthy exactly when it has a non-whitespace character (so empty and all-whitespace texts are falsy) |
| DataProcessing.WithoutKeysGet | data_processing.py:8-12 | after removing metadata, each listed key is absent and every other key is found with its old value |
| DataProcessing.PopWithoutKeys | data_processing.py:10-11 | popping one more listed key removes it from what the earlier pops left |
| DataProcessing.WithoutKeysIdempotent | data_processing.py:8-12 | removing the metadata keys twice is the same as removing them once |
| DataProcessing.RemoveMetadata | data_processing.py:8-12 | the page is changed in place to its sections without the six metadata keys, in their order, and the same page object is returned |
| DataProcessing.GetSectionName | data_processing.py:14-17 | a section name that contains the page name is kept; any other is prefixed with `page_name + ": "`; `_` becomes a space and never appears in the result |
| DataProcessing.GroupedContents | data_processing.py:19-33 | the grouping has distinct keys: exactly the keys of non-empty sections, each mapped to the non-empty set of all texts filed under it |
| DataProcessing.GroupedSnocEmpty | data_processing.py:27 | a section with empty text changes nothing |
| DataProcessing.GroupedSnocNewKey | data_processing.py:29-30 | a non-empty section under a new key appends that key with a one-text set |
| DataProcessing.GroupedSnocAt | data_processing.py:31-32 | a non-empty section under an existing key adds its text to that key's set and changes no other item |
| DataProcessing.GroupedSnocOldKey | data_processing.py:31-32 | the set stored under an existing key, with the new text added, is written back in place |
| DataProcessing.AddSection | data_processing.py:27-32 | an empty text changes nothing; a non-empty one leaves the key list as it is for a known key and appends a new key at the end |
| DataProcessing.AddSections | data_processing.py:23-32 | the loops never lose a key already in `flat_data` |
| DataProcessing.AddSectionGrouped | data_processing.py:27-32 | one step of the innermost loop turns the grouping of the sections seen so far into the grouping with one more section |
| DataProcessing.AddSectionsAppend | data_processing.py:23-32 | running the loops over two runs of sections is running them over one run and then the other |
| DataProcessing.AddSectionsGrouped | data_processing.py:23-32 | starting from `{}`, the loops compute the grouping of all the sections they visit |
| DataProcessing.AsFileList | data_processing.py:21-22 | a single dict input is treated as a one-element list |
| DataProcessing.GroupPage | data_processing.py:26-32 | the loop over one page's sections performs the grouping steps for those sections in order |
| DataProcessing.FlattenPage | data_processing.py:25-32 | the page is stripped of its metadata in place, then its remaining sections are grouped |
| DataProcessing.FlattenFile | data_processing.py:24-32 | every page of one file is stripped in place (an aliased page stays stripped), and the result groups the cleaned sections of the pages in order |
| DataProcessing.FlattenFileAt | data_processing.py:23-32 | one file's iteration keeps every page of earlier files cleaned and every page cleanable to the same sections |
| DataProcessing.FlattenData | data_processing.py:19-33 | every page of every file is stripped of its metadata in place, and the result is the grouping, by section key, of the non-empty texts of all cleaned pages in file, page and section order |
| DataProcessing.AsList | data_processing.py:39-40 | a string value is treated as a one-element list |
| DataProcessing.SplitAll | data_processing.py:42-44 | texts that are all empty give no chunks |
| DataProcessing.SplitAllSingle | data_processing.py:42-44 | an empty text gives no chunks; any other text gives the splitter's output |
| DataProcessing.SplitAllAppend | data_processing.py:42-44 | the chunks of concatenated text lists are the concatenated chunks, in order |
| DataProcessing.Chunked | data_processing.py:38-46 | every title kept has at least one chunk and is a key of the input |
| DataProcessing.ChunkedLookup | data_processing.py:38-46 | a title is kept exactly when it is an input key whose texts give chunks, and then holds those chunks; output keys are distinct |
| DataProcessing.MakeChunks | data_processing.py:35-47 | the loops compute `Chunked`: per title, the in-order concatenation of the splitter outputs of its non-empty texts, for the titles with at least one chunk |
| Retrieval.CropText | hierarchical_retrieval.py:11-16 | the cropped text never contains a newline |
| Retrieval.CropTextShape | hierarchical_retrieval.py:11-16 | with a truthy crop length the output is the first `crop_length` characters (slice semantics) of the newline-replaced text plus `"..."`; with 0 or None it is the newline-replaced text |
| Retrieval.FromTexts | hierarchical_retrieval.py:75-77 | a store built from texts holds one document per text, with the metadata at the same position |
| Retrieval.TitleStore | hierarchical_retrieval.py:64-65 | the title store has one metadata-free document per corpus key, in key order |
| Retrieval.ChunkTexts | hierarchical_retrieval.py:68-72 | `all_chunks` has as many entries as the corpus has chunks in all |
| Retrieval.ChunkMetadata | hierarchical_retrieval.py:69-73 | `chunk_metadata` has as many entries as the corpus has chunks in all, the same as `all_chunks`, and every entry carries a title |
| Retrieval.ChunkStore | hierarchical_retrieval.py:68-77 | the chunk store holds one document per chunk of the corpus, each carrying a title |
| Retrieval.ChunkLayout | hierarchical_retrieval.py:68-73 | chunk `m` of key `j` sits at the sum of the earlier list lengths plus `m`, with `{"title": key j}` at the same position |
| Retrieval.ChunkOwner | hierarchical_retrieval.py:68-73 | the i-th metadata title is a key whose list holds the i-th chunk |
| Retrieval.ChunkDocOwned | hierarchical_retrieval.py:68-77 | every document of the chunk store is a chunk that the corpus files under the document's title |
| Retrieval.SortByScore | hierarchical_retrieval.py:112 | sorting is a permutation of the pool |
| Retrieval.Insert | hierarchical_retrieval.py:112 | inserting a hit adds exactly that hit to the hits |
| Retrieval.InsertAscending | hierarchical_retrieval.py:112 | inserting one hit into ascending hits keeps them ascending |
| Retrieval.InsertWithScore | hierarchical_retrieval.py:112 | inserting a hit places it after every earlier hit of the same score |
| Retrieval.SortByScoreAscending | hierarchical_retrieval.py:112 | sorted hits come in non-decreasing score order |
| Retrieval.SortByScoreStable | hierarchical_retrieval.py:112 | the sort is stable: hits of equal score keep their pool order |
| Retrieval.WithinDistance | hierarchical_retrieval.py:115-117 | the threshold keeps no more hits than it is given, all within `max_distance` |
| Retrieval.WithinDistanceMembers | hierarchical_retrieval.py:115-117 | a hit is kept exactly when it is a candidate within `max_distance` |
| Retrieval.WithinDistanceAll | hierarchical_retrieval.py:115-117 | hits all within `max_distance` are all kept |
| Retrieval.WithinDistanceAscending | hierarchical_retrieval.py:115-117 | on ascending hits the threshold keeps exactly the prefix up to the first hit beyond `max_distance` |
| Retrieval.WithinDistancePrefix | hierarchical_retrieval.py:112-117 | thresholding a prefix of ascending hits gives the same prefix of the thresholded hits |
| Retrieval.RankHits | hierarchical_retrieval.py:112-117 | the ranked hits number at most `total_chunks` (when that is not negative) and are all within `max_distance` |
| Retrieval.RankHitsBounds | hierarchical_retrieval.py:112-117 | the ranked hits number at most `total_chunks` (when that is not negative) and at most the pool, lie within `max_distance`, and are pool candidates |
| Retrieval.RankHitsAscending | hierarchical_retrieval.py:112-117 | the ranked hits come in non-decreasing score order |
| Retrieval.RankHitsTruncateLast | hierarchical_retrieval.py:112-117 | for a non-negative `total_chunks`, slicing then thresholding equals thresholding then slicing: the result is exactly the below-threshold sorted candidates cut to `total_chunks` |
| Retrieval.PageContents | hierarchical_retrieval.py:95 | the texts of the hits, one per hit, in order |
| Retrieval.Pool | hierarchical_retrieval.py:98-104 | every candidate in the pool was returned by the filtered chunk search for one of the titles |
| Retrieval.PoolProperties | hierarchical_retrieval.py:97-104 | given the search contract, the pool holds at most `len(titles) * chunks_per_title` hits, each a chunk-store document tagged with one of the titles |
| Retrieval.TitlesAreKeys | hierarchical_retrieval.py:88-95 | given the search contract, at most `title_top_n` titles are found and each is a corpus key |
| Retrieval.RetrieveResult | hierarchical_retrieval.py:88-121 | the texts returned number at most `total_chunks` when that is not negative |
| Retrieval.RetrieveBounds | hierarchical_retrieval.py:88-117 | `retrieve` returns at most `total_chunks` texts (when that is not negative) and at most `title_top_n * chunks_per_title` |
| Retrieval.RetrieveFromTitles | hierarchical_retrieval.py:88-121 | every returned text is a chunk that the corpus files under one of the titles the title search found |
| Retrieval.HierarchicalRetrieval.constructor | hierarchical_retrieval.py:27-59 | the settings are stored with the source's defaults, and both stores are built from the corpus |
| Retrieval.HierarchicalRetrieval.PrepareVectorStores | hierarchical_retrieval.py:61-77 | the title store is built from the keys and the chunk store from the flattened chunks with their titles; no other field changes |
| Retrieval.HierarchicalRetrieval.Retrieve | hierarchical_retrieval.py:79-121 | the result is the texts of the candidate pool (per-title filtered searches concatenated in title order), ranked; no field is assigned, so equal queries and searches give equal results; given the search contract, at most `total_chunks` (when not negative) and at most `title_top_n * chunks_per_title` texts are returned, each a chunk of the corpus |
| DataParsing.Attr | data_parsing.py:96 | `tag.get(key)` is the attribute value when present and `None` otherwise |
| DataParsing.GetPageUrl | data_parsing.py:18-23 | a page name containing the base URL is returned unchanged; otherwise the result is `base_url + "/wiki/" + s` with `s` the URL name of the page |
| DataParsing.UrlNameOfPage | data_parsing.py:22-23 | the URL name is the page name up to its first `/` with spaces turned into `_`, and holds no space and no `/` |
| DataParsing.GetPageUrlIgnoresSubpage | data_parsing.py:22-23 | anything after the first `/` of the page name does not change the URL |
| DataParsing.BeforeFirstSlash | data_parsing.py:22 | the part before the first `/` of `name + "/" + rest` is `name` when `name` has no `/` |
| DataParsing.SectionPatternIsPPrefix | data_parsing.py:108 | `re.match(r"p(-.*)*", s)` succeeds exactly when `s` begins with `p` |
| DataParsing.ValidateSectionTitle | data_parsing.py:95-110 | chrome classes and the seven skipped ids are rejected; a heading is accepted exactly when neither applies, its id is a string and the pattern does not match it; a missing or non-string id raises a TypeError |
| DataParsing.ValidateSectionTitleIds | data_parsing.py:98-110 | an accepted heading has a string id outside the skipped list not beginning with `p`; any string id beginning with `p` is rejected without error |
| DataParsing.HasVcard | data_parsing.py:115 | `"vcard" in cls` is list membership for a class list, a substring test for a class string, and a TypeError for a missing class |
| DataParsing.ValidateContent | data_parsing.py:112-119 | names outside p/ul/ol/section/div are rejected; a div is accepted only when its class has `vcard`, and raises a TypeError without a class; a class equal to the string `reference` is rejected |
| DataParsing.Considered | data_parsing.py:236-237 | with a limit only the first `limit` pages (a Python slice) are visited, otherwise all of them |
| DataParsing.Scraped | data_parsing.py:238-249 | no more pages are collected than are visited |
| DataParsing.ScrapedSnoc | data_parsing.py:239-247 | visiting one more page stores its parse under its name exactly when the parse is non-empty |
| DataParsing.ScrapedSound | data_parsing.py:238-249 | the collected names are distinct page names, and every stored page is the non-empty parse of its name |
| DataParsing.PutParsed | data_parsing.py:246-247 | storing a non-empty parse under its own name keeps every stored page the parse of its name |
| DataParsing.ScrapedComplete | data_parsing.py:240-247 | every visited page whose parse is non-empty is collected |
| DataParsing.ScrapePagesKeys | data_parsing.py:235-249 | the collected names are distinct and among the first `limit` pages, there are at most `limit` of them, and each holds its non-empty parse |
| DataParsing.WikiParser.constructor | data_parsing.py:10-11 | the base URL defaults to the Russian Wikipedia |
| DataParsing.WikiParser.ParserFor | data_parsing.py:242-245 | the Wikivoyage parser is used for the Wikivoyage base URL, the Wikipedia parser for any other |
| DataParsing.WikiParser.ScrapePages | data_parsing.py:235-249 | the loop computes the considered pages' non-empty parses under their names, in page order |

## Left out

- FAISS and the HuggingFace embeddings are foreign libraries. A store is the
  list of documents it was built from, and similarity search is a function
  parameter with an assumed contract (`SearchContract`). Vector geometry,
  distance computation and tie-breaking inside the search are not modelled.
  Scores are `real`; floating-point rounding is not modelled.
- Retrieval.HierarchicalRetrieval.constructor: the embedding object is kept
  by its model name and device only. Building a store from an empty corpus
  gives an empty store here, whereas FAISS itself may reject an empty text
  list; the code adds no error of its own and no index persistence.
- The settings `title_top_n` and `chunks_per_title` are `nat`, because they
  are passed to the search as `k`. A negative `k` given
  to FAISS is not modelled.
- `print_retrieved_items` printing, the `verbose` output and `tqdm` progress
  bars are console output. Only `crop_text` is modelled.
- `RecursiveCharacterTextSplitter` is a foreign library and is a function
  parameter. The `< 2000` characters check in the `__main__` blocks is not
  modelled.
- A set built by `flatten_data` is passed to `make_chunks` as the sequence
  of its iteration order (`Texts.TextList`). Python's set iteration order is
  not modelled.
- DataProcessing.FlattenData: reassigning `d[page_name]` to the same page
  object is not modelled. It leaves the file dict unchanged.
- The HTML- and network-bound parts of the scraper are out of scope:
  `get_name_link`, `find_iter_class`, `get_pages_from_table`,
  `get_pages_from_category`, `parse_page_wikipedia`,
  `parse_page_wikivoyage`, `save_to_json`, `get_whole_data` and
  `get_wikivoyage_data`. The page parsers are function parameters of
  `ScrapePages`.
- DataParsing.WikiParser.constructor: the Wikipedia API client field is not
  modelled.
- DataParsing.WikiParser.ScrapePages: the `link` value of each page is read but not
  used by the code, and the model ignores it too. The page parsers are total
  functions here, so exceptions are not modelled. The Wikivoyage parser
  catches its own errors and returns `{}`, but the Wikipedia parser does
  not: an exception from it (an API or network failure) aborts
  `scrape_pages` partway through the loop.
- rag.py, src/rag.py, validation.py, app.py, the user interface and all
  `main`/`__main__` blocks are LLM calls, evaluation, UI or file I/O, and
  are not part of this model.
