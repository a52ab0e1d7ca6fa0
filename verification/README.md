# content-chatbot embedding scripts in Dafny

The two scripts `create_embeddings.py` and `create_embeddings_zendesk.py` build
a retrieval corpus. They enumerate pages, either from a website's sitemap
filtered by a URL substring or from the articles of a Zendesk API. They
normalise each page's text and split it with langchain's
`CharacterTextSplitter`. They collect the chunks in two parallel lists, `docs`
and `metadatas`, and hand those to FAISS with OpenAI embeddings before
pickling the store.

This project models the deterministic logic of those scripts. The network,
the parsers, the splitter and the vector store are left out and become
inputs.

- `py_str.dfy` (module `PyStr`) defines the Python string builtins the scripts
  call. These are `str.isspace` (all 29 code points Python 3 treats as
  whitespace), `str.split()` with no separator, `sep.join`, `str.strip()`,
  `str.splitlines()` (with Python's line-break set, `\r\n` as one break and no
  empty piece after a final break) and the substring test `x in s`. Their
  lemmas give the round trips: `split` undoes a space-join of words, and
  `splitlines` undoes a `'\n'`-join of non-empty lines.
- `normalize.dfy` (module `Normalize`) covers the two normalisations.
  - `clean_html` keeps words separated by single spaces. Its collapse
    `' '.join(text.split())` is `CollapseWhitespace`.
  - `extract_text_from` strips every line, drops blank lines and re-joins
    with `'\n'`. That is `NormalizeLines`.
  - Both apply to the text BeautifulSoup's `get_text` returns, taken as an
    arbitrary string.
- `enumerate.dfy` (module `Enumerate`) covers page enumeration.
  - The sitemap loop is `SitemapPages`, a method with a loop, proved against
    `MatchingLocs`.
  - The Zendesk comprehension over `.get('articles', [])` is `ZendeskPages`.
- `corpus.dfy` (module `Corpus`) covers the `docs`/`metadatas` accumulation.
  - The loop is `BuildCorpus`, proved against the functions `Chunks` and
    `Provenance`.
  - `split_text` is an uninterpreted function parameter.
- `create_embeddings.dfy` and `create_embeddings_zendesk.dfy` model each
  script's `__main__` up to the vector store. Each has a `Run` method with
  end-to-end provenance guarantees.
- `scenarios.dfy` holds two concrete enumeration scenarios.

The zendesk script's `clean_html` (create_embeddings_zendesk.py:10-13) and
its page comprehension (line 19) are the same code as in
create_embeddings.py (lines 11-14 and 53). Each is modelled once. The
properties proved for them hold for both files.

One observation follows from the model (`ZendeskPagesHaveNoNewline`). A
Zendesk page's text never contains `'\n'`, because the collapse turns every
line break into a space. The splitter is configured with `separator="\n"`, so
it never finds its separator in Zendesk pages. Whether it still keeps chunks
under 1500 characters depends on langchain, which is not part of this model.

## Model

| member | source | states |
|---|---|---|
| PyStr.Split | create_embeddings.py:14 | `text.split()` yields only non-empty pieces, none of which contains a whitespace character |
| PyStr.SplitJoin | create_embeddings.py:14 | splitting a space-join of words returns exactly those words in order, so `split` inverts `' '.join` on words |
| PyStr.ConcatSplit | create_embeddings.py:14 | the words `split()` returns, glued together, are exactly the non-whitespace characters of the input in order |
| PyStr.Strip | create_embeddings.py:22 | `line.strip()` has no whitespace at either end; it is empty exactly when the line is all whitespace; it adds no line break; a line already free of edge whitespace is returned unchanged; the result is the slice of the line between an all-whitespace prefix and an all-whitespace suffix |
| PyStr.StripKeepsNonSpace | create_embeddings.py:22 | `strip()` removes only whitespace: the line's non-whitespace characters all remain, in order |
| PyStr.SplitLines | create_embeddings.py:22 | no piece returned by `splitlines()` contains a line-break character |
| PyStr.SplitLinesConcat | create_embeddings.py:22 | the pieces `splitlines()` returns, glued together, are the input with exactly its line-break characters removed, so no other character is lost, added or reordered |
| PyStr.SplitLinesJoin | create_embeddings.py:22-23 | `splitlines()` of non-empty, break-free lines joined by `'\n'` returns those lines, so it inverts the join |
| PyStr.ContainsAt | create_embeddings.py:48 | `filter in url` holds exactly when `url` has a slice equal to `filter` at some position |
| Normalize.JoinCollapsed | create_embeddings.py:14 | a space-join of words has only `' '` as whitespace, no leading, trailing or doubled space |
| Normalize.CollapseWhitespace | create_embeddings.py:11-14 | the collapse's output is normalised: its only whitespace is `' '`, with none at either end and never two adjacent |
| Normalize.CollapseKeepsWords | create_embeddings.py:14 | collapsing keeps the input's whitespace-separated words, unchanged and in order |
| Normalize.CollapseKeepsNonSpace | create_embeddings_zendesk.py:13 | removing whitespace from the output equals removing whitespace from the input: every non-whitespace character survives, in order |
| Normalize.CollapseFixesCollapsed | create_embeddings.py:14 | an already normalised string is returned unchanged |
| Normalize.CollapseIdempotent | create_embeddings_zendesk.py:13 | collapsing twice equals collapsing once |
| Normalize.CollapseEmpty | create_embeddings.py:14 | the output is `""` exactly when the input is empty or all whitespace |
| Normalize.KeptLines | create_embeddings.py:22-23 | the stripped, non-empty lines kept are no more than the input lines, and each is non-empty, break-free and without edge whitespace |
| Normalize.JoinLineNormalized | create_embeddings.py:23 | a `'\n'`-join of such lines has no edge whitespace, and its only line breaks are single `'\n'`s between two non-whitespace characters |
| Normalize.NormalizeLines | create_embeddings.py:17-23 | the output of `extract_text_from` neither starts nor ends with whitespace and has only lone `'\n'` breaks between non-whitespace characters |
| Normalize.NormalizeLinesLines | create_embeddings.py:22-23 | the output's lines are exactly the stripped non-empty input lines, in order, and no output line is empty or has leading or trailing whitespace |
| Normalize.NormalizeLinesNoBlankLine | create_embeddings.py:23 | the output contains no `"\n\n"` and neither starts nor ends with `'\n'` |
| Normalize.NormalizeLinesCount | create_embeddings.py:22-23 | the output has at most as many lines as the input |
| Normalize.KeptLinesClean | create_embeddings.py:22-23 | stripping and filtering lines that are already clean returns them unchanged |
| Normalize.KeptLinesKeepsNonSpace | create_embeddings.py:22-23 | stripping the lines and dropping the empty ones loses no non-whitespace character and keeps their order |
| Normalize.NormalizeLinesKeepsNonSpace | create_embeddings.py:17-23 | `extract_text_from` changes only whitespace: its output and the page text have the same non-whitespace characters in the same order |
| Normalize.NormalizeLinesIdempotent | create_embeddings.py:22-23 | normalising lines twice equals normalising them once |
| Enumerate.MatchingLocs | create_embeddings.py:44-49 | the filter never keeps more entries than the sitemap has |
| Enumerate.MatchIndices | create_embeddings.py:45-48 | the positions of the kept entries are all positions of the sitemap |
| Enumerate.MatchIndicesIncreasing | create_embeddings.py:45-48 | the positions of the kept entries are strictly increasing, so the loop never revisits or reorders an entry |
| Enumerate.MatchingLocsAt | create_embeddings.py:45-49 | the kept `loc` values are the sitemap read at those increasing positions, so they keep sitemap order |
| Enumerate.MatchIndicesComplete | create_embeddings.py:48 | a position is kept exactly when its `loc` contains the filter text; every other entry is skipped |
| Enumerate.MatchingLocsMember | create_embeddings.py:47-49 | a `loc` is kept exactly when it is in the sitemap and contains the filter text |
| Enumerate.MatchingLocsAppend | create_embeddings.py:45-49 | filtering a concatenation of sitemaps is the concatenation of the filtered parts |
| Enumerate.MatchingLocsEmptyFilter | create_embeddings.py:48 | an empty filter text keeps every entry |
| Enumerate.ExtractTextFrom | create_embeddings.py:17-23 | the text of a sitemap page is line-normalised |
| Enumerate.SitemapPages | create_embeddings.py:44-49 | the loop yields one page per matching `loc`, in sitemap order; each page's source is that `loc` and its text is `extract_text_from` of it |
| Enumerate.ZendeskPages | create_embeddings.py:51-53 | one page per article in array order, with source `html_url` and text the collapse of the body's text; a missing `articles` key yields no page |
| Enumerate.ZendeskPagesKeepWords | create_embeddings_zendesk.py:19 | each Zendesk page keeps the words of its article's body text, in order |
| Enumerate.ZendeskPagesHaveNoNewline | create_embeddings_zendesk.py:19-24 | no Zendesk page text contains `'\n'`, the separator the splitter is configured with |
| Corpus.Tags | create_embeddings.py:60 | `[{"source": s}] * n` has `n` entries, all naming `s` |
| Corpus.CorpusAligned | create_embeddings.py:56-60 | `docs` and `metadatas` have the same length, the total number of splits |
| Corpus.ChunksAppend | create_embeddings.py:57-59 | processing two runs of pages gives the first run's `docs` followed by the second's |
| Corpus.ProvenanceAppend | create_embeddings.py:57-60 | processing two runs of pages gives the first run's `metadatas` followed by the second's |
| Corpus.ZeroSplitsAddNothing | create_embeddings.py:58-60 | a page with zero splits adds nothing to either list, wherever it occurs |
| Corpus.ChunkPlacement | create_embeddings_zendesk.py:23-26 | split `j` of page `k` lands at index (splits of earlier pages) + `j` of `docs`, and the metadata there names page `k`'s source |
| Corpus.ChunkOrigin | create_embeddings_zendesk.py:23-26 | every index of `docs` comes from one page and one of its splits, and the metadata at that index names that page's source |
| Corpus.SitemapProvenance | create_embeddings.py:45-60 | when the pages are the filtered sitemap entries, every `metadatas` entry names a sitemap `loc` that contains the filter text |
| Corpus.ZendeskProvenance | create_embeddings_zendesk.py:18-26 | every `metadatas` entry built from the Zendesk pages names the `html_url` of some article, and there is none when the `articles` key is missing |
| Corpus.BuildCorpus | create_embeddings.py:56-60 | the loop keeps `len(docs) == len(metadatas)` after every page and ends with `docs` = all splits concatenated in page order and `metadatas` = one source tag per split |
| CreateEmbeddings.Run | create_embeddings.py:39-60 | per mode, pages are those of the sitemap filter or the Zendesk comprehension; the corpus is aligned; in sitemap mode every tag is a sitemap `loc` containing the filter, in Zendesk mode every tag is some article's `html_url` |
| CreateEmbeddingsZendesk.Run | create_embeddings_zendesk.py:16-26 | pages are one per article; `docs`/`metadatas` are aligned with length the total split count; no `articles` key gives an empty corpus; every tag is some article's `html_url` |
| Scenarios.SitemapTwoOfThree | create_embeddings.py:45-49 | three sitemap entries of which two contain the filter give exactly those two, in order |
| Scenarios.NoArticlesEmptyCorpus | create_embeddings_zendesk.py:18-26 | an empty or missing `articles` array gives no page and empty `docs` and `metadatas` |

## Left out

- HTTP fetches (`requests.get`, create_embeddings.py:18,40,51 and create_embeddings_zendesk.py:17) are network I/O. Fetching a sitemap page plus its `get_text()` is the function parameter `pageText`. The Zendesk API fetch is represented by the `articles` input, and `bodyText` is only `get_text(separator=' ')` on an article body; there is no fetch per article.
  - Neither script calls `raise_for_status()`, so an HTTP error status does not raise. A page fetched with an error status has its error page indexed under its `loc` like any other page, which the arbitrary `pageText` covers. A JSON error body from the Zendesk API has no `articles` key and gives no page, which is the `None` case.
  - A transport error (connection failure, timeout) raises and ends the run, and so does `.json()` on a body that is not JSON. `pageText` is total and `articles` is always given, so the model has no such failure.
- BeautifulSoup's `get_text` is a foreign library. The model starts from its output string.
- `xmltodict.parse` and `.json()` are foreign parsers. The model takes their results as inputs: the sequence of `loc` strings, and the `articles` array or its absence.
  - A sitemap with a single `<url>` makes xmltodict return a dictionary rather than a list. The loop at create_embeddings.py:45 would then iterate over its keys. This is not modelled.
  - A sitemap without `<url>` entries makes create_embeddings.py:45 raise: `KeyError` when the `url` key is absent, `TypeError` when an empty `<urlset/>` parses to `None`. The model's `Sitemap([], filter)` with empty `locs` is an extension: it gives no page and an empty corpus, where the script raises.
  - A missing `loc`, `body` or `html_url` key raises `KeyError`. An `articles` value of JSON `null` makes the comprehension raise. The input types cannot express these.
- `CharacterTextSplitter.split_text` is langchain code that is not part of this model. It is the uninterpreted parameter `split`.
- Corpus.BuildCorpus: says nothing about chunk sizes, the separator or how chunks reassemble into the page text. Those belong to the splitter, which is uninterpreted here.
- Corpus.Tags: `[{"source": s}] * n` holds `n` references to one dictionary object; the model's sequence of `Metadata` values does not capture that aliasing. The scripts never mutate a tag afterwards, so the contents are the same.
- The embedding, index and persistence steps (`OpenAIEmbeddings`, `FAISS.from_texts`, `pickle.dump`; create_embeddings.py:63-65, create_embeddings_zendesk.py:29-33) are a remote service, floating-point vectors and file I/O. The file is opened and written directly, so a failure mid-write can leave a partial artifact. Nothing here checks that embedding and text counts match. Alignment holds by construction (`Corpus.CorpusAligned`).
- Argument parsing (create_embeddings.py:27-37) and the progress `print` calls are left out. The `--mode` choice becomes the `Source` datatype.
- Python strings may hold lone surrogate code points. Dafny's `char` cannot, so such strings are outside the model.
- `clean_html` and `extract_text_from` are two separate normalisers and nothing selects between them: the sitemap branch always uses the line-preserving `extract_text_from` and the Zendesk branch always uses `clean_html`. The model keeps them separate.
- A per-page fetch that fails in transport raises and ends the run; there is no retry or skip. An HTTP error status is not a failure to the script: its page is indexed like any other.
