# Vector store of a PDF retrieval-augmented chat, modelled in Dafny

The `VectorStore` class of a small retrieval-augmented generation tool keeps
one cache file per PDF document in a cache directory. Each file holds the
document's text chunks and one embedding row per chunk. `fetch` reads a
document's file and creates it on a miss. `fetch_all` does this for every
PDF of a folder and builds one retrieval pool. `reset` empties the cache and
re-creates every file. `retrieve_top_k` returns the chunks whose rows are
most similar to a query.

The model has four modules:

- `Paths` (`paths.dfy`): POSIX `splitext` and `join`, the cache-file path of
  a PDF name (`get_cache_path`), and the case-insensitive `.pdf` filter.
- `TopK` (`topk.dfy`): the positions of the k highest scores, highest first.
- `Cache` (`cache.dfy`): the cache directory as a value
  (`map<string, Entry>`). `Gather` is the specification of a `fetch_all`
  pass and `Rebuilt` is the specification of a `reset` pass. The lemmas
  about them live here.
- `VectorStores` (`vector_store.dfy`): the class `VectorStore`. Its field
  `cache` is the cache directory. `Clear`, `Create`, `Fetch`, `FetchAll`
  and `Reset` update it in place, and `Load` reads it. A ghost field
  `createLog` records the names `Create` was called for, so contracts can
  say when creation happens. `FetchAll` and `Reset` are loops proved
  against `Gather` and `Rebuilt`.

The collaborators are parameters:

- The sentence-embedding model is `embed: string -> Row`, applied to each
  chunk, so `encode` of a list gives one row per string.
- Cosine similarity is `similarity: (Row, Row) -> real`. Its values are only
  compared.
- PDF loading plus chunking is `chunker: string -> seq<string>`, keyed by
  file name.
- The folder listing is a `seq<string>` in the order the directory gives it.

## Model

| member | source | states |
|---|---|---|
| `Paths.SplitExt` | src/vector_store.py:31 | The root and the extension concatenate back to the name. The extension is empty, or it is one dot followed by no dot and no '/'. A non-empty extension has a non-dot character before it in the last path component. |
| `Paths.SplitExtRoundTrip` | src/vector_store.py:31 | Splitting `stem + ext` gives back exactly `(stem, ext)` when `ext` is an extension and the stem's last component has a non-dot character. |
| `Paths.Join` | src/vector_store.py:32 | An absolute second component replaces the directory. Otherwise the path is the directory, then either nothing or one '/', then the second component. The '/' is left out exactly when the directory is empty or already ends with '/'. |
| `Paths.CachePath` | src/vector_store.py:31-32 | The cache path ends with the name's stem followed by ".pkl". For a relative name it starts with the cache directory. For an absolute name the path is that name's stem plus ".pkl", which need not lie in the cache directory. |
| `Paths.ExtensionsCollide` | src/vector_store.py:31-32 | Two names that differ only in their extension have the same cache path. |
| `Paths.UpperAndLowerPdfCollide` | src/vector_store.py:31-32 | "a.pdf" and "a.PDF" both map to `join(cache_dir, "a.pkl")`. |
| `Paths.CachePathsEqualIffStemsEqual` | src/vector_store.py:31-32 | For relative names, two cache paths are equal exactly when the stems (the names without their last extension) are equal. |
| `Paths.IsPdf` | src/vector_store.py:114 | A name passes the filter exactly when it ends in '.', then p or P, then d or D, then f or F. |
| `Paths.PdfNames` | src/vector_store.py:170-171 | The names kept are exactly the listing's names that pass the `.pdf` filter. |
| `Cache.Encode` | src/vector_store.py:53 | Encoding a chunk list gives one row per chunk. |
| `VectorStores.VectorStore.constructor` | src/vector_store.py:9-18 | The store starts with the cache files already in the directory and its given model. |
| `VectorStores.VectorStore.Clear` | src/vector_store.py:39-42 | Afterwards the cache is empty. |
| `VectorStores.VectorStore.Create` | src/vector_store.py:53-59 | The name's cache path holds `(chunks, encode(chunks))`. Any previous entry there is overwritten. Every other entry is unchanged. One creation is logged. |
| `VectorStores.VectorStore.Load` | src/vector_store.py:75-82 | Fails with FileNotFound(name) exactly when the name's cache path has no entry. Otherwise returns exactly the stored pair. It changes nothing. |
| `VectorStores.VectorStore.Fetch` | src/vector_store.py:95-99 | On a hit: returns the stored entry, ignores the chunks passed in, and neither writes nor creates. On a miss: creates once and returns `(chunks, encode(chunks))`, now stored. Either way the key is present afterwards and holds the returned entry. |
| `VectorStores.FetchTwice` | src/vector_store.py:95-99 | A second fetch of the same name returns the first result, whatever chunks it gets. The two fetches create at most once. |
| `VectorStores.ClearThenLoad` | src/vector_store.py:75-77 | After `clear`, `load` of any plain file name (one without '/') fails with FileNotFound. |
| `VectorStores.VectorStore.FetchAll` | src/vector_store.py:110-134 | The cache, the creations and the pool are those of `Gather` over the listing. The result is EmptyCorpus exactly when no chunk was gathered, and the pool otherwise. The pool has one row per chunk when every entry did before. |
| `Cache.Gather` | src/vector_store.py:113-126 | `create` is called at most as many times as there are listed names, and never twice for one cache path. It is called only for a listed PDF whose cache file was missing at the start, and that file exists at the end. No file that existed is removed. |
| `VectorStores.Stack` | src/vector_store.py:126-132 | A row is in the stacked rows exactly when it is in one of the blocks. |
| `Cache.GatherExtends` | src/vector_store.py:113-126 | A `fetch_all` pass never changes an existing entry. Afterwards every PDF of the listing has a cache file. |
| `Cache.GatherPool` | src/vector_store.py:122-126 | The pool is the concatenation, in listing order, of what the final cache holds for each PDF: chunks appended and rows stacked in the same order. |
| `Cache.GatherCovered` | src/vector_store.py:113-126 | Over a cache that already holds every PDF's file, a pass creates nothing, changes nothing, and returns the stored entries. |
| `Cache.GatherIdempotent` | src/vector_store.py:110-134 | A second `fetch_all` over the same listing returns the same pool, leaves the cache as it is and creates nothing. |
| `Cache.GatherAligned` | src/vector_store.py:125-132 | When every entry has one row per chunk, this stays true after the pass, and the pool's row count equals its chunk count. |
| `Cache.GatherEmptyIff` | src/vector_store.py:128-129 | The gathered chunk list is empty exactly when every PDF's entry has no chunks. This includes a folder without PDFs and a folder whose PDFs all chunk to nothing. |
| `VectorStores.VectorStore.Reset` | src/vector_store.py:168-179 | The cache becomes `Rebuilt` of the listing. `create` is called once per `.pdf` name, in listing order. |
| `Cache.RebuiltKeys` | src/vector_store.py:168-179 | After `reset` the cache keys are exactly the cache paths of the listing's PDFs. |
| `Cache.RebuiltLastWriterWins` | src/vector_store.py:168-179 | After `reset`, a PDF that no later PDF collides with has `(chunks, encode(chunks))` at its cache path. |
| `Cache.Rebuilt` | src/vector_store.py:168-179 | After `reset` every entry has one row per chunk. |
| `Cache.ResetThenFetchAll` | src/vector_store.py:160-181 | When no two PDFs share a cache path, `fetch_all` right after `reset` creates nothing and changes nothing. It returns every PDF's fresh chunks and rows in listing order. |
| `Cache.CollidingPdfsShareEntry` | src/vector_store.py:170-179 | When two listed PDFs share a cache path, `fetch_all` after `reset` returns the later one's chunks twice. |
| `Cache.UpperCaseCopyShadowsLowerCase` | src/vector_store.py:31-32 | With "a.pdf" listed before "a.PDF", `fetch_all` after `reset` returns the chunks of "a.PDF" twice. |
| `VectorStores.VectorStore.Scores` | src/vector_store.py:149-152 | One score per pool row: the similarity of the query's embedding to that row. |
| `VectorStores.VectorStore.RetrieveTopK` | src/vector_store.py:149-158 | Fails with TopKOutOfRange exactly when k exceeds the number of rows. Fails with IndexOutOfRange exactly when a selected row has no chunk. Succeeds whenever k ≤ rows ≤ chunks, returning k chunks: the chunks at the top-k positions of the query's similarity scores, in that order. |
| `TopK.TopIndices` | src/vector_store.py:155 | Returns k distinct positions of the score vector. Their scores do not increase. Each selected score is at least every unselected score. |
| `TopK.Rank` | src/vector_store.py:155 | Ranks every position below n exactly once, scores non-increasing. |
| `TopK.Insert` | src/vector_store.py:155 | Adds one position to a ranking and keeps it ordered and duplicate-free. |

## Left out

- The embedding model (`SentenceTransformer`, `encode`) is an opaque per-string function. Batch numerics and tensor shapes are not modelled.
- Cosine similarity and float tensors are not modelled. Scores are opaque `real` values that are only compared.
- `torch.topk` tie-breaking is not modelled. `TopK.Rank` happens to put the lower position first among equal scores, but no contract promises an order among ties.
- `VectorStores.VectorStore.RetrieveTopK` takes `k` as a natural number, so the error a negative `k` raises in `topk` is not modelled.
- `pickle` serialization, `open`, `shutil.rmtree`, `os.makedirs` and every `print` are replaced by the `cache` map.
- A cache file that fails to unpickle is not modelled. Every cache file holds a well-formed pair.
- Entries whose row count differs from their chunk count can exist, for example from an earlier run. They are not excluded; the row/chunk equality is stated under the hypothesis that all entries are aligned.
- `os.listdir` is a given sequence of names in directory order. A missing folder is not modelled.
- `load_pdf` and `chunk_text_simple` are one opaque function from file name to chunks. The model calls it for every PDF, also on a cache hit, as the code does; being pure, that call has no effect then.
- `str.lower` is modelled on ASCII letters only. For the `.pdf` suffix test this gives the same answer as full Unicode lowering.
- `src/rag_pipeline.py` (the remote answer call and the `"\n\n"` join) and `reset_vector_store.py` (a command-line wrapper around `reset`) are not part of this model.
- `retrieve_top_k` fails, as `torch.topk` does, when k exceeds the number of rows; nothing clamps k. `fetch_all` and `reset` follow the order `os.listdir` gives; nothing sorts the names.
- The default arguments `cache_dir="data/cache"` (src/vector_store.py:9), `pdf_folder="data/pdf"` (lines 101 and 160) and `k=3` (line 136) are not modelled. Every caller of the model passes every argument.
- VectorStores.ClearThenLoad: stated for names without '/', the plain file names every call site passes (each comes from `os.listdir`, lines 113 and 170). For an absolute or `../` name the cache file can lie outside the cache directory, where `shutil.rmtree` leaves it; the model's `Clear` empties the whole map and does not capture that.
- Path handling is POSIX (`posixpath`) only. Windows `ntpath`, with its '\\' separator and drive letters, is not modelled, and the restriction of `VectorStores.ClearThenLoad` to names without '/' is a POSIX one.
