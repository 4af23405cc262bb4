/** The vector store: a per-document embedding cache, held as a map from
    cache-file path to entry and updated in place by `Clear`, `Create`,
    `Fetch`, `FetchAll` and `Reset`, and the top-k retrieval over the pool
    that `FetchAll` builds. */
module VectorStores {
  import opened Paths
  import opened Cache
  import opened TopK

  /** Stacks the embedding blocks of several documents into one list of
      rows, block after block. */
  function Stack(blocks: seq<seq<Row>>): (r: seq<Row>)
    ensures forall row :: row in r <==> exists b :: b in blocks && row in b
    decreases |blocks|
  {
    if blocks == [] then []
    else
      var front, last := blocks[..|blocks| - 1], blocks[|blocks| - 1];
      assert blocks == front + [last];
      Stack(front) + last
  }

  class VectorStore {
    /** The cache directory. */
    const cacheDir: string
    /** The sentence-embedding model: one string to one row. */
    const embed: string -> Row
    /** Cosine similarity of a query row and a pool row. */
    const similarity: (Row, Row) -> real
    /** The files of the cache directory. */
    var cache: Store
    /** The names `Create` has been called for, in order. */
    ghost var createLog: seq<string>

    /** A store over a cache directory that may already hold files from an
        earlier run. */
    constructor (cacheDir: string, embed: string -> Row, similarity: (Row, Row) -> real, existing: Store)
      ensures this.cacheDir == cacheDir && this.embed == embed && this.similarity == similarity
      ensures cache == existing && createLog == []
    {
      this.cacheDir := cacheDir;
      this.embed := embed;
      this.similarity := similarity;
      cache := existing;
      createLog := [];
    }

    /** Deletes every cache file and leaves an empty cache directory. */
    method Clear()
      modifies this
      ensures cache == map[] && createLog == old(createLog)
    {
      cache := map[];
    }

    /** Embeds `chunks` and writes them with their rows to the cache file of
        `name`, replacing whatever was there; no other file changes. */
    method Create(name: string, chunks: seq<string>)
      modifies this
      ensures cache == old(cache)[CachePath(cacheDir, name) := Embedded(embed, chunks)]
      ensures createLog == old(createLog) + [name]
    {
      var rows := Encode(embed, chunks);
      cache := cache[CachePath(cacheDir, name) := Entry(chunks, rows)];
      createLog := createLog + [name];
    }

    /** Reads the cache file of `name`: fails with FileNotFound when there
        is none, otherwise returns exactly the stored pair. */
    method Load(name: string) returns (r: Result<Entry>)
      ensures r.Ok? <==> CachePath(cacheDir, name) in cache
      ensures r.Ok? ==> r.value == cache[CachePath(cacheDir, name)]
      ensures r.Err? ==> r.error == FileNotFound(name)
    {
      var file := CachePath(cacheDir, name);
      if file !in cache {
        return Err(FileNotFound(name));
      }
      r := Ok(cache[file]);
    }

    /** Loads the entry of `name`; on a miss creates it from `chunks` and
        loads it again. A hit ignores `chunks` and writes nothing. */
    method Fetch(name: string, chunks: seq<string>) returns (e: Entry)
      modifies this
      ensures var file := CachePath(cacheDir, name);
        if file in old(cache) then
          e == old(cache)[file] && cache == old(cache) && createLog == old(createLog)
        else
          e == Embedded(embed, chunks) && cache == old(cache)[file := e] &&
          createLog == old(createLog) + [name]
      ensures CachePath(cacheDir, name) in cache && cache[CachePath(cacheDir, name)] == e
    {
      var r := Load(name);
      if r.Err? {
        Create(name, chunks);
        r := Load(name);
      }
      e := r.value;
    }

    /** Fetches every PDF of the listing, in listing order, and returns all
        their chunks and their rows stacked in the same order; fails with
        EmptyCorpus when no chunk was gathered. The cache files created on
        the way stay either way. */
    method FetchAll(listing: seq<string>, chunker: string -> seq<string>) returns (r: Result<Pool>)
      modifies this
      ensures var g := Gather(Env(cacheDir, embed, chunker), old(cache), listing);
        && cache == g.store
        && createLog == old(createLog) + g.created
        && (g.pool.chunks == [] ==> r == Err(EmptyCorpus))
        && (g.pool.chunks != [] ==> r == Ok(g.pool))
      ensures WellFormed(old(cache)) && r.Ok? ==> |r.value.rows| == |r.value.chunks|
    {
      ghost var env := Env(cacheDir, embed, chunker);
      var allChunks: seq<string> := [];
      var allBlocks: seq<seq<Row>> := [];
      for i := 0 to |listing|
        invariant var g := Gather(env, old(cache), listing[..i]);
          && allChunks == g.pool.chunks
          && Stack(allBlocks) == g.pool.rows
          && cache == g.store
          && createLog == old(createLog) + g.created
      {
        assert listing[..i + 1][..i] == listing[..i];
        var name := listing[i];
        if IsPdf(name) {
          var chunks := chunker(name);
          var e := Fetch(name, chunks);
          allChunks := allChunks + e.chunks;
          assert (allBlocks + [e.rows])[..|allBlocks|] == allBlocks;
          allBlocks := allBlocks + [e.rows];
        }
      }
      assert listing[..|listing|] == listing;
      if allChunks == [] {
        return Err(EmptyCorpus);
      }
      r := Ok(Entry(allChunks, Stack(allBlocks)));
      if WellFormed(old(cache)) {
        GatherAligned(env, old(cache), listing);
      }
    }

    /** Empties the cache, then creates the entry of every PDF of the
        listing in listing order, without reading the cache. */
    method Reset(listing: seq<string>, chunker: string -> seq<string>)
      modifies this
      ensures cache == Rebuilt(Env(cacheDir, embed, chunker), listing)
      ensures createLog == old(createLog) + PdfNames(listing)
    {
      ghost var env := Env(cacheDir, embed, chunker);
      Clear();
      for i := 0 to |listing|
        invariant cache == Rebuilt(env, listing[..i])
        invariant createLog == old(createLog) + PdfNames(listing[..i])
      {
        assert listing[..i + 1][..i] == listing[..i];
        var name := listing[i];
        if IsPdf(name) {
          Create(name, chunker(name));
        }
      }
      assert listing[..|listing|] == listing;
    }

    /** The similarity of the query to each row of the pool. */
    function Scores(rows: seq<Row>, query: string): (s: seq<real>)
      ensures |s| == |rows|
      ensures forall i :: 0 <= i < |rows| ==> s[i] == similarity(embed(query), rows[i])
    {
      seq(|rows|, i requires 0 <= i < |rows| => similarity(embed(query), rows[i]))
    }

    /** The chunks of the k pool rows most similar to the query, most
        similar first; fails when k exceeds the number of rows, or when a
        selected row has no chunk. */
    function RetrieveTopK(chunks: seq<string>, rows: seq<Row>, query: string, k: nat): (r: Result<seq<string>>)
      ensures r == Err(TopKOutOfRange) <==> k > |rows|
      ensures r == Err(IndexOutOfRange) <==>
        k <= |rows| && exists j :: 0 <= j < k && TopIndices(Scores(rows, query), k)[j] >= |chunks|
      ensures k <= |rows| <= |chunks| ==> r.Ok?
      ensures r.Ok? ==>
        && k <= |rows| && |r.value| == k
        && var top := TopIndices(Scores(rows, query), k);
           forall j :: 0 <= j < k ==> top[j] < |chunks| && r.value[j] == chunks[top[j]]
    {
      if k > |rows| then Err(TopKOutOfRange)
      else
        var top := TopIndices(Scores(rows, query), k);
        if exists j | 0 <= j < k :: top[j] >= |chunks| then Err(IndexOutOfRange)
        else Ok(seq(k, j requires 0 <= j < k => chunks[top[j]]))
    }
  }

  /** Fetching one name twice creates at most once, and the second fetch
      returns what the first did, whatever chunks it is given. */
  method FetchTwice(store: VectorStore, name: string, chunks1: seq<string>, chunks2: seq<string>)
    returns (first: Entry, second: Entry)
    modifies store
    ensures second == first
    ensures |store.createLog| <= |old(store.createLog)| + 1
    ensures CachePath(store.cacheDir, name) in old(store.cache) ==> store.cache == old(store.cache)
  {
    first := store.Fetch(name, chunks1);
    second := store.Fetch(name, chunks2);
  }

  /** After clearing, loading any plain file name fails with FileNotFound. */
  method ClearThenLoad(store: VectorStore, name: string) returns (r: Result<Entry>)
    requires '/' !in name
    modifies store
    ensures r == Err(FileNotFound(name))
  {
    store.Clear();
    r := store.Load(name);
  }
}
