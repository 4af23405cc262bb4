/** The embedding cache as a value: a map from cache-file path to the
    (chunks, embedding rows) pair stored there, and the functions that say
    what a pass of `fetch_all` and of `reset` over a folder listing leaves
    in it and returns. */
module Cache {
  import opened Paths

  /** One embedding vector. */
  type Row = seq<real>

  /** The content of one cache file: a document's chunks and their rows. */
  datatype Entry = Entry(chunks: seq<string>, rows: seq<Row>)

  /** The cache directory: cache-file path to entry. */
  type Store = map<string, Entry>

  /** The retrieval pool built across a folder: chunks and rows, as in
      one cache file. */
  type Pool = Entry

  datatype Error =
    | FileNotFound(name: string)   // `load` of a name with no cache file
    | EmptyCorpus                  // `fetch_all` gathered no chunk at all
    | TopKOutOfRange               // more results asked for than there are rows
    | IndexOutOfRange              // a selected row has no chunk

  datatype Result<T> = Ok(value: T) | Err(error: Error)

  /** The collaborators one pass works with: the cache directory, the
      embedding model (one row per string) and the PDF loader-and-chunker. */
  datatype Env = Env(cacheDir: string, embed: string -> Row, chunker: string -> seq<string>)

  /** The embedding model applied to a list of strings: one row per string. */
  function Encode(embed: string -> Row, chunks: seq<string>): (rows: seq<Row>)
    ensures |rows| == |chunks|
  {
    seq(|chunks|, i requires 0 <= i < |chunks| => embed(chunks[i]))
  }

  /** What `create` writes for a list of chunks. */
  function Embedded(embed: string -> Row, chunks: seq<string>): Entry {
    Entry(chunks, Encode(embed, chunks))
  }

  predicate Aligned(e: Entry) {
    |e.chunks| == |e.rows|
  }

  /** Every entry has one row per chunk. */
  predicate WellFormed(s: Store) {
    forall key :: key in s ==> Aligned(s[key])
  }

  function Append(p: Pool, e: Entry): Pool {
    Entry(p.chunks + e.chunks, p.rows + e.rows)
  }

  /** `t` keeps every entry of `s` unchanged. */
  predicate Extends(s: Store, t: Store) {
    forall key :: key in s ==> key in t && t[key] == s[key]
  }

  /** Every PDF of the listing has a cache file in `s`. */
  predicate Covers(env: Env, s: Store, names: seq<string>) {
    forall n :: n in names && IsPdf(n) ==> CachePath(env.cacheDir, n) in s
  }

  /** No two PDFs of the listing share a cache file. */
  predicate NoCollisions(env: Env, names: seq<string>) {
    forall i, j :: 0 <= i < j < |names| && IsPdf(names[i]) && IsPdf(names[j]) ==>
      CachePath(env.cacheDir, names[i]) != CachePath(env.cacheDir, names[j])
  }

  /** The result of a `fetch_all` pass: the pool, the cache afterwards and
      the names `create` was called for, in order. */
  datatype Gathered = Gathered(pool: Pool, store: Store, created: seq<string>)

  /** A `fetch_all` pass over `names`, starting from cache `s`: each PDF in
      turn is fetched (its cache file read if present, otherwise created
      from its chunks) and its entry appended to the pool. */
  function Gather(env: Env, s: Store, names: seq<string>): (r: Gathered)
    ensures |r.created| <= |names| && s.Keys <= r.store.Keys
    ensures forall n :: n in r.created ==>
      && n in names && IsPdf(n)
      && CachePath(env.cacheDir, n) !in s && CachePath(env.cacheDir, n) in r.store
    ensures forall i, j :: 0 <= i < j < |r.created| ==>
      CachePath(env.cacheDir, r.created[i]) != CachePath(env.cacheDir, r.created[j])
    decreases |names|
  {
    if names == [] then Gathered(Entry([], []), s, [])
    else
      var g := Gather(env, s, names[..|names| - 1]);
      var n := names[|names| - 1];
      assert names == names[..|names| - 1] + [n];
      var key := CachePath(env.cacheDir, n);
      if !IsPdf(n) then g
      else if key in g.store then Gathered(Append(g.pool, g.store[key]), g.store, g.created)
      else
        var e := Embedded(env.embed, env.chunker(n));
        Gathered(Append(g.pool, e), g.store[key := e], g.created + [n])
  }

  /** The pool read from cache `s` alone, PDF by PDF in listing order. */
  function Pooled(env: Env, s: Store, names: seq<string>): Pool
    requires Covers(env, s, names)
    decreases |names|
  {
    if names == [] then Entry([], [])
    else
      var front := Pooled(env, s, names[..|names| - 1]);
      var n := names[|names| - 1];
      if IsPdf(n) then Append(front, s[CachePath(env.cacheDir, n)]) else front
  }

  /** The pool of freshly chunked and embedded PDFs, in listing order. */
  function Fresh(env: Env, names: seq<string>): Pool
    decreases |names|
  {
    if names == [] then Entry([], [])
    else
      var front := Fresh(env, names[..|names| - 1]);
      var n := names[|names| - 1];
      if IsPdf(n) then Append(front, Embedded(env.embed, env.chunker(n))) else front
  }

  /** The cache after `reset`: emptied, then one `create` per PDF in
      listing order. */
  function Rebuilt(env: Env, names: seq<string>): (r: Store)
    ensures WellFormed(r)
    decreases |names|
  {
    if names == [] then map[]
    else
      var s := Rebuilt(env, names[..|names| - 1]);
      var n := names[|names| - 1];
      if IsPdf(n) then s[CachePath(env.cacheDir, n) := Embedded(env.embed, env.chunker(n))] else s
  }

  /** No later PDF of the listing writes the cache file of `names[i]`. */
  predicate LastWriter(env: Env, names: seq<string>, i: int)
    requires 0 <= i < |names|
  {
    forall j :: i < j < |names| && IsPdf(names[j]) ==> CachePath(env.cacheDir, names[j]) != CachePath(env.cacheDir, names[i])
  }

  // ---------------------------------------------------------------------
  // fetch_all

  /** A pass never changes an entry that was there, and leaves a cache file
      for every PDF it saw. */
  lemma {:induction false} GatherExtends(env: Env, s: Store, names: seq<string>)
    ensures Extends(s, Gather(env, s, names).store)
    ensures Covers(env, Gather(env, s, names).store, names)
    decreases |names|
  {
    if names != [] {
      var front, last := names[..|names| - 1], names[|names| - 1];
      GatherExtends(env, s, front);
      var g := Gather(env, s, front);
      var key := CachePath(env.cacheDir, last);
      var t := Gather(env, s, names).store;
      if IsPdf(last) && key !in g.store {
        assert t == g.store[key := Embedded(env.embed, env.chunker(last))];
      } else {
        assert t == g.store;
      }
      assert Extends(g.store, t);
      assert names == front + [last];
      assert IsPdf(last) ==> key in t;
    }
  }

  /** The pool read from a cache depends only on the entries of the
      listing's PDFs, so a cache that keeps those entries gives the same. */
  lemma {:induction false} PooledStable(env: Env, s: Store, t: Store, names: seq<string>)
    requires Covers(env, s, names) && Extends(s, t)
    ensures Covers(env, t, names)
    ensures Pooled(env, s, names) == Pooled(env, t, names)
    decreases |names|
  {
    if names != [] {
      PooledStable(env, s, t, names[..|names| - 1]);
    }
  }

  /** A pass returns exactly what the cache holds for each PDF at its end,
      in listing order. */
  lemma {:induction false} GatherPool(env: Env, s: Store, names: seq<string>)
    ensures Covers(env, Gather(env, s, names).store, names)
    ensures Gather(env, s, names).pool == Pooled(env, Gather(env, s, names).store, names)
    decreases |names|
  {
    GatherExtends(env, s, names);
    if names != [] {
      var front := names[..|names| - 1];
      var n := names[|names| - 1];
      var g := Gather(env, s, front);
      GatherPool(env, s, front);
      if IsPdf(n) && CachePath(env.cacheDir, n) !in g.store {
        var t := g.store[CachePath(env.cacheDir, n) := Embedded(env.embed, env.chunker(n))];
        PooledStable(env, g.store, t, front);
      }
    }
  }

  /** Over a cache that already holds every PDF's file, a pass is a pure
      hit: it creates nothing, changes nothing, and reads the pool. */
  lemma {:induction false} GatherCovered(env: Env, s: Store, names: seq<string>)
    requires Covers(env, s, names)
    ensures Gather(env, s, names) == Gathered(Pooled(env, s, names), s, [])
    decreases |names|
  {
    if names != [] {
      GatherCovered(env, s, names[..|names| - 1]);
    }
  }

  /** `fetch_all` run twice over the same listing returns the same pool the
      second time and creates nothing. */
  lemma GatherIdempotent(env: Env, s: Store, names: seq<string>)
    ensures var g := Gather(env, s, names);
      Gather(env, g.store, names) == Gathered(g.pool, g.store, [])
  {
    var g := Gather(env, s, names);
    GatherPool(env, s, names);
    GatherCovered(env, g.store, names);
  }

  /** A pass keeps every entry aligned, and then its pool has one row per chunk. */
  lemma {:induction false} GatherAligned(env: Env, s: Store, names: seq<string>)
    requires WellFormed(s)
    ensures WellFormed(Gather(env, s, names).store)
    ensures |Gather(env, s, names).pool.rows| == |Gather(env, s, names).pool.chunks|
    decreases |names|
  {
    if names != [] {
      GatherAligned(env, s, names[..|names| - 1]);
    }
  }

  /** The pool read from a cache has no chunk exactly when every PDF's
      entry has none. */
  lemma {:induction false} PooledEmpty(env: Env, s: Store, names: seq<string>)
    requires Covers(env, s, names)
    ensures Pooled(env, s, names).chunks == [] <==>
      forall n :: n in names && IsPdf(n) ==> s[CachePath(env.cacheDir, n)].chunks == []
    decreases |names|
  {
    if names != [] {
      var front := names[..|names| - 1];
      var last := names[|names| - 1];
      PooledEmpty(env, s, front);
      assert names == front + [last];
    }
  }

  /** `fetch_all` gathers no chunk (and so fails) exactly when every PDF of
      the listing ends up with an entry without chunks: also when the folder
      has PDFs, all of which chunk to nothing. */
  lemma GatherEmptyIff(env: Env, s: Store, names: seq<string>)
    ensures var g := Gather(env, s, names);
      Covers(env, g.store, names) &&
      (g.pool.chunks == [] <==> forall n :: n in names && IsPdf(n) ==> g.store[CachePath(env.cacheDir, n)].chunks == [])
  {
    GatherPool(env, s, names);
    PooledEmpty(env, Gather(env, s, names).store, names);
  }

  // ---------------------------------------------------------------------
  // reset

  /** After `reset` the cache holds a file for every PDF and no other file. */
  lemma {:induction false} RebuiltKeys(env: Env, names: seq<string>)
    ensures Covers(env, Rebuilt(env, names), names)
    ensures forall key :: key in Rebuilt(env, names) ==>
      exists n :: n in names && IsPdf(n) && CachePath(env.cacheDir, n) == key
    decreases |names|
  {
    if names != [] {
      var front := names[..|names| - 1];
      var last := names[|names| - 1];
      RebuiltKeys(env, front);
      assert names == front + [last];
      var r := Rebuilt(env, names);
      forall key | key in r
        ensures exists n :: n in names && IsPdf(n) && CachePath(env.cacheDir, n) == key
      {
        if IsPdf(last) && key == CachePath(env.cacheDir, last) {
          assert last in names;
        } else {
          var n :| n in front && IsPdf(n) && CachePath(env.cacheDir, n) == key;
          assert n in names;
        }
      }
    }
  }

  /** After `reset` each cache file holds the chunks and rows of the last
      PDF of the listing that maps to it: the last writer wins. */
  lemma {:induction false} RebuiltLastWriterWins(env: Env, names: seq<string>, i: int)
    requires 0 <= i < |names| && IsPdf(names[i]) && LastWriter(env, names, i)
    ensures CachePath(env.cacheDir, names[i]) in Rebuilt(env, names)
    ensures Rebuilt(env, names)[CachePath(env.cacheDir, names[i])] == Embedded(env.embed, env.chunker(names[i]))
    decreases |names|
  {
    var front := names[..|names| - 1];
    if i < |names| - 1 {
      assert front[i] == names[i];
      forall j | i < j < |front| && IsPdf(front[j])
        ensures CachePath(env.cacheDir, front[j]) != CachePath(env.cacheDir, front[i])
      {
        assert front[j] == names[j];
      }
      RebuiltLastWriterWins(env, front, i);
    }
  }

  /** A cache holding each PDF's fresh entry gives back the fresh pool. */
  lemma {:induction false} PooledFresh(env: Env, s: Store, names: seq<string>)
    requires Covers(env, s, names)
    requires forall n :: n in names && IsPdf(n) ==> s[CachePath(env.cacheDir, n)] == Embedded(env.embed, env.chunker(n))
    ensures Pooled(env, s, names) == Fresh(env, names)
    decreases |names|
  {
    if names != [] {
      var front := names[..|names| - 1];
      var last := names[|names| - 1];
      assert names == front + [last];
      PooledFresh(env, s, front);
    }
  }

  /** When no two PDFs share a cache file, `fetch_all` right after `reset`
      creates nothing, changes nothing, and returns every PDF's fresh chunks
      and rows in listing order. */
  lemma ResetThenFetchAll(env: Env, names: seq<string>)
    requires NoCollisions(env, names)
    ensures Gather(env, Rebuilt(env, names), names) == Gathered(Fresh(env, names), Rebuilt(env, names), [])
  {
    var r := Rebuilt(env, names);
    RebuiltKeys(env, names);
    forall n | n in names && IsPdf(n)
      ensures r[CachePath(env.cacheDir, n)] == Embedded(env.embed, env.chunker(n))
    {
      var i :| 0 <= i < |names| && names[i] == n;
      RebuiltLastWriterWins(env, names, i);
    }
    PooledFresh(env, r, names);
    GatherCovered(env, r, names);
  }

  /** When two PDFs of a listing share a cache file, `fetch_all` after
      `reset` returns the chunks of the later one twice: those of the
      earlier one are lost. */
  lemma CollidingPdfsShareEntry(env: Env, first: string, second: string)
    requires IsPdf(first) && IsPdf(second) && CachePath(env.cacheDir, first) == CachePath(env.cacheDir, second)
    ensures Gather(env, Rebuilt(env, [first, second]), [first, second]).pool.chunks ==
      env.chunker(second) + env.chunker(second)
  {
    var names := [first, second];
    var k := CachePath(env.cacheDir, first);
    var e1 := Embedded(env.embed, env.chunker(first));
    var e2 := Embedded(env.embed, env.chunker(second));
    assert names[..1] == [first] && [first][..0] == [];
    assert Rebuilt(env, [first]) == map[k := e1];
    var r := Rebuilt(env, names);
    assert r == map[k := e1][k := e2];
    assert k in r && r[k] == e2;
    assert Gather(env, r, []) == Gathered(Entry([], []), r, []);
    var g := Gather(env, r, [first]);
    assert g == Gathered(Append(Entry([], []), e2), r, []);
    assert names[..|names| - 1] == [first] && names[|names| - 1] == second;
    assert k in g.store && g.store[k] == e2;
    assert Gather(env, r, names) == Gathered(Append(g.pool, e2), r, []);
  }

  /** "a.pdf" followed by "a.PDF": after `reset`, `fetch_all` returns the
      chunks of "a.PDF" twice. */
  lemma UpperCaseCopyShadowsLowerCase(env: Env)
    ensures Gather(env, Rebuilt(env, ["a.pdf", "a.PDF"]), ["a.pdf", "a.PDF"]).pool.chunks ==
      env.chunker("a.PDF") + env.chunker("a.PDF")
  {
    UpperAndLowerPdfCollide(env.cacheDir);
    assert IsPdf("a.pdf") && IsPdf("a.PDF");
    CollidingPdfsShareEntry(env, "a.pdf", "a.PDF");
  }
}
