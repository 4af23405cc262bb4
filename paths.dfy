/** File-name handling of the vector store: the POSIX `splitext` and `join`
    it relies on, the cache-file path derived from a PDF name, and the
    case-insensitive ".pdf" filter applied to a folder listing. */
module Paths {

  /** Index of the last occurrence of `c` in `s`, or -1 when there is none. */
  function RFind(s: string, c: char): (r: int)
    ensures -1 <= r < |s|
    ensures r >= 0 ==> s[r] == c
    ensures forall j :: r < j < |s| ==> s[j] != c
  {
    if s == [] then -1
    else if s[|s| - 1] == c then |s| - 1
    else RFind(s[..|s| - 1], c)
  }

  /** The last path component of `p` (after its last '/') has a character
      other than '.' before position `hi`. */
  predicate NamedBefore(p: string, hi: int)
    requires hi <= |p|
  {
    exists i :: RFind(p, '/') < i < hi && p[i] != '.'
  }

  /** An extension as `splitext` returns it: a dot followed by no further
      dot and no separator. */
  predicate IsExtension(e: string) {
    |e| > 0 && e[0] == '.' && forall j :: 0 < j < |e| ==> e[j] != '.' && e[j] != '/'
  }

  /** POSIX `splitext`: the extension starts at the last dot of the last
      path component, provided some character other than a dot comes before
      it in that component; otherwise the extension is empty. */
  function SplitExt(p: string): (r: (string, string))
    ensures r.0 + r.1 == p
    ensures r.1 == [] || IsExtension(r.1)
    ensures r.1 != [] ==> NamedBefore(p, |r.0|)
  {
    var sep := RFind(p, '/');
    var dot := RFind(p, '.');
    if dot > sep && exists i | sep < i < dot :: p[i] != '.' then
      (p[..dot], p[dot..])
    else
      (p, [])
  }

  /** The part of a name that is kept when its extension is dropped. */
  function Stem(p: string): string {
    SplitExt(p).0
  }

  predicate Absolute(b: string) {
    |b| > 0 && b[0] == '/'
  }

  /** POSIX `join` of two components: an absolute second component replaces
      the first; otherwise a '/' is put between them unless the first is
      empty or already ends with one. */
  function Join(a: string, b: string): (r: string)
    ensures Absolute(b) ==> r == b
    ensures !Absolute(b) ==>
      && |a| + |b| <= |r|
      && r == a + r[|a|..|r| - |b|] + b
      && r[|a|..|r| - |b|] in {"", "/"}
      && (r[|a|..|r| - |b|] == "" <==> a == [] || a[|a| - 1] == '/')
  {
    if Absolute(b) then b
    else if a == [] || a[|a| - 1] == '/' then a + b
    else a + "/" + b
  }

  /** The cache file of a PDF, `get_cache_path`: its name with the last
      extension dropped and ".pkl" appended, inside the cache directory. */
  function CachePath(cacheDir: string, name: string): (r: string)
    ensures EndsWith(r, Stem(name) + ".pkl")
    ensures !Absolute(name) ==> |cacheDir| <= |r| && r[..|cacheDir|] == cacheDir
    ensures Absolute(name) ==> r == Stem(name) + ".pkl"
  {
    if !Absolute(name) then RelativeStem(name); Join(cacheDir, Stem(name) + ".pkl")
    else Join(cacheDir, Stem(name) + ".pkl")
  }

  /** Splitting a name built from a stem and an extension gives both back,
      as long as the stem's last component has a character other than a dot. */
  lemma SplitExtRoundTrip(stem: string, ext: string)
    requires NamedBefore(stem, |stem|)
    requires IsExtension(ext)
    ensures SplitExt(stem + ext) == (stem, ext)
  {
    var p := stem + ext;
    var sep, dot := RFind(p, '/'), RFind(p, '.');
    forall j | |stem| < j < |p|
      ensures p[j] != '.' && p[j] != '/'
    {
      assert p[j] == ext[j - |stem|];
    }
    assert p[|stem|] == '.' && p[|stem|] != '/';
    assert dot == |stem|;
    var stemSep := RFind(stem, '/');
    forall j | stemSep < j < |stem|
      ensures p[j] != '/'
    {
      assert p[j] == stem[j];
    }
    if stemSep >= 0 {
      assert p[stemSep] == stem[stemSep];
    }
    assert sep == stemSep;
    var i :| stemSep < i < |stem| && stem[i] != '.';
    assert p[i] == stem[i];
    assert p[..dot] == stem && p[dot..] == ext;
  }

  /** Names that differ only in their extension share one cache file. */
  lemma ExtensionsCollide(cacheDir: string, stem: string, ext1: string, ext2: string)
    requires NamedBefore(stem, |stem|)
    requires IsExtension(ext1) && IsExtension(ext2)
    ensures CachePath(cacheDir, stem + ext1) == CachePath(cacheDir, stem + ext2)
  {
    SplitExtRoundTrip(stem, ext1);
    SplitExtRoundTrip(stem, ext2);
  }

  /** "a.pdf" and "a.PDF" are stored under the same cache file "a.pkl". */
  lemma UpperAndLowerPdfCollide(cacheDir: string)
    ensures CachePath(cacheDir, "a.pdf") == CachePath(cacheDir, "a.PDF") == Join(cacheDir, "a.pkl")
  {
    var stem, lower, upper := "a", ".pdf", ".PDF";
    SingleLetterIsNamed(stem);
    assert IsExtension(lower) && IsExtension(upper);
    assert "a.pdf" == stem + lower && "a.PDF" == stem + upper && "a.pkl" == stem + ".pkl";
    SplitExtRoundTrip(stem, lower);
    SplitExtRoundTrip(stem, upper);
  }

  lemma SingleLetterIsNamed(stem: string)
    requires |stem| == 1 && stem[0] != '.' && stem[0] != '/'
    ensures NamedBefore(stem, 1)
  {
    assert RFind(stem[..0], '/') == -1;
  }

  /** For relative names, two names share a cache file exactly when their
      stems are equal. */
  lemma CachePathsEqualIffStemsEqual(cacheDir: string, n1: string, n2: string)
    requires !Absolute(n1) && !Absolute(n2)
    ensures CachePath(cacheDir, n1) == CachePath(cacheDir, n2) <==> Stem(n1) == Stem(n2)
  {
    var b1, b2 := Stem(n1) + ".pkl", Stem(n2) + ".pkl";
    RelativeStem(n1);
    RelativeStem(n2);
    if CachePath(cacheDir, n1) == CachePath(cacheDir, n2) {
      var r := Join(cacheDir, b1);
      var gap := if cacheDir == [] || cacheDir[|cacheDir| - 1] == '/' then 0 else 1;
      assert r == cacheDir + r[|cacheDir|..|cacheDir| + gap] + b1;
      assert r == cacheDir + r[|cacheDir|..|cacheDir| + gap] + b2;
      assert b1 == r[|cacheDir| + gap..] == b2;
      assert Stem(n1) == b1[..|b1| - 4] == b2[..|b2| - 4] == Stem(n2);
    }
  }

  /** The stem of a relative name, with ".pkl" appended, is relative. */
  lemma RelativeStem(n: string)
    requires !Absolute(n)
    ensures !Absolute(Stem(n) + ".pkl")
  {
    var s := Stem(n);
    if s != [] {
      assert s[0] == (s + SplitExt(n).1)[0] == n[0];
    }
  }

  function LowerChar(c: char): char {
    if 'A' <= c <= 'Z' then (c as int + 32) as char else c
  }

  /** `str.lower`, on the ASCII letters. */
  function Lower(s: string): (r: string)
    ensures |r| == |s|
  {
    seq(|s|, i requires 0 <= i < |s| => LowerChar(s[i]))
  }

  predicate EndsWith(s: string, suffix: string) {
    |suffix| <= |s| && s[|s| - |suffix|..] == suffix
  }

  /** The folder filter, `name.lower().endswith(".pdf")`: it ignores the
      case of each of the three letters, and nothing else. */
  predicate IsPdf(name: string)
    ensures IsPdf(name) <==>
      var n := |name|;
      n >= 4 && name[n - 4] == '.' && name[n - 3] in "pP" && name[n - 2] in "dD" && name[n - 1] in "fF"
  {
    var n := |name|;
    assert n >= 4 ==> (Lower(name)[n - 4..] ==
      [LowerChar(name[n - 4]), LowerChar(name[n - 3]), LowerChar(name[n - 2]), LowerChar(name[n - 1])]);
    EndsWith(Lower(name), ".pdf")
  }

  /** The names of a listing that pass the filter, in listing order. */
  function PdfNames(listing: seq<string>): (r: seq<string>)
    ensures |r| <= |listing|
    ensures forall n :: n in r <==> n in listing && IsPdf(n)
  {
    if listing == [] then []
    else
      var front := PdfNames(listing[..|listing| - 1]);
      var last := listing[|listing| - 1];
      assert listing == listing[..|listing| - 1] + [last];
      if IsPdf(last) then front + [last] else front
  }
}
