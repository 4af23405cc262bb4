/** Top-k selection over a vector of similarity scores: the positions of the
    k highest scores, highest first. Scores are opaque values of a total
    order; which of several equal scores is taken first is not promised. */
module TopK {

  /** Every position occurs at most once. */
  predicate Distinct(s: seq<nat>) {
    forall a, b :: 0 <= a < b < |s| ==> s[a] != s[b]
  }

  /** Every position is below `n`. */
  predicate InRange(s: seq<nat>, n: nat) {
    forall a :: 0 <= a < |s| ==> s[a] < n
  }

  /** Scores do not increase along `s`. */
  predicate Descending(scores: seq<real>, s: seq<nat>)
    requires InRange(s, |scores|)
  {
    forall a, b :: 0 <= a < b < |s| ==> scores[s[a]] >= scores[s[b]]
  }

  /** Puts position `x` into the ranking `s` after every position whose
      score is at least as high. */
  function Insert(scores: seq<real>, x: nat, s: seq<nat>): (r: seq<nat>)
    requires x < |scores| && InRange(s, |scores|)
    ensures |r| == |s| + 1 && InRange(r, |scores|)
    ensures forall y :: y in r <==> y == x || y in s
    ensures Descending(scores, s) ==> Descending(scores, r)
    ensures Distinct(s) && x !in s ==> Distinct(r)
  {
    if s == [] then [x]
    else if scores[x] > scores[s[0]] then [x] + s
    else
      var rest := Insert(scores, x, s[1..]);
      HeadDominates(scores, s, x, rest);
      HeadFresh(s, x, rest);
      [s[0]] + rest
  }

  /** A ranking's head scores at least as high as anything built from its
      tail and one lower-scoring position. */
  lemma HeadDominates(scores: seq<real>, s: seq<nat>, x: nat, rest: seq<nat>)
    requires |s| > 0 && x < |scores| && InRange(s, |scores|) && InRange(rest, |scores|)
    requires scores[x] <= scores[s[0]]
    requires forall y :: y in rest ==> y == x || y in s[1..]
    ensures Descending(scores, s) && Descending(scores, rest) ==> Descending(scores, [s[0]] + rest)
  {
    if Descending(scores, s) && Descending(scores, rest) {
      forall b | 0 <= b < |rest|
        ensures scores[s[0]] >= scores[rest[b]]
      {
        assert rest[b] in rest;
        if rest[b] != x {
          var p :| 0 <= p < |s[1..]| && s[1..][p] == rest[b];
          assert s[p + 1] == rest[b];
        }
      }
    }
  }

  /** A ranking's head does not occur again in what is built from its tail
      and one new position. */
  lemma HeadFresh(s: seq<nat>, x: nat, rest: seq<nat>)
    requires |s| > 0
    requires forall y :: y in rest ==> y == x || y in s[1..]
    ensures Distinct(s) && x !in s && Distinct(rest) ==> Distinct([s[0]] + rest)
  {
    if Distinct(s) && x !in s && Distinct(rest) {
      assert s[0] !in s[1..];
    }
  }

  /** The positions 0 .. n-1 ranked by score, highest first. */
  function Rank(scores: seq<real>, n: nat): (r: seq<nat>)
    requires n <= |scores|
    ensures |r| == n && InRange(r, n) && Distinct(r)
    ensures InRange(r, |scores|) && Descending(scores, r)
    ensures forall i: nat :: i < n ==> i in r
  {
    if n == 0 then []
    else
      var front := Rank(scores, n - 1);
      assert InRange(front, |scores|);
      var r := Insert(scores, n - 1, front);
      assert forall a :: 0 <= a < |r| ==> r[a] in r;
      r
  }

  /** The first k positions of a complete ranking score at least as high as
      every position left out. */
  lemma PrefixDominates(scores: seq<real>, ranking: seq<nat>, k: nat)
    requires InRange(ranking, |scores|) && Descending(scores, ranking)
    requires forall i: nat :: i < |scores| ==> i in ranking
    requires k <= |ranking|
    ensures forall i: nat, j :: i < |scores| && i !in ranking[..k] && 0 <= j < k ==> scores[ranking[j]] >= scores[i]
  {
    forall i: nat, j | i < |scores| && i !in ranking[..k] && 0 <= j < k
      ensures scores[ranking[j]] >= scores[i]
    {
      assert i in ranking;
      var p :| 0 <= p < |ranking| && ranking[p] == i;
    }
  }

  /** The positions of the k highest scores, as `topk` returns them. */
  function TopIndices(scores: seq<real>, k: nat): (r: seq<nat>)
    requires k <= |scores|
    ensures |r| == k && InRange(r, |scores|) && Distinct(r)
    ensures Descending(scores, r)
    ensures forall i: nat, j :: i < |scores| && i !in r && 0 <= j < k ==> scores[r[j]] >= scores[i]
  {
    var ranking := Rank(scores, |scores|);
    PrefixDominates(scores, ranking, k);
    ranking[..k]
  }
}
