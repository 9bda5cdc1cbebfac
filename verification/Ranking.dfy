/** The ranking step of `get_answers`: score every chunk against the
    question, sort by score with the highest first (Python's sort is stable,
    and stays stable under `reverse=True`), and keep the first `limit`. */
module Ranking {
  import opened Wrappers
  import opened Segmenter
  import opened Ingest

  /** A `(chunk, similarity)` pair of the `similarities` list. */
  datatype Scored = Scored(chunk: Chunk, score: real)

  /** Scores never increase along the sequence. */
  ghost predicate NonIncreasing(s: seq<Scored>) {
    forall i, j :: 0 <= i < j < |s| ==> s[i].score >= s[j].score
  }

  /** The elements scored exactly `v`, in their order in `s`. Stability is
      the statement that sorting keeps every one of these unchanged. */
  function WithScore(s: seq<Scored>, v: real): seq<Scored> {
    if |s| == 0 then []
    else (if s[0].score == v then [s[0]] else []) + WithScore(s[1..], v)
  }

  /** Everything in the class of `v` is an element of `s` scored `v`. */
  lemma {:induction false} WithScoreIn(s: seq<Scored>, v: real, x: Scored)
    requires x in WithScore(s, v)
    ensures x in s && x.score == v
    decreases |s|
  {
    if s[0].score == v && x == s[0] {
    } else {
      assert x in WithScore(s[1..], v);
      WithScoreIn(s[1..], v, x);
    }
  }

  /** Every element of `s` scored `v` is in the class of `v`. */
  lemma {:induction false} WithScoreHas(s: seq<Scored>, v: real, k: nat)
    requires k < |s| && s[k].score == v
    ensures s[k] in WithScore(s, v)
    decreases k
  {
    if k > 0 {
      WithScoreHas(s[1..], v, k - 1);
    }
  }

  lemma {:induction false} WithScoreAppend(a: seq<Scored>, b: seq<Scored>, v: real)
    ensures WithScore(a + b, v) == WithScore(a, v) + WithScore(b, v)
    decreases |a|
  {
    if |a| == 0 {
      assert a + b == b;
    } else {
      var ab, h := a + b, if a[0].score == v then [a[0]] else [];
      assert ab[0] == a[0] && ab[1..] == a[1..] + b;
      WithScoreAppend(a[1..], b, v);
      assert WithScore(ab, v) == h + WithScore(a[1..] + b, v);
      assert WithScore(a, v) == h + WithScore(a[1..], v);
    }
  }

  /** No element of `s` is scored `v`. */
  lemma {:induction false} WithScoreAbsent(s: seq<Scored>, v: real)
    requires forall k :: 0 <= k < |s| ==> s[k].score != v
    ensures WithScore(s, v) == []
    decreases |s|
  {
    if |s| > 0 {
      WithScoreAbsent(s[1..], v);
    }
  }

  /** Places `x` after every element scored at least as high: in a sorted
      sequence of elements that came before `x`, ties keep `x` last. */
  function Insert(s: seq<Scored>, x: Scored): (r: seq<Scored>)
    ensures |r| == |s| + 1
    ensures r[0] == x || (|s| > 0 && r[0] == s[0])
    ensures multiset(r) == multiset(s) + multiset{x}
    decreases |s|
  {
    if |s| == 0 then [x]
    else if s[0].score >= x.score then
      var r := [s[0]] + Insert(s[1..], x);
      assert multiset(r) == multiset(s) + multiset{x} by {
        assert s == [s[0]] + s[1..];
      }
      r
    else [x] + s
  }

  /** Inserting into a sorted sequence keeps it sorted. */
  lemma {:induction false} InsertSorted(s: seq<Scored>, x: Scored)
    requires NonIncreasing(s)
    ensures NonIncreasing(Insert(s, x))
    decreases |s|
  {
    if |s| == 0 {
    } else if s[0].score >= x.score {
      InsertSorted(s[1..], x);
      ConsSorted(s[0], Insert(s[1..], x));
    } else {
      ConsSorted(x, s);
    }
  }

  /** Inserting into a sorted sequence adds `x` at the end of its own score
      class and changes no other class. */
  lemma {:induction false} InsertClasses(s: seq<Scored>, x: Scored, v: real)
    requires NonIncreasing(s)
    ensures WithScore(Insert(s, x), v) == WithScore(s, v) + WithScore([x], v)
    decreases |s|
  {
    if |s| == 0 {
      assert WithScore(s, v) == [];
    } else if s[0].score >= x.score {
      InsertClasses(s[1..], x, v);
      assert s == [s[0]] + s[1..];
      ConsClass(s[0], Insert(s[1..], x), s[1..], [x], v);
    } else {
      InsertFrontClasses(s, x, v);
    }
  }

  /** When `x` outscores the head of `s`, it goes in front and is the only
      element of its own score class. */
  lemma InsertFrontClasses(s: seq<Scored>, x: Scored, v: real)
    requires NonIncreasing(s) && |s| > 0 && s[0].score < x.score
    ensures WithScore([x] + s, v) == WithScore(s, v) + WithScore([x], v)
  {
    WithScoreAppend([x], s, v);
    if v == x.score {
      WithScoreAbsent(s, v);
    }
  }

  /** Putting an element scored at least as high as the head in front keeps
      a sequence sorted. */
  lemma ConsSorted(y: Scored, rest: seq<Scored>)
    requires NonIncreasing(rest)
    requires |rest| > 0 ==> y.score >= rest[0].score
    ensures NonIncreasing([y] + rest)
  {
    var r := [y] + rest;
    forall i, j | 0 <= i < j < |r| ensures r[i].score >= r[j].score {
      assert r[j] == rest[j - 1];
      if i == 0 {
        assert rest[0].score >= rest[j - 1].score;
      } else {
        assert r[i] == rest[i - 1];
      }
    }
  }

  /** The class of `v` in `[y] + rest` when `rest` has the classes of
      `a + b`. */
  lemma ConsClass(y: Scored, rest: seq<Scored>, a: seq<Scored>, b: seq<Scored>, v: real)
    requires WithScore(rest, v) == WithScore(a, v) + WithScore(b, v)
    ensures WithScore([y] + rest, v) == WithScore([y] + a, v) + WithScore(b, v)
  {
    WithScoreAppend([y], rest, v);
    WithScoreAppend([y], a, v);
  }

  /** `similarities.sort(key=lambda x: x[1], reverse=True)`: insertion sort
      of each element into the sorted sequence of the ones before it. The
      result is sorted, a permutation of the input, and every run of equal
      scores keeps its input order. */
  function StableSort(s: seq<Scored>): (r: seq<Scored>)
    ensures |r| == |s|
    ensures NonIncreasing(r)
    ensures multiset(r) == multiset(s)
    ensures forall v :: WithScore(r, v) == WithScore(s, v)
    decreases |s|
  {
    if |s| == 0 then []
    else
      var init := s[..|s| - 1];
      var last := s[|s| - 1];
      var sorted := StableSort(init);
      InsertSorted(sorted, last);
      InsertLastMultiset(s, sorted);
      InsertLastClasses(s, sorted);
      Insert(sorted, last)
  }

  lemma InsertLastMultiset(s: seq<Scored>, sorted: seq<Scored>)
    requires |s| > 0 && multiset(sorted) == multiset(s[..|s| - 1])
    ensures multiset(Insert(sorted, s[|s| - 1])) == multiset(s)
  {
    LastSplit(s);
  }

  lemma InsertLastClasses(s: seq<Scored>, sorted: seq<Scored>)
    requires |s| > 0 && NonIncreasing(sorted)
    requires forall v :: WithScore(sorted, v) == WithScore(s[..|s| - 1], v)
    ensures forall v :: WithScore(Insert(sorted, s[|s| - 1]), v) == WithScore(s, v)
  {
    forall v ensures WithScore(Insert(sorted, s[|s| - 1]), v) == WithScore(s, v) {
      InsertLastClass(s, sorted, v);
    }
  }

  /** One score class of the insertion step. */
  lemma InsertLastClass(s: seq<Scored>, sorted: seq<Scored>, v: real)
    requires |s| > 0 && NonIncreasing(sorted) && WithScore(sorted, v) == WithScore(s[..|s| - 1], v)
    ensures WithScore(Insert(sorted, s[|s| - 1]), v) == WithScore(s, v)
  {
    var init, last := s[..|s| - 1], s[|s| - 1];
    InsertClasses(sorted, last, v);
    WithScoreAppend(init, [last], v);
    LastSplit(s);
  }

  /** A non-empty sequence is its front followed by its last element. */
  lemma LastSplit(s: seq<Scored>)
    requires |s| > 0
    ensures s == s[..|s| - 1] + [s[|s| - 1]]
  {
  }

  /** The first element of a non-empty sorted sequence carries the highest
      score of any element. */
  lemma HeadIsMax(t: seq<Scored>, y: Scored)
    requires NonIncreasing(t) && y in t
    ensures t[0].score >= y.score
  {
    var k :| 0 <= k < |t| && t[k] == y;
    if k > 0 {
      assert t[0].score >= t[k].score;
    }
  }

  /** Dropping the first element removes it from its own score class only. */
  lemma WithScoreTail(t: seq<Scored>, v: real)
    requires |t| > 0
    ensures WithScore(t, v) == (if t[0].score == v then [t[0]] else []) + WithScore(t[1..], v)
  {
  }

  /** The heads of two sorted sequences with the same score classes carry
      the same score. */
  lemma SameClassesSameTop(t: seq<Scored>, u: seq<Scored>)
    requires |t| > 0 && |u| > 0
    requires NonIncreasing(t) && NonIncreasing(u)
    requires WithScore(t, t[0].score) == WithScore(u, t[0].score)
    requires WithScore(t, u[0].score) == WithScore(u, u[0].score)
    ensures t[0].score == u[0].score
  {
    WithScoreHas(t, t[0].score, 0);
    WithScoreIn(u, t[0].score, t[0]);
    WithScoreHas(u, u[0].score, 0);
    WithScoreIn(t, u[0].score, u[0]);
    HeadIsMax(t, u[0]);
    HeadIsMax(u, t[0]);
  }

  /** The head of a non-empty sequence belongs to its own score class, so
      that class is not empty. */
  lemma HeadInOwnClass(t: seq<Scored>)
    requires |t| > 0
    ensures WithScore(t, t[0].score) != []
  {
    WithScoreHas(t, t[0].score, 0);
  }

  /** Stable sorting has only one possible outcome: two sorted sequences
      whose elements of each score come in the same order are equal. */
  lemma {:induction false} SortedWithSameClassesEqual(t: seq<Scored>, u: seq<Scored>)
    requires NonIncreasing(t) && NonIncreasing(u)
    requires forall v :: WithScore(t, v) == WithScore(u, v)
    ensures t == u
    decreases |t|
  {
    if |t| == 0 {
      if |u| > 0 {
        HeadInOwnClass(u);
        assert false;
      }
    } else if |u| == 0 {
      HeadInOwnClass(t);
      assert false;
    } else {
      var m := t[0].score;
      SameClassesSameTop(t, u);
      assert t[0] == u[0] by {
        assert WithScore(t, m)[0] == t[0];
        assert WithScore(u, m)[0] == u[0];
      }
      forall v ensures WithScore(t[1..], v) == WithScore(u[1..], v) {
        WithScoreTail(t, v);
        WithScoreTail(u, v);
        var tc, uc := WithScore(t[1..], v), WithScore(u[1..], v);
        if v == m {
          assert ([t[0]] + tc)[1..] == tc;
          assert ([u[0]] + uc)[1..] == uc;
        } else {
          assert [] + tc == tc && [] + uc == uc;
        }
      }
      SortedWithSameClassesEqual(t[1..], u[1..]);
      assert t == [t[0]] + t[1..];
      assert u == [u[0]] + u[1..];
    }
  }

  /** Any sorted rearrangement that keeps every run of equal scores in input
      order is the stable sort. */
  lemma StableSortUnique(s: seq<Scored>, t: seq<Scored>)
    requires NonIncreasing(t)
    requires forall v :: WithScore(t, v) == WithScore(s, v)
    ensures t == StableSort(s)
  {
    var r := StableSort(s);
    SortedWithSameClassesEqual(t, r);
  }

  /** The length of `s[:limit]` for a list of length `n`: a non-negative
      limit caps the length, a negative one drops that many from the end. */
  function SliceLength(n: nat, limit: int): (m: nat)
    ensures m <= n
  {
    if limit >= 0 then (if limit < n then limit else n)
    else if n + limit > 0 then n + limit else 0
  }

  /** `s[:limit]`: the longest prefix of at most `limit` elements, or for a
      negative limit the longest prefix that drops at least `-limit`
      elements from the end. */
  function Slice<T>(s: seq<T>, limit: int): (r: seq<T>)
    ensures |r| == SliceLength(|s|, limit)
    ensures r == s[..|r|]
    ensures limit >= 0 ==> |r| <= limit && (|r| < limit ==> r == s)
    ensures limit < 0 ==> |s| - |r| >= -limit || r == []
    ensures limit < 0 ==> |s| - |r| <= -limit
  {
    s[..SliceLength(|s|, limit)]
  }

  /** Cutting a sequence splits its multiset. */
  lemma MultisetCut(sorted: seq<Scored>, n: nat)
    requires n <= |sorted|
    ensures multiset(sorted) - multiset(sorted[..n]) == multiset(sorted[n..])
  {
    assert sorted == sorted[..n] + sorted[n..];
  }

  /** In a sorted sequence nothing after position `n` outscores anything
      before it. */
  lemma SortedCut(sorted: seq<Scored>, n: nat)
    requires n <= |sorted| && NonIncreasing(sorted)
    ensures forall x, y :: x in sorted[..n] && y in sorted[n..] ==> y.score <= x.score
  {
    forall x, y | x in sorted[..n] && y in sorted[n..] ensures y.score <= x.score {
      var i :| 0 <= i < n && sorted[..n][i] == x;
      var j :| 0 <= j < |sorted| - n && sorted[n..][j] == y;
      assert sorted[i] == x && sorted[n + j] == y;
    }
  }

  /** The classes of a prefix are prefixes of the classes of the whole. */
  lemma PrefixClasses(sorted: seq<Scored>, n: nat)
    requires n <= |sorted|
    ensures forall v :: WithScore(sorted[..n], v) <= WithScore(sorted, v)
  {
    assert sorted == sorted[..n] + sorted[n..];
    forall v ensures WithScore(sorted[..n], v) <= WithScore(sorted, v) {
      WithScoreAppend(sorted[..n], sorted[n..], v);
    }
  }

  /** `similarities[:limit]` after the sort: the best `limit` entries,
      highest first. Nothing left out scores higher than anything kept, and
      among equal scores the kept ones are the first of them in input order. */
  function Rank(scored: seq<Scored>, limit: int): (r: seq<Scored>)
    ensures |r| == SliceLength(|scored|, limit)
    ensures NonIncreasing(r)
    ensures multiset(r) <= multiset(scored)
    ensures forall x, y :: x in r && y in multiset(scored) - multiset(r) ==> y.score <= x.score
    ensures forall v :: WithScore(r, v) <= WithScore(scored, v)
  {
    var sorted := StableSort(scored);
    var r := Slice(sorted, limit);
    MultisetCut(sorted, |r|);
    SortedCut(sorted, |r|);
    PrefixClasses(sorted, |r|);
    r
  }

  /** Chunk `k` is the first whose similarity fails, with message `e`. */
  predicate FirstFailure(question: Vector, chunks: seq<Chunk>,
                         similarity: (Vector, Vector) -> Result<real, string>, k: int, e: string) {
    && 0 <= k < |chunks|
    && similarity(question, chunks[k].embedding) == Failure(e)
    && forall j :: 0 <= j < k ==> similarity(question, chunks[j].embedding).Success?
  }

  /** The similarity loop of `get_answers`: the chunks paired with their
      similarity to the question, in input order, or the first failure. */
  function ScoreChunks(question: Vector, chunks: seq<Chunk>,
                       similarity: (Vector, Vector) -> Result<real, string>): (r: Result<seq<Scored>, string>)
    ensures r.Success? <==> forall k :: 0 <= k < |chunks| ==> similarity(question, chunks[k].embedding).Success?
    ensures r.Success? ==> |r.value| == |chunks|
    ensures r.Success? ==> forall k :: 0 <= k < |chunks| ==>
              r.value[k] == Scored(chunks[k], similarity(question, chunks[k].embedding).value)
    ensures r.Failure? ==> exists k :: FirstFailure(question, chunks, similarity, k, r.error)
    decreases |chunks|
  {
    if |chunks| == 0 then Success([])
    else
      match similarity(question, chunks[0].embedding)
      case Failure(e) =>
        assert FirstFailure(question, chunks, similarity, 0, e);
        Failure(e)
      case Success(score) =>
        var rest := ScoreChunks(question, chunks[1..], similarity);
        if rest.Failure? then
          var k :| FirstFailure(question, chunks[1..], similarity, k, rest.error);
          assert forall j :: 0 < j < k + 1 ==> chunks[1..][j - 1] == chunks[j];
          assert chunks[1..][k] == chunks[k + 1];
          assert FirstFailure(question, chunks, similarity, k + 1, rest.error);
          Failure(rest.error)
        else
          assert forall k :: 0 < k < |chunks| ==> chunks[1..][k - 1] == chunks[k];
          Success([Scored(chunks[0], score)] + rest.value)
  }
}
