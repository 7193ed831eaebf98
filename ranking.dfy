/**
 * The ranking: the file list is sorted in place by descending score. The
 * library sort used is stable, so files with equal scores keep their
 * relative order; it is modelled here by an insertion sort with the same
 * comparison.
 */
module Ranking {
  import opened Seqs

  /** Every file of `s` has a score. */
  ghost predicate AllScored(s: seq<Path>, scores: map<Path, int>)
  {
    forall i :: 0 <= i < |s| ==> s[i] in scores
  }

  /** Scores do not increase from left to right. */
  ghost predicate SortedDesc(s: seq<Path>, scores: map<Path, int>)
    requires AllScored(s, scores)
  {
    forall i, j :: 0 <= i < j < |s| ==> scores[s[i]] >= scores[s[j]]
  }

  /**
   * Places `x` into `t` after every file whose score is at least its own,
   * that is, after the earlier files it ties with.
   */
  function Insert(x: Path, t: seq<Path>, scores: map<Path, int>): (r: seq<Path>)
    requires x in scores && AllScored(t, scores)
    ensures AllScored(r, scores)
  {
    if t == [] then [x]
    else if scores[t[0]] >= scores[x] then
      assert t == [t[0]] + t[1..];
      [t[0]] + Insert(x, t[1..], scores)
    else [x] + t
  }

  /** Inserting adds exactly `x` to the files of `t`. */
  lemma {:induction false} InsertPermutation(x: Path, t: seq<Path>, scores: map<Path, int>)
    requires x in scores && AllScored(t, scores)
    ensures multiset(Insert(x, t, scores)) == multiset(t) + multiset{x}
  {
    if t != [] && scores[t[0]] >= scores[x] {
      InsertPermutation(x, t[1..], scores);
      assert t == [t[0]] + t[1..];
    }
  }

  /** The stable descending sort of `s`: each file inserted, in order, into the sorted files before it. */
  function SortDesc(s: seq<Path>, scores: map<Path, int>): (r: seq<Path>)
    requires AllScored(s, scores)
    ensures AllScored(r, scores)
  {
    if s == [] then []
    else Insert(s[|s| - 1], SortDesc(s[..|s| - 1], scores), scores)
  }

  /** The files of `s` with score `k`, in their order in `s`. */
  function WithScore(s: seq<Path>, scores: map<Path, int>, k: int): seq<Path>
    requires AllScored(s, scores)
  {
    if s == [] then []
    else (if scores[s[0]] == k then [s[0]] else []) + WithScore(s[1..], scores, k)
  }

  lemma {:induction false} WithScoreAppend(a: seq<Path>, b: seq<Path>, scores: map<Path, int>, k: int)
    requires AllScored(a, scores) && AllScored(b, scores)
    ensures WithScore(a + b, scores, k) == WithScore(a, scores, k) + WithScore(b, scores, k)
  {
    if a != [] {
      var h := if scores[a[0]] == k then [a[0]] else [];
      assert (a + b)[0] == a[0];
      assert (a + b)[1..] == a[1..] + b;
      WithScoreAppend(a[1..], b, scores, k);
      calc {
        WithScore(a + b, scores, k);
        h + WithScore(a[1..] + b, scores, k);
        h + (WithScore(a[1..], scores, k) + WithScore(b, scores, k));
        (h + WithScore(a[1..], scores, k)) + WithScore(b, scores, k);
        WithScore(a, scores, k) + WithScore(b, scores, k);
      }
    } else {
      assert a + b == b;
    }
  }

  lemma {:induction false} WithScoreNone(s: seq<Path>, scores: map<Path, int>, k: int)
    requires AllScored(s, scores)
    requires forall i :: 0 <= i < |s| ==> scores[s[i]] < k
    ensures WithScore(s, scores, k) == []
  {
    if s != [] {
      WithScoreNone(s[1..], scores, k);
    }
  }

  lemma {:induction false} InsertSorted(x: Path, t: seq<Path>, scores: map<Path, int>)
    requires x in scores && AllScored(t, scores) && SortedDesc(t, scores)
    ensures SortedDesc(Insert(x, t, scores), scores)
  {
    if t != [] {
      if scores[t[0]] >= scores[x] {
        var rest := Insert(x, t[1..], scores);
        SortedTail(t, scores);
        InsertSorted(x, t[1..], scores);
        assert AtMost(t[1..], scores, scores[t[0]]) by {
          forall i | 0 <= i < |t| - 1 ensures scores[t[1..][i]] <= scores[t[0]] {
            assert t[1..][i] == t[i + 1];
          }
        }
        InsertBounded(x, t[1..], scores, scores[t[0]]);
        ConsSorted(t[0], rest, scores);
        assert Insert(x, t, scores) == [t[0]] + rest;
      } else {
        assert AtMost(t, scores, scores[x]) by {
          forall i | 0 <= i < |t| ensures scores[t[i]] <= scores[x] {
            assert scores[t[0]] >= scores[t[i]];
          }
        }
        ConsSorted(x, t, scores);
        assert Insert(x, t, scores) == [x] + t;
      }
    }
  }

  /** No file of `s` scores more than `b`. */
  ghost predicate AtMost(s: seq<Path>, scores: map<Path, int>, b: int)
    requires AllScored(s, scores)
  {
    forall i :: 0 <= i < |s| ==> scores[s[i]] <= b
  }

  /** Inserting a file that scores at most `b` among files that score at most `b` keeps that bound. */
  lemma {:induction false} InsertBounded(x: Path, t: seq<Path>, scores: map<Path, int>, b: int)
    requires x in scores && AllScored(t, scores)
    requires scores[x] <= b && AtMost(t, scores, b)
    ensures AtMost(Insert(x, t, scores), scores, b)
  {
    if t != [] && scores[t[0]] >= scores[x] {
      var rest := Insert(x, t[1..], scores);
      assert AtMost(t[1..], scores, b) by {
        forall i | 0 <= i < |t| - 1 ensures scores[t[1..][i]] <= b {
          assert t[1..][i] == t[i + 1];
        }
      }
      InsertBounded(x, t[1..], scores, b);
      assert Insert(x, t, scores) == [t[0]] + rest;
      forall i | 0 < i <= |rest| ensures scores[([t[0]] + rest)[i]] <= b {
        assert ([t[0]] + rest)[i] == rest[i - 1];
      }
    } else if t != [] {
      assert Insert(x, t, scores) == [x] + t;
      forall i | 0 < i <= |t| ensures scores[([x] + t)[i]] <= b {
        assert ([x] + t)[i] == t[i - 1];
      }
    }
  }

  /** A file that scores at least every file of a sorted list can go in front of it. */
  lemma ConsSorted(h: Path, r: seq<Path>, scores: map<Path, int>)
    requires h in scores && AllScored(r, scores) && SortedDesc(r, scores)
    requires AtMost(r, scores, scores[h])
    ensures AllScored([h] + r, scores) && SortedDesc([h] + r, scores)
  {
    var s := [h] + r;
    assert forall k :: 0 < k < |s| ==> s[k] == r[k - 1];
    forall i, j | 0 <= i < j < |s| ensures scores[s[i]] >= scores[s[j]] {
      if i > 0 {
        assert s[i] == r[i - 1] && s[j] == r[j - 1];
      }
    }
  }

  /** The filter on a list with a given first file. */
  lemma WithScoreCons(h: Path, r: seq<Path>, scores: map<Path, int>, k: int)
    requires h in scores && AllScored(r, scores)
    ensures AllScored([h] + r, scores)
    ensures WithScore([h] + r, scores, k) == (if scores[h] == k then [h] else []) + WithScore(r, scores, k)
  {
    assert ([h] + r)[0] == h;
    assert ([h] + r)[1..] == r;
  }

  /** The tail of a sorted list is sorted. */
  lemma SortedTail(t: seq<Path>, scores: map<Path, int>)
    requires t != [] && AllScored(t, scores) && SortedDesc(t, scores)
    ensures AllScored(t[1..], scores) && SortedDesc(t[1..], scores)
  {
    forall i1, i2 | 0 <= i1 < i2 < |t| - 1 ensures scores[t[1..][i1]] >= scores[t[1..][i2]] {
      assert t[1..][i1] == t[i1 + 1] && t[1..][i2] == t[i2 + 1];
    }
  }

  /** Inserting keeps the order of the files already there, per score, and puts `x` last among its ties. */
  lemma {:induction false} InsertStable(x: Path, t: seq<Path>, scores: map<Path, int>, k: int)
    requires x in scores && AllScored(t, scores) && SortedDesc(t, scores)
    ensures WithScore(Insert(x, t, scores), scores, k) == WithScore(t, scores, k) + (if scores[x] == k then [x] else [])
  {
    if t == [] {
      assert Insert(x, t, scores) == [x];
      WithScoreCons(x, [], scores, k);
    } else if scores[t[0]] >= scores[x] {
      SortedTail(t, scores);
      InsertStable(x, t[1..], scores, k);
      InsertStableBehind(x, t, scores, k);
    } else {
      InsertStableFront(x, t, scores, k);
    }
  }

  /** `x` goes behind the first file of `t`, which ties or beats it; the rest follows from the tail. */
  lemma InsertStableBehind(x: Path, t: seq<Path>, scores: map<Path, int>, k: int)
    requires x in scores && AllScored(t, scores)
    requires t != [] && scores[t[0]] >= scores[x]
    requires AllScored(t[1..], scores)
    requires WithScore(Insert(x, t[1..], scores), scores, k) == WithScore(t[1..], scores, k) + (if scores[x] == k then [x] else [])
    ensures WithScore(Insert(x, t, scores), scores, k) == WithScore(t, scores, k) + (if scores[x] == k then [x] else [])
  {
    var tail := if scores[x] == k then [x] else [];
    var h := if scores[t[0]] == k then [t[0]] else [];
    var rest := Insert(x, t[1..], scores);
    assert Insert(x, t, scores) == [t[0]] + rest;
    WithScoreCons(t[0], rest, scores, k);
    WithScoreCons(t[0], t[1..], scores, k);
    assert t == [t[0]] + t[1..];
    calc {
      WithScore(Insert(x, t, scores), scores, k);
      h + WithScore(rest, scores, k);
      h + (WithScore(t[1..], scores, k) + tail);
      (h + WithScore(t[1..], scores, k)) + tail;
      WithScore(t, scores, k) + tail;
    }
  }

  /** `x` scores more than every file of `t`, so it goes first and is the only file of its score. */
  lemma InsertStableFront(x: Path, t: seq<Path>, scores: map<Path, int>, k: int)
    requires x in scores && AllScored(t, scores) && SortedDesc(t, scores)
    requires t != [] && scores[t[0]] < scores[x]
    ensures WithScore(Insert(x, t, scores), scores, k) == WithScore(t, scores, k) + (if scores[x] == k then [x] else [])
  {
    assert Insert(x, t, scores) == [x] + t;
    WithScoreCons(x, t, scores, k);
    if scores[x] == k {
      forall i | 0 <= i < |t| ensures scores[t[i]] < k {
        assert scores[t[0]] >= scores[t[i]];
      }
      WithScoreNone(t, scores, k);
    }
  }

  /** The sort orders the files by non-increasing score. */
  lemma {:induction false} SortDescSorted(s: seq<Path>, scores: map<Path, int>)
    requires AllScored(s, scores)
    ensures SortedDesc(SortDesc(s, scores), scores)
  {
    if s != [] {
      SortDescSorted(s[..|s| - 1], scores);
      InsertSorted(s[|s| - 1], SortDesc(s[..|s| - 1], scores), scores);
    }
  }

  /** The sort returns a permutation of its input. */
  lemma {:induction false} SortDescPermutation(s: seq<Path>, scores: map<Path, int>)
    requires AllScored(s, scores)
    ensures multiset(SortDesc(s, scores)) == multiset(s)
  {
    if s != [] {
      SortDescPermutation(s[..|s| - 1], scores);
      InsertPermutation(s[|s| - 1], SortDesc(s[..|s| - 1], scores), scores);
      assert s == s[..|s| - 1] + [s[|s| - 1]];
    }
  }

  /** The sort is stable: for every score, the files with that score appear in their original order. */
  lemma {:induction false} SortDescStable(s: seq<Path>, scores: map<Path, int>, k: int)
    requires AllScored(s, scores)
    ensures WithScore(SortDesc(s, scores), scores, k) == WithScore(s, scores, k)
  {
    if s != [] {
      var init, last := s[..|s| - 1], s[|s| - 1];
      var sorted := SortDesc(init, scores);
      var tail := if scores[last] == k then [last] else [];
      SortDescSorted(init, scores);
      calc {
        WithScore(SortDesc(s, scores), scores, k);
        WithScore(Insert(last, sorted, scores), scores, k);
        { InsertStable(last, sorted, scores, k); }
        WithScore(sorted, scores, k) + tail;
        { SortDescStable(init, scores, k); }
        WithScore(init, scores, k) + tail;
        { assert [last][1..] == []; }
        WithScore(init, scores, k) + WithScore([last], scores, k);
        { WithScoreAppend(init, [last], scores, k); }
        WithScore(init + [last], scores, k);
        { assert s == init + [last]; }
        WithScore(s, scores, k);
      }
    }
  }

  /**
   * Where the shifting loop stops is where `Insert` puts `x`: after the files
   * `p`, which tie or beat it, and before `q`, whose first file scores less.
   */
  lemma {:induction false} InsertAt(x: Path, p: seq<Path>, q: seq<Path>, scores: map<Path, int>)
    requires x in scores && AllScored(p, scores) && AllScored(q, scores)
    requires forall k :: 0 <= k < |p| ==> scores[p[k]] >= scores[x]
    requires q != [] ==> scores[q[0]] < scores[x]
    ensures AllScored(p + q, scores)
    ensures Insert(x, p + q, scores) == p + [x] + q
  {
    if p == [] {
      assert p + q == q;
    } else {
      var t := p + q;
      assert t[0] == p[0];
      assert t[1..] == p[1..] + q;
      InsertAt(x, p[1..], q, scores);
      assert p == [p[0]] + p[1..];
    }
  }

  /**
   * FirstGlance.java:86: sorts the file list in place by descending score, moving each
   * file left past the files with a strictly smaller score.
   */
  method SortByScore(a: array<Path>, scores: map<Path, int>)
    requires forall i :: 0 <= i < a.Length ==> a[i] in scores
    modifies a
    ensures AllScored(old(a[..]), scores)
    ensures a[..] == SortDesc(old(a[..]), scores)
  {
    ghost var orig := a[..];
    assert AllScored(orig, scores);
    for i := 0 to a.Length
      invariant a[..i] == SortDesc(orig[..i], scores)
      invariant forall k :: i <= k < a.Length ==> a[k] == orig[k]
    {
      SortDescStep(orig, i, scores);
      InsertNext(a, i, scores);
    }
    assert a[..] == a[..a.Length];
    assert orig[..a.Length] == orig;
  }

  /** Sorting one more file of `s` inserts it into the sorted files before it. */
  lemma SortDescStep(s: seq<Path>, i: nat, scores: map<Path, int>)
    requires AllScored(s, scores) && i < |s|
    ensures AllScored(s[..i], scores) && AllScored(s[..i + 1], scores)
    ensures SortedDesc(SortDesc(s[..i], scores), scores)
    ensures SortDesc(s[..i + 1], scores) == Insert(s[i], SortDesc(s[..i], scores), scores)
  {
    assert s[..i + 1][..i] == s[..i];
    SortDescSorted(s[..i], scores);
  }

  /** A sequence that agrees with `t` before `j`, holds `x` at `j` and `t` shifted one right after it. */
  lemma Shifted(s: seq<Path>, t: seq<Path>, x: Path, j: nat)
    requires j <= |t| && |s| == |t| + 1
    requires forall k :: 0 <= k < j ==> s[k] == t[k]
    requires s[j] == x
    requires forall k :: j < k < |s| ==> s[k] == t[k - 1]
    ensures s == t[..j] + [x] + t[j..]
  {
    var r := t[..j] + [x] + t[j..];
    assert |r| == |s|;
    forall k | 0 <= k < |s| ensures s[k] == r[k] {
      if k > j {
        assert r[k] == t[j..][k - j - 1];
      }
    }
  }

  /**
   * The array the shifting loop leaves: `t` before `j`, `x` at `j`, and `t`
   * shifted one place right after it, where `j` is just after the last file
   * that ties or beats `x`. That is `Insert(x, t)`.
   */
  lemma ShiftedInsert(s: seq<Path>, t: seq<Path>, x: Path, j: nat, scores: map<Path, int>)
    requires x in scores && AllScored(t, scores) && SortedDesc(t, scores)
    requires j <= |t| && |s| == |t| + 1
    requires forall k :: 0 <= k < j ==> s[k] == t[k]
    requires s[j] == x
    requires forall k :: j < k < |s| ==> s[k] == t[k - 1]
    requires forall k :: j <= k < |t| ==> scores[t[k]] < scores[x]
    requires j == 0 || scores[t[j - 1]] >= scores[x]
    ensures s == Insert(x, t, scores)
  {
    SortedBeforeBeats(t, x, j, scores);
    InsertAtSplit(x, t, j, scores);
    Shifted(s, t, x, j);
  }

  /** In a sorted list, every file before one that ties or beats `x` also ties or beats it. */
  lemma SortedBeforeBeats(t: seq<Path>, x: Path, j: nat, scores: map<Path, int>)
    requires x in scores && AllScored(t, scores) && SortedDesc(t, scores)
    requires j <= |t|
    requires j == 0 || scores[t[j - 1]] >= scores[x]
    ensures forall k :: 0 <= k < j ==> scores[t[k]] >= scores[x]
  {
    forall k | 0 <= k < j ensures scores[t[k]] >= scores[x] {
      assert scores[t[k]] >= scores[t[j - 1]];
    }
  }

  /** `InsertAt` with the list cut at position `j`. */
  lemma InsertAtSplit(x: Path, t: seq<Path>, j: nat, scores: map<Path, int>)
    requires x in scores && AllScored(t, scores)
    requires j <= |t|
    requires forall k :: 0 <= k < j ==> scores[t[k]] >= scores[x]
    requires j < |t| ==> scores[t[j]] < scores[x]
    ensures Insert(x, t, scores) == t[..j] + [x] + t[j..]
  {
    var p, q := t[..j], t[j..];
    assert q != [] ==> q[0] == t[j];
    InsertAt(x, p, q, scores);
    assert p + q == t;
  }

  /** One step of the sort: the file at position `i` moves left into the sorted prefix before it. */
  method InsertNext(a: array<Path>, i: nat, scores: map<Path, int>)
    requires i < a.Length
    requires a[i] in scores && AllScored(a[..i], scores) && SortedDesc(a[..i], scores)
    modifies a
    ensures a[..i + 1] == Insert(old(a[i]), old(a[..i]), scores)
    ensures forall k :: i < k < a.Length ==> a[k] == old(a[k])
  {
    ghost var t := a[..i];
    var x := a[i];
    var j := i;
    while j > 0 && scores[a[j - 1]] < scores[x]
      invariant 0 <= j <= i
      invariant forall k :: 0 <= k < j ==> a[k] == t[k]
      invariant forall k :: j < k <= i ==> a[k] == t[k - 1]
      invariant forall k :: i < k < a.Length ==> a[k] == old(a[k])
      invariant forall k :: j <= k < i ==> scores[t[k]] < scores[x]
    {
      a[j] := a[j - 1];
      j := j - 1;
    }
    a[j] := x;
    ShiftedInsert(a[..i + 1], t, x, j, scores);
  }
}
