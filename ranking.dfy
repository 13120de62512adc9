/** Choosing the party and the table: Python's stable
    `sort(key=priority_score, reverse=True)` followed by taking the head, and
    `min(tables, key=misfit)`, which keeps the first of several minima. */
module Ranking {
  import opened Records
  import opened Filtering

  ghost predicate SortedByScoreDesc(s: seq<Candidate>) {
    forall i, j :: 0 <= i < j < |s| ==> s[i].priorityScore >= s[j].priorityScore
  }

  /** `k` is the first position holding the highest score. */
  ghost predicate IsFirstMaxAt(s: seq<Candidate>, k: int) {
    && 0 <= k < |s|
    && (forall j :: 0 <= j < |s| ==> s[j].priorityScore <= s[k].priorityScore)
    && (forall j :: 0 <= j < k ==> s[j].priorityScore < s[k].priorityScore)
  }

  /** Places `c` in front of the first element whose score does not exceed
      its own, so that `c` precedes every later-listed candidate of equal
      score. */
  function InsertByScore(c: Candidate, sorted: seq<Candidate>): (r: seq<Candidate>)
    ensures multiset(r) == multiset(sorted) + multiset{c}
    ensures |r| == |sorted| + 1
  {
    if sorted == [] || sorted[0].priorityScore <= c.priorityScore then [c] + sorted
    else
      assert sorted == [sorted[0]] + sorted[1..];
      [sorted[0]] + InsertByScore(c, sorted[1..])
  }

  lemma {:induction false} InsertKeepsSorted(c: Candidate, sorted: seq<Candidate>)
    requires SortedByScoreDesc(sorted)
    ensures SortedByScoreDesc(InsertByScore(c, sorted))
  {
    if sorted != [] && sorted[0].priorityScore > c.priorityScore {
      var rest := InsertByScore(c, sorted[1..]);
      InsertKeepsSorted(c, sorted[1..]);
      forall j | 0 <= j < |rest| ensures rest[j].priorityScore <= sorted[0].priorityScore {
        assert rest[j] in multiset(rest);
        if rest[j] != c {
          assert rest[j] in multiset(sorted[1..]);
          var m :| 0 <= m < |sorted[1..]| && sorted[1..][m] == rest[j];
          assert sorted[m + 1] == rest[j];
        }
      }
      assert InsertByScore(c, sorted) == [sorted[0]] + rest;
    }
  }

  /** The list `candidates.sort(key=..., reverse=True)` leaves: an insertion
      sort that inserts earlier candidates in front of later ones of equal
      score, which is the stable descending order Python's sort produces. */
  function SortByScoreDesc(candidates: seq<Candidate>): (sorted: seq<Candidate>)
    ensures multiset(sorted) == multiset(candidates)
    ensures |sorted| == |candidates|
  {
    if candidates == [] then []
    else
      assert candidates == [candidates[0]] + candidates[1..];
      InsertByScore(candidates[0], SortByScoreDesc(candidates[1..]))
  }

  /** The sort leaves scores in non-increasing order. */
  lemma {:induction false} SortByScoreDescIsSorted(candidates: seq<Candidate>)
    ensures SortedByScoreDesc(SortByScoreDesc(candidates))
  {
    if candidates != [] {
      SortByScoreDescIsSorted(candidates[1..]);
      InsertKeepsSorted(candidates[0], SortByScoreDesc(candidates[1..]));
    }
  }

  function HasScore(v: int): Candidate -> bool {
    (c: Candidate) => c.priorityScore == v
  }

  /** A candidate passed over by an insertion keeps its place relative to
      the inserted one, provided the two cannot both satisfy `keep`. */
  lemma PassOverKeepsFilter(head: Candidate, c: Candidate, rest: seq<Candidate>, tail: seq<Candidate>, keep: Candidate -> bool)
    requires Filter(rest, keep) == (if keep(c) then [c] else []) + Filter(tail, keep)
    requires !(keep(head) && keep(c))
    ensures Filter([head] + rest, keep) == (if keep(c) then [c] else []) + Filter([head] + tail, keep)
  {
    FilterCons(head, rest, keep);
    FilterCons(head, tail, keep);
    var a, b := Filter(rest, keep), Filter(tail, keep);
    if keep(head) {
      assert a == b by { assert [] + b == b; }
      assert Filter([head] + rest, keep) == [head] + a;
      assert Filter([head] + tail, keep) == [head] + b;
      assert (if keep(c) then [c] else []) + ([head] + b) == [head] + b;
    } else {
      assert Filter([head] + rest, keep) == [] + a == a;
      assert Filter([head] + tail, keep) == [] + b == b;
    }
  }

  /** Among the candidates of one score, insertion puts `c` in front of all
      those already placed. */
  lemma {:induction false} InsertByScoreKeepsTies(c: Candidate, sorted: seq<Candidate>, v: int)
    ensures Filter(InsertByScore(c, sorted), HasScore(v))
            == (if c.priorityScore == v then [c] else []) + Filter(sorted, HasScore(v))
  {
    if sorted == [] || sorted[0].priorityScore <= c.priorityScore {
      FilterCons(c, sorted, HasScore(v));
    } else {
      InsertByScoreKeepsTies(c, sorted[1..], v);
      assert sorted == [sorted[0]] + sorted[1..];
      PassOverKeepsFilter(sorted[0], c, InsertByScore(c, sorted[1..]), sorted[1..], HasScore(v));
    }
  }

  /** The sort is stable: for every score, the candidates with that score
      appear in the sorted list in the same order as in the input. */
  lemma {:induction false} SortByScoreDescIsStable(candidates: seq<Candidate>, v: int)
    ensures Filter(SortByScoreDesc(candidates), HasScore(v)) == Filter(candidates, HasScore(v))
  {
    if candidates != [] {
      var keep, head, tail := HasScore(v), candidates[0], candidates[1..];
      var rest := SortByScoreDesc(tail);
      assert SortByScoreDesc(candidates) == InsertByScore(head, rest);
      assert candidates == [head] + tail;
      SortByScoreDescIsStable(tail, v);
      InsertByScoreKeepsTies(head, rest, v);
      FilterCons(head, tail, keep);
    }
  }

  /** The head after one insertion step. */
  lemma InsertByScoreHead(c: Candidate, sorted: seq<Candidate>)
    ensures InsertByScore(c, sorted)[0]
            == if sorted == [] || sorted[0].priorityScore <= c.priorityScore then c else sorted[0]
  {
  }

  /** The head of the sorted list is the earliest candidate with the highest
      score: ties go to whoever was listed first. */
  lemma {:induction false} SortedHeadIsFirstMax(candidates: seq<Candidate>)
    requires candidates != []
    ensures exists k :: IsFirstMaxAt(candidates, k) && SortByScoreDesc(candidates)[0] == candidates[k]
  {
    if |candidates| == 1 {
      assert IsFirstMaxAt(candidates, 0);
    } else {
      var tail := candidates[1..];
      SortedHeadIsFirstMax(tail);
      var k' :| IsFirstMaxAt(tail, k') && SortByScoreDesc(tail)[0] == tail[k'];
      var head := SortByScoreDesc(tail)[0];
      assert SortByScoreDesc(candidates) == InsertByScore(candidates[0], SortByScoreDesc(tail));
      InsertByScoreHead(candidates[0], SortByScoreDesc(tail));
      if head.priorityScore <= candidates[0].priorityScore {
        assert IsFirstMaxAt(candidates, 0) by {
          forall j | 0 <= j < |candidates|
            ensures candidates[j].priorityScore <= candidates[0].priorityScore
          {
            if j > 0 { assert candidates[j] == tail[j - 1]; }
          }
        }
      } else {
        assert IsFirstMaxAt(candidates, k' + 1) by {
          forall j | 0 <= j < |candidates|
            ensures candidates[j].priorityScore <= candidates[k' + 1].priorityScore
            ensures j < k' + 1 ==> candidates[j].priorityScore < candidates[k' + 1].priorityScore
          {
            if j > 0 { assert candidates[j] == tail[j - 1]; }
          }
        }
        assert SortByScoreDesc(candidates)[0] == candidates[k' + 1];
      }
    }
  }

  /** `k` is the first position of a table whose capacity is closest to
      `groupSize`. */
  ghost predicate IsFirstMinFitAt(tables: seq<Table>, groupSize: int, k: int) {
    && 0 <= k < |tables|
    && (forall j :: 0 <= j < |tables| ==> Misfit(tables[k], groupSize) <= Misfit(tables[j], groupSize))
    && (forall j :: 0 <= j < k ==> Misfit(tables[k], groupSize) < Misfit(tables[j], groupSize))
  }

  /** The position `min(tables, key=lambda t: abs(t.size - groupSize))`
      returns: the scan replaces its current best only on a strictly smaller
      key, so it keeps the first of several minima. */
  function BestFitIndex(tables: seq<Table>, groupSize: int): (k: int)
    requires tables != []
    ensures IsFirstMinFitAt(tables, groupSize, k)
  {
    if |tables| == 1 then 0
    else
      var best := BestFitIndex(tables[..|tables| - 1], groupSize);
      if Misfit(tables[|tables| - 1], groupSize) < Misfit(tables[best], groupSize) then |tables| - 1
      else best
  }
}
