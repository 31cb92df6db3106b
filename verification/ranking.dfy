/** The leaderboard as the session handler sees it: score records, their
    ordering, the update after a NAME message (merge, sort descending, keep
    the top five), the high-score test after a win, and the fixed-width
    entries of a SCORES reply. */
module Ranking {
  import opened Results
  import opened Codec

  /** Rows of the stored leaderboard, and the width of a SCORES entry. */
  const TOP: nat := 5
  const ENTRY_WIDTH: nat := 20

  datatype ScoreRecord = ScoreRecord(name: string, score: int)

  /** What the leaderboard logic throws: a stored leaderboard without rows
      to compare with, or too few rows to fill the five ranks. */
  datatype RankError = NoScores | TooFewScores

  // ---------------------------------------------------------------- comparison

  /** A mathematical integer reduced into the 32-bit range by wrap-around. */
  function Wrap32(v: int): (r: int)
    ensures MIN_INT <= r <= MAX_INT
    ensures (r - v) % 0x1_0000_0000 == 0
  {
    (v - MIN_INT) % 0x1_0000_0000 + MIN_INT
  }

  predicate IsInt(v: int) { MIN_INT <= v <= MAX_INT }

  /** compareTo as written: the difference of the two scores in 32-bit
      arithmetic, which wraps around when the scores are far apart. */
  function CompareToAsWritten(a: ScoreRecord, b: ScoreRecord): (c: int)
    ensures IsInt(a.score - b.score) ==> (c < 0 <==> a.score < b.score) && (c == 0 <==> a.score == b.score)
  {
    Wrap32(a.score - b.score)
  }

  /** The ordering by score that compareTo is meant to give. */
  function Compare(a: ScoreRecord, b: ScoreRecord): (c: int)
    ensures c < 0 <==> a.score < b.score
    ensures c == 0 <==> a.score == b.score
    ensures c > 0 <==> a.score > b.score
  {
    if a.score < b.score then -1 else if a.score > b.score then 1 else 0
  }

  /** The written compareTo calls a winning time of 1000 smaller than the
      lowest int, which the intended ordering puts last. */
  lemma CompareToOverflows()
    ensures CompareToAsWritten(ScoreRecord("a", 1000), ScoreRecord("b", MIN_INT)) < 0
    ensures Compare(ScoreRecord("a", 1000), ScoreRecord("b", MIN_INT)) > 0
  {
  }

  /** Subtracting a positive int from the lowest int wraps to a positive value. */
  lemma LowestMinusPositive(t: int)
    requires 1 <= t <= MAX_INT
    ensures Wrap32(MIN_INT - t) == MAX_INT + 1 - t
  {
    var x := MIN_INT - t - MIN_INT;
    assert x == -t;
    assert 0 <= x + 0x1_0000_0000 < 0x1_0000_0000;
    assert x % 0x1_0000_0000 == x + 0x1_0000_0000;
  }

  // ---------------------------------------------------------------- sorting

  /** Sorted by descending score. */
  ghost predicate SortedDesc(s: seq<ScoreRecord>) {
    forall i, j :: 0 <= i < j < |s| ==> s[i].score >= s[j].score
  }

  /** The records of `s` with score `v`, in their order in `s`. */
  function WithScore(s: seq<ScoreRecord>, v: int): seq<ScoreRecord> {
    if |s| == 0 then [] else (if s[0].score == v then [s[0]] else []) + WithScore(s[1..], v)
  }

  /** One step of a stable sort into descending order under `cmp`: `x`
      goes after every record it does not compare greater than. */
  function Insert(x: ScoreRecord, s: seq<ScoreRecord>, cmp: (ScoreRecord, ScoreRecord) -> int): (r: seq<ScoreRecord>)
    ensures |r| == |s| + 1
    ensures multiset(r) == multiset(s) + multiset{x}
  {
    if |s| == 0 then [x]
    else if cmp(x, s[0]) <= 0 then
      assert s == [s[0]] + s[1..];
      [s[0]] + Insert(x, s[1..], cmp)
    else [x] + s
  }

  /** Stable sort into descending order under `cmp` (the list sort with the
      reversed natural order), by insertion of each record in turn. */
  function SortBy(s: seq<ScoreRecord>, cmp: (ScoreRecord, ScoreRecord) -> int): (r: seq<ScoreRecord>)
    ensures |r| == |s|
    ensures multiset(r) == multiset(s)
  {
    if |s| == 0 then []
    else
      assert s == s[..|s| - 1] + [s[|s| - 1]];
      Insert(s[|s| - 1], SortBy(s[..|s| - 1], cmp), cmp)
  }

  lemma {:induction false} WithScoreAppend(a: seq<ScoreRecord>, b: seq<ScoreRecord>, v: int)
    ensures WithScore(a + b, v) == WithScore(a, v) + WithScore(b, v)
  {
    if |a| > 0 {
      assert (a + b)[0] == a[0];
      assert (a + b)[1..] == a[1..] + b;
      WithScoreAppend(a[1..], b, v);
    } else {
      assert a + b == b;
    }
  }

  lemma {:induction false} WithScoreNone(s: seq<ScoreRecord>, v: int)
    requires forall k :: 0 <= k < |s| ==> s[k].score < v
    ensures WithScore(s, v) == []
  {
    if |s| > 0 {
      WithScoreNone(s[1..], v);
    }
  }

  lemma {:induction false} InsertSorted(x: ScoreRecord, s: seq<ScoreRecord>)
    requires SortedDesc(s)
    ensures SortedDesc(Insert(x, s, Compare))
  {
    if |s| > 0 && Compare(x, s[0]) <= 0 {
      var r' := Insert(x, s[1..], Compare);
      InsertSorted(x, s[1..]);
      forall k | 0 <= k < |r'| ensures s[0].score >= r'[k].score {
        assert r'[k] in multiset(r');
        if r'[k] != x {
          assert r'[k] in multiset(s[1..]);
        }
      }
      assert Insert(x, s, Compare) == [s[0]] + r';
    }
  }

  lemma AppendAssoc(a: seq<ScoreRecord>, b: seq<ScoreRecord>, c: seq<ScoreRecord>)
    ensures a + (b + c) == (a + b) + c
  {
  }

  /** The records of `[x] + s` with score `v`. */
  lemma WithScoreCons(x: ScoreRecord, s: seq<ScoreRecord>, v: int)
    ensures WithScore([x] + s, v) == (if x.score == v then [x] else []) + WithScore(s, v)
  {
    assert ([x] + s)[0] == x && ([x] + s)[1..] == s;
  }

  /** The records with score `v` after a record goes in behind the head of `s`. */
  lemma WithScoreBehindHead(s: seq<ScoreRecord>, rest: seq<ScoreRecord>, v: int, here: seq<ScoreRecord>)
    requires |s| > 0 && WithScore(rest, v) == WithScore(s[1..], v) + here
    ensures WithScore([s[0]] + rest, v) == WithScore(s, v) + here
  {
    var head := if s[0].score == v then [s[0]] else [];
    var tail := WithScore(s[1..], v);
    assert WithScore([s[0]] + rest, v) == head + (tail + here) by {
      WithScoreCons(s[0], rest, v);
    }
    assert WithScore(s, v) == head + tail by {
      WithScoreCons(s[0], s[1..], v);
      assert [s[0]] + s[1..] == s;
    }
    AppendAssoc(head, tail, here);
  }

  /** The records with score `v` after a record scoring above all of a
      sorted `s` goes in front. */
  lemma WithScoreInFront(x: ScoreRecord, s: seq<ScoreRecord>, v: int)
    requires SortedDesc(s) && |s| > 0 && x.score > s[0].score
    ensures WithScore([x] + s, v) == WithScore(s, v) + (if x.score == v then [x] else [])
  {
    WithScoreCons(x, s, v);
    if x.score == v {
      assert forall k :: 0 <= k < |s| ==> s[k].score < v by {
        assert forall k :: 0 <= k < |s| ==> s[k].score <= s[0].score;
      }
      WithScoreNone(s, v);
    }
  }

  lemma {:induction false} InsertWithScore(x: ScoreRecord, s: seq<ScoreRecord>, v: int)
    requires SortedDesc(s)
    ensures WithScore(Insert(x, s, Compare), v) == WithScore(s, v) + (if x.score == v then [x] else [])
  {
    var here := if x.score == v then [x] else [];
    if |s| == 0 {
      WithScoreCons(x, [], v);
      assert [x] + [] == [x];
    } else if Compare(x, s[0]) <= 0 {
      var rest := Insert(x, s[1..], Compare);
      assert SortedDesc(s[1..]) by {
        assert forall i :: 0 <= i < |s[1..]| ==> s[1..][i] == s[i + 1];
      }
      InsertWithScore(x, s[1..], v);
      assert Insert(x, s, Compare) == [s[0]] + rest;
      WithScoreBehindHead(s, rest, v, here);
    } else {
      assert Insert(x, s, Compare) == [x] + s;
      WithScoreInFront(x, s, v);
    }
  }

  /** Sorting by the intended ordering yields descending scores. */
  lemma {:induction false} SortBySorted(s: seq<ScoreRecord>)
    ensures SortedDesc(SortBy(s, Compare))
  {
    if |s| > 0 {
      SortBySorted(s[..|s| - 1]);
      InsertSorted(s[|s| - 1], SortBy(s[..|s| - 1], Compare));
    }
  }

  /** Sorting by the intended ordering keeps records of equal score in
      their original order: the sort is stable. */
  lemma {:induction false} SortByStable(s: seq<ScoreRecord>, v: int)
    ensures WithScore(SortBy(s, Compare), v) == WithScore(s, v)
  {
    if |s| > 0 {
      var init, last := s[..|s| - 1], s[|s| - 1];
      assert SortBy(s, Compare) == Insert(last, SortBy(init, Compare), Compare);
      SortByStable(init, v);
      SortBySorted(init);
      InsertWithScore(last, SortBy(init, Compare), v);
      WithScoreLast(s, v);
    }
  }

  lemma WithScoreLast(s: seq<ScoreRecord>, v: int)
    requires |s| > 0
    ensures WithScore(s, v) == WithScore(s[..|s| - 1], v) + (if s[|s| - 1].score == v then [s[|s| - 1]] else [])
  {
    var init, last := s[..|s| - 1], s[|s| - 1];
    assert s == init + [last];
    WithScoreAppend(init, [last], v);
    assert WithScore([last], v) == (if last.score == v then [last] else []) + WithScore([], v);
  }

  // ---------------------------------------------------------------- NAME update

  /** The stored ranks after a NAME message: the new record appended to the
      stored ones, all sorted descending under `cmp`, the first five kept. */
  function Rank(top: seq<ScoreRecord>, entry: ScoreRecord, cmp: (ScoreRecord, ScoreRecord) -> int)
    : (r: Result<seq<ScoreRecord>, RankError>)
    ensures r.Success? <==> |top| + 1 >= TOP
    ensures r.Success? ==> |r.value| == TOP && multiset(r.value) <= multiset(top + [entry])
  {
    var sorted := SortBy(top + [entry], cmp);
    if |sorted| < TOP then Failure(TooFewScores)
    else
      assert sorted == sorted[..TOP] + sorted[TOP..];
      Success(sorted[..TOP])
  }

  lemma KeptBeatDropped(sorted: seq<ScoreRecord>, n: nat)
    requires SortedDesc(sorted) && n <= |sorted|
    ensures forall d, k :: d in multiset(sorted) - multiset(sorted[..n]) && k in sorted[..n] ==> d.score <= k.score
  {
    assert sorted == sorted[..n] + sorted[n..];
    assert multiset(sorted) - multiset(sorted[..n]) == multiset(sorted[n..]);
    forall d, k | d in multiset(sorted[n..]) && k in sorted[..n] ensures d.score <= k.score {
      assert d in sorted[n..];
      var p :| n <= p < |sorted| && sorted[p] == d;
      var q :| 0 <= q < n && sorted[q] == k;
      assert sorted[q].score >= sorted[p].score;
    }
  }

  /** The NAME update with the intended ordering: five records, sorted by
      descending score, taken from the stored ones plus the new one, and
      none of the records left out scores above any record kept. */
  function UpdateRanking(top: seq<ScoreRecord>, entry: ScoreRecord): (r: Result<seq<ScoreRecord>, RankError>)
    ensures r.Success? <==> |top| + 1 >= TOP
    ensures r.Success? ==> |r.value| == TOP && SortedDesc(r.value)
    ensures r.Success? ==> multiset(r.value) <= multiset(top + [entry])
    ensures r.Success? ==> forall d, k :: d in multiset(top + [entry]) - multiset(r.value) && k in r.value ==>
              d.score <= k.score
  {
    var r := Rank(top, entry, Compare);
    if r.Success? then
      var sorted := SortBy(top + [entry], Compare);
      SortBySorted(top + [entry]);
      KeptBeatDropped(sorted, TOP);
      assert r.value == sorted[..TOP];
      r
    else r
  }

  /** A new record whose score equals stored ones ranks after all of them. */
  lemma NewEntryRanksAfterEqualScores(top: seq<ScoreRecord>, entry: ScoreRecord)
    ensures WithScore(SortBy(top + [entry], Compare), entry.score) == WithScore(top, entry.score) + [entry]
  {
    SortByStable(top + [entry], entry.score);
    WithScoreAppend(top, [entry], entry.score);
    assert WithScore([entry], entry.score) == [entry] + WithScore([], entry.score);
  }

  /** The NAME update with compareTo as written. */
  function UpdateRankingAsWritten(top: seq<ScoreRecord>, entry: ScoreRecord): (r: Result<seq<ScoreRecord>, RankError>)
    ensures r.Success? <==> |top| + 1 >= TOP
    ensures r.Success? ==> |r.value| == TOP && multiset(r.value) <= multiset(top + [entry])
  {
    Rank(top, entry, CompareToAsWritten)
  }

  lemma {:induction false} InsertLowest(x: ScoreRecord, s: seq<ScoreRecord>)
    requires forall k :: 0 <= k < |s| ==> x.score <= s[k].score
    ensures Insert(x, s, Compare) == s + [x]
  {
    if |s| > 0 {
      InsertLowest(x, s[1..]);
      assert s == [s[0]] + s[1..];
    }
  }

  /** Sorting by compareTo as written puts a record with the lowest int as
      its score ahead of records with positive scores. */
  lemma AsWrittenPutsLowestFirst(top: seq<ScoreRecord>, entry: ScoreRecord)
    requires |top| >= 1 && entry.score == MIN_INT
    requires forall k :: 0 <= k < |top| ==> 1 <= top[k].score <= MAX_INT
    ensures SortBy(top + [entry], CompareToAsWritten) == [entry] + SortBy(top, CompareToAsWritten)
  {
    var merged := top + [entry];
    assert merged[..|merged| - 1] == top && merged[|merged| - 1] == entry;
    var s := SortBy(top, CompareToAsWritten);
    assert s[0] in multiset(top);
    LowestMinusPositive(s[0].score);
  }

  /** Inserting a record scoring below all of a table of at least five
      leaves the first five as they were. */
  lemma InsertBelowTop(entry: ScoreRecord, c: seq<ScoreRecord>)
    requires |c| >= TOP
    requires forall k :: 0 <= k < |c| ==> entry.score < c[k].score
    ensures Insert(entry, c, Compare)[..TOP] == c[..TOP]
    ensures entry !in c[..TOP]
  {
    InsertLowest(entry, c);
    assert (c + [entry])[..TOP] == c[..TOP];
  }

  /** Sorting by the intended ordering puts a record with a score below all
      others last, so a full table leaves it out. */
  lemma IntendedDropsLowest(top: seq<ScoreRecord>, entry: ScoreRecord)
    requires |top| >= TOP
    requires forall k :: 0 <= k < |top| ==> entry.score < top[k].score
    ensures SortBy(top + [entry], Compare)[..TOP] == SortBy(top, Compare)[..TOP]
    ensures entry !in SortBy(top, Compare)[..TOP]
  {
    var merged := top + [entry];
    assert merged[..|merged| - 1] == top && merged[|merged| - 1] == entry;
    var c := SortBy(top, Compare);
    assert SortBy(merged, Compare) == Insert(entry, c, Compare);
    forall k | 0 <= k < |c| ensures entry.score < c[k].score {
      assert c[k] in multiset(top);
    }
    InsertBelowTop(entry, c);
  }

  /** With compareTo as written, a record claiming the lowest int as its
      score takes first place over a leaderboard of positive scores, while
      the intended ordering drops it. */
  lemma LowestScoreTakesFirstPlace(top: seq<ScoreRecord>, name: string)
    requires |top| >= TOP
    requires forall k :: 0 <= k < |top| ==> 1 <= top[k].score <= MAX_INT
    ensures var r := UpdateRankingAsWritten(top, ScoreRecord(name, MIN_INT));
            r.Success? && r.value[0] == ScoreRecord(name, MIN_INT)
    ensures var r := UpdateRanking(top, ScoreRecord(name, MIN_INT));
            r.Success? && ScoreRecord(name, MIN_INT) !in r.value
  {
    var entry := ScoreRecord(name, MIN_INT);
    AsWrittenPutsLowestFirst(top, entry);
    IntendedDropsLowest(top, entry);
  }

  // ---------------------------------------------------------------- high score

  /** The lowest stored score. */
  function MinScore(s: seq<ScoreRecord>): (m: int)
    requires |s| > 0
    ensures exists k :: 0 <= k < |s| && s[k].score == m
    ensures forall k :: 0 <= k < |s| ==> m <= s[k].score
  {
    if |s| == 1 then s[0].score
    else
      var rest := MinScore(s[1..]);
      assert forall k :: 1 <= k < |s| ==> s[k] == s[1..][k - 1];
      if s[0].score <= rest then s[0].score else rest
  }

  /** The high-score test after a win: the remaining time qualifies when it
      beats the lowest stored score, that is, beats some stored score. */
  function CheckHighScore(time: int, top: seq<ScoreRecord>): (r: Result<bool, RankError>)
    ensures r.Success? <==> |top| > 0
    ensures r.Success? ==> (r.value <==> exists k :: 0 <= k < |top| && time > top[k].score)
  {
    if |top| == 0 then Failure(NoScores) else Success(time > MinScore(top))
  }

  // ---------------------------------------------------------------- SCORES entries

  /** `n` spaces, none when `n` is not positive. */
  function Spaces(n: int): (r: string)
    ensures |r| == (if n > 0 then n else 0)
    ensures forall k :: 0 <= k < |r| ==> r[k] == ' '
    decreases n
  {
    if n <= 0 then "" else Spaces(n - 1) + " "
  }

  /** One SCORES entry: the name, padding up to 20 characters, the score
      text and a comma. */
  function ScoreEntry(name: string, score: string): (r: string)
    ensures |r| == (if |name| + |score| > ENTRY_WIDTH then |name| + |score| else ENTRY_WIDTH) + 1
    ensures r[..|name|] == name
    ensures r[|r| - 1 - |score|..|r| - 1] == score && r[|r| - 1] == ','
    ensures forall k :: |name| <= k < |r| - 1 - |score| ==> r[k] == ' '
  {
    var pad := Spaces(ENTRY_WIDTH - |name| - |score|);
    var r := name + pad + score + ",";
    assert r[..|name|] == name;
    assert r[|r| - 1 - |score|..|r| - 1] == score;
    r
  }

  /** The SCORES payload: one entry per stored (name, score) row, in order. */
  function ScoresText(rows: seq<(string, string)>): (r: string)
    ensures |r| >= (ENTRY_WIDTH + 1) * |rows|
  {
    if |rows| == 0 then "" else ScoreEntry(rows[0].0, rows[0].1) + ScoresText(rows[1..])
  }

  /** The payload grows one entry per row, appended in row order, as the
      reply is built up row by row. */
  lemma {:induction false} ScoresTextAppend(rows: seq<(string, string)>, row: (string, string))
    ensures ScoresText(rows + [row]) == ScoresText(rows) + ScoreEntry(row.0, row.1)
  {
    if |rows| == 0 {
      assert rows + [row] == [row];
      assert ScoresText([row]) == ScoreEntry(row.0, row.1) + ScoresText([]);
    } else {
      assert (rows + [row])[0] == rows[0];
      assert (rows + [row])[1..] == rows[1..] + [row];
      ScoresTextAppend(rows[1..], row);
    }
  }
}
