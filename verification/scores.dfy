/** The in-memory high-score table of the score manager. The database behind
    it is reduced to the success of each query, passed in as a flag, and the
    current date-time is a parameter. */
module Scores {
  import opened Sorting

  /** The most entries the table keeps. */
  const MaxHighScores: nat := 5

  /** One entry: player name, score, level, lines and the date-time it was
      recorded (an opaque clock reading). */
  datatype HighScore = HighScore(playerName: string, score: int, level: int, lines: int, date: int)

  /** The entry order: higher scores first (the entry type's `operator<`
      compares scores the other way round). */
  function ByScore(h: HighScore): int {
    -h.score
  }

  /** Scores never increase along the list. */
  ghost predicate Descending(s: seq<HighScore>) {
    forall i, j :: 0 <= i < j < |s| ==> s[i].score >= s[j].score
  }

  lemma SortedByScoreDescending(s: seq<HighScore>)
    requires SortedBy(s, ByScore)
    ensures Descending(s)
  {
    forall i, j | 0 <= i < j < |s|
      ensures s[i].score >= s[j].score
    {
      assert ByScore(s[i]) <= ByScore(s[j]);
    }
  }

  function Min(a: int, b: int): (m: int)
    ensures m <= a && m <= b && (m == a || m == b)
  {
    if a <= b then a else b
  }

  /** `addScore`. When the insert succeeds the new entry is appended, the list
      sorted by descending score and cut to the first `MaxHighScores`
      entries; when it fails the table is unchanged. */
  function AddScore(table: seq<HighScore>, score: int, level: int, lines: int, playerName: string,
                    date: int, inserted: bool): (r: seq<HighScore>)
    ensures !inserted ==> r == table
    ensures inserted ==> Descending(r)
    ensures inserted ==> |r| == Min(|table| + 1, MaxHighScores)
    ensures inserted ==> multiset(r) <= multiset(table + [HighScore(playerName, score, level, lines, date)])
  {
    if !inserted then table
    else
      var all := SortBy(table + [HighScore(playerName, score, level, lines, date)], ByScore);
      SortedByScoreDescending(all);
      var r := if |all| > MaxHighScores then all[..MaxHighScores] else all;
      assert all == r + all[|r|..];
      assert multiset(all) == multiset(r) + multiset(all[|r|..]);
      r
  }

  /** `getHighScores`: the first `count` entries, or all when there are fewer. */
  function GetHighScores(table: seq<HighScore>, count: int): (r: seq<HighScore>)
    requires count >= 0
    ensures |r| == Min(count, |table|)
    ensures forall i :: 0 <= i < |r| ==> r[i] == table[i]
  {
    table[..Min(count, |table|)]
  }

  /** `resetHighScores`: the table is emptied when the delete succeeds and
      unchanged otherwise. */
  function ResetHighScores(table: seq<HighScore>, deleted: bool): (r: seq<HighScore>)
    ensures deleted ==> r == []
    ensures !deleted ==> r == table
  {
    if deleted then [] else table
  }

  // ---------------------------------------------------------------------------
  // Properties

  /** Splitting a list at an index splits its multiset. */
  lemma SplitMultiset(s: seq<HighScore>, k: nat)
    requires k <= |s|
    ensures multiset(s) == multiset(s[..k]) + multiset(s[k..])
  {
    assert s == s[..k] + s[k..];
  }

  /** In a list sorted by descending score, everything after position `n`
      scores no more than anything before it. */
  lemma TailBelowHead(all: seq<HighScore>, n: nat)
    requires Descending(all) && n <= |all|
    ensures forall d, k :: d in all[n..] && k in all[..n] ==> d.score <= k.score
  {
    forall d, k | d in all[n..] && k in all[..n]
      ensures d.score <= k.score
    {
      var i :| 0 <= i < |all[n..]| && all[n..][i] == d;
      var j :| 0 <= j < |all[..n]| && all[..n][j] == k;
      assert all[n + i] == d && all[j] == k;
    }
  }

  /** The table keeps the best scores: every entry that was dropped (one of
      the old entries or the new one, counted with multiplicity) scores no
      more than every entry kept. */
  lemma AddScoreKeepsBest(table: seq<HighScore>, score: int, level: int, lines: int,
                          playerName: string, date: int)
    ensures var r := AddScore(table, score, level, lines, playerName, date, true);
      forall d, k :: (d in multiset(table + [HighScore(playerName, score, level, lines, date)]) - multiset(r)
                      && k in r) ==> d.score <= k.score
  {
    var entry := HighScore(playerName, score, level, lines, date);
    var all := SortBy(table + [entry], ByScore);
    SortedByScoreDescending(all);
    var r := AddScore(table, score, level, lines, playerName, date, true);
    var n := if |all| > MaxHighScores then MaxHighScores else |all|;
    assert r == all[..n];
    SplitMultiset(all, n);
    var dropped := multiset(table + [entry]) - multiset(r);
    assert dropped == multiset(all[n..]);
    TailBelowHead(all, n);
  }

  /** While the table is not full, a successful insert keeps every old entry
      and the new one. */
  lemma AddScoreBelowLimit(table: seq<HighScore>, score: int, level: int, lines: int,
                           playerName: string, date: int)
    requires |table| < MaxHighScores
    ensures var r := AddScore(table, score, level, lines, playerName, date, true);
      multiset(r) == multiset(table + [HighScore(playerName, score, level, lines, date)])
      && HighScore(playerName, score, level, lines, date) in r
  {
    var entry := HighScore(playerName, score, level, lines, date);
    var r := AddScore(table, score, level, lines, playerName, date, true);
    assert entry in multiset(table + [entry]);
  }

  /** A full table stays full, and a score above any of its entries always
      gets in. */
  lemma AddScoreBeatsAnEntry(table: seq<HighScore>, score: int, level: int, lines: int,
                             playerName: string, date: int, i: int)
    requires |table| == MaxHighScores && 0 <= i < |table| && score > table[i].score
    ensures var r := AddScore(table, score, level, lines, playerName, date, true);
      |r| == MaxHighScores && HighScore(playerName, score, level, lines, date) in r
  {
    var entry := HighScore(playerName, score, level, lines, date);
    var r := AddScore(table, score, level, lines, playerName, date, true);
    AddScoreKeepsBest(table, score, level, lines, playerName, date);
    if entry !in r {
      assert entry in multiset(table + [entry]);
      assert multiset(r)[entry] == 0;
      assert entry in multiset(table + [entry]) - multiset(r);
      LeftOutScoresLowest(table, r, entry);
      assert false;
    }
  }

  /** If five kept entries come from a full old table plus a new entry, leave
      the new entry out, and all score at least as much as it, then they are
      the old table, so no old entry scores less than the new one. */
  lemma LeftOutScoresLowest(table: seq<HighScore>, r: seq<HighScore>, entry: HighScore)
    requires |table| == MaxHighScores && |r| == MaxHighScores
    requires multiset(r) <= multiset(table + [entry]) && entry !in r
    requires forall k :: k in r ==> entry.score <= k.score
    ensures forall k :: k in table ==> entry.score <= k.score
  {
    assert multiset(table + [entry]) == multiset(table) + multiset{entry};
    assert multiset(r)[entry] == 0;
    assert multiset(r) <= multiset(table) by {
      forall x | x in multiset(r)
        ensures multiset(r)[x] <= multiset(table)[x]
      {
        if x != entry {
          assert multiset(r)[x] <= multiset(table + [entry])[x];
        }
      }
    }
    assert |multiset(r)| == |multiset(table)|;
    MultisetEqualBySize(multiset(r), multiset(table));
    forall k | k in table
      ensures entry.score <= k.score
    {
      assert k in multiset(table);
      assert k in r;
    }
  }

  lemma MultisetEqualBySize(a: multiset<HighScore>, b: multiset<HighScore>)
    requires a <= b && |a| == |b|
    ensures a == b
  {
    var d := b - a;
    assert b == a + d;
    assert |d| == 0;
  }

  /** Reading the first `count` entries never reorders: a smaller request
      is a prefix of a larger one, and asking for at least the whole table
      gives the whole table. */
  lemma GetHighScoresPrefix(table: seq<HighScore>, a: int, b: int)
    requires 0 <= a <= b
    ensures GetHighScores(table, b)[..|GetHighScores(table, a)|] == GetHighScores(table, a)
    ensures b >= |table| ==> GetHighScores(table, b) == table
  {
  }

  /** `addScore` and `resetHighScores` keep a table sorted by descending score
      and within the limit, whether or not the database calls succeed. */
  lemma TableStaysTop(table: seq<HighScore>, score: int, level: int, lines: int,
                      playerName: string, date: int, ok: bool)
    requires Descending(table) && |table| <= MaxHighScores
    ensures var r := AddScore(table, score, level, lines, playerName, date, ok);
      Descending(r) && |r| <= MaxHighScores
    ensures Descending(ResetHighScores(table, ok)) && |ResetHighScores(table, ok)| <= MaxHighScores
  {
  }
}
