/**
 * The read queries of the ledger (`get_meter`, `get_history`,
 * `get_leaderboard`) as functions of the `masa_mentions` table.
 *
 * SQL promises no row order without ORDER BY and no order among tied
 * groups. Each query is therefore specified by a predicate that every
 * admissible answer satisfies (`IsHistory`, `IsLeaderboard`); the function
 * of the same name computes one such answer, and the lemmas show that the
 * promised properties hold of every admissible answer.
 */
module Queries {
  import opened Wrappers
  import opened Models

  /** A key of GROUP BY speaker_username; None is the group of NULL foreign keys. */
  type Key = Option<string>

  /** Does some mention carry this foreign key? */
  predicate Present(ms: seq<Mention>, k: Key) {
    exists i | 0 <= i < |ms| :: ms[i].speakerUsername == k
  }

  // ----- get_meter ---------------------------------------------------------

  /** SELECT count(id): every row has a non-NULL id, so every row is counted. */
  function Meter(ms: seq<Mention>): nat {
    |ms|
  }

  // ----- get_history -------------------------------------------------------

  /** One row of SELECT date, speaker_username (the id is not selected). */
  datatype HistoryRow = HistoryRow(date: string, username: Key)

  function HistoryRowOf(m: Mention): HistoryRow {
    HistoryRow(m.date, m.speakerUsername)
  }

  /** The bag of (date, speaker_username) pairs of the table. */
  function HistoryBag(ms: seq<Mention>): multiset<HistoryRow>
    decreases |ms|
  {
    if ms == [] then multiset{} else HistoryBag(ms[..|ms| - 1]) + multiset{HistoryRowOf(ms[|ms| - 1])}
  }

  /** An admissible answer of `get_history`: the rows of the table in any order. */
  predicate IsHistory(ms: seq<Mention>, rows: seq<HistoryRow>) {
    multiset(rows) == HistoryBag(ms)
  }

  /** `get_history` in table order (SQLite's plain scan), one row per mention. */
  function History(ms: seq<Mention>): (rows: seq<HistoryRow>)
    ensures IsHistory(ms, rows)
    ensures |rows| == |ms| && forall i | 0 <= i < |ms| :: rows[i] == HistoryRowOf(ms[i])
  {
    var rows := seq(|ms|, i requires 0 <= i < |ms| => HistoryRowOf(ms[i]));
    HistoryInTableOrder(ms, rows);
    rows
  }

  lemma {:induction false} HistoryInTableOrder(ms: seq<Mention>, rows: seq<HistoryRow>)
    requires |rows| == |ms| && forall i | 0 <= i < |ms| :: rows[i] == HistoryRowOf(ms[i])
    ensures multiset(rows) == HistoryBag(ms)
    decreases |ms|
  {
    if ms != [] {
      var n := |ms| - 1;
      HistoryInTableOrder(ms[..n], rows[..n]);
      assert rows == rows[..n] + [rows[n]];
    }
  }

  lemma {:induction false} HistoryBagSize(ms: seq<Mention>)
    ensures |HistoryBag(ms)| == |ms|
    decreases |ms|
  {
    if ms != [] {
      HistoryBagSize(ms[..|ms| - 1]);
    }
  }

  lemma HistoryBagMembers(ms: seq<Mention>, r: HistoryRow)
    ensures r in HistoryBag(ms) <==> exists i | 0 <= i < |ms| :: HistoryRowOf(ms[i]) == r
  {
    var rows := History(ms);
    assert r in HistoryBag(ms) <==> r in multiset(rows);
    if r in rows {
      var k :| 0 <= k < |rows| && rows[k] == r;
      assert HistoryRowOf(ms[k]) == r;
    }
    if exists i | 0 <= i < |ms| :: HistoryRowOf(ms[i]) == r {
      var i :| 0 <= i < |ms| && HistoryRowOf(ms[i]) == r;
      assert rows[i] == r;
    }
  }

  /**
   * Whatever order the database returns, an answer of `get_history` has one
   * row per mention, every row is the (date, speaker_username) of a mention,
   * and every mention's pair occurs in it.
   */
  lemma HistoryOnePerMention(ms: seq<Mention>, rows: seq<HistoryRow>)
    requires IsHistory(ms, rows)
    ensures |rows| == Meter(ms)
    ensures forall k | 0 <= k < |rows| :: exists i | 0 <= i < |ms| :: HistoryRowOf(ms[i]) == rows[k]
    ensures forall i | 0 <= i < |ms| :: HistoryRowOf(ms[i]) in rows
  {
    HistoryBagSize(ms);
    assert |multiset(rows)| == |rows|;
    forall k | 0 <= k < |rows|
      ensures exists i | 0 <= i < |ms| :: HistoryRowOf(ms[i]) == rows[k]
    {
      assert rows[k] in multiset(rows);
      HistoryBagMembers(ms, rows[k]);
    }
    forall i | 0 <= i < |ms|
      ensures HistoryRowOf(ms[i]) in rows
    {
      HistoryBagMembers(ms, HistoryRowOf(ms[i]));
      assert HistoryRowOf(ms[i]) in multiset(rows);
    }
  }

  // ----- get_leaderboard ---------------------------------------------------

  /** count(id) of the group of `k`. */
  function Count(ms: seq<Mention>, k: Key): (n: nat)
    ensures n <= |ms|
    decreases |ms|
  {
    if ms == [] then 0
    else Count(ms[..|ms| - 1], k) + (if ms[|ms| - 1].speakerUsername == k then 1 else 0)
  }

  /** Inserting one row raises its group's count by one and leaves every other group alone. */
  lemma CountAppend(ms: seq<Mention>, m: Mention, k: Key)
    ensures Count(ms + [m], k) == Count(ms, k) + (if m.speakerUsername == k then 1 else 0)
  {
    assert (ms + [m])[..|ms|] == ms;
  }

  /** A group has a positive count exactly when some mention carries its key. */
  lemma {:induction false} CountPositive(ms: seq<Mention>, k: Key)
    ensures Count(ms, k) > 0 <==> Present(ms, k)
    decreases |ms|
  {
    if ms != [] {
      var n := |ms| - 1;
      CountPositive(ms[..n], k);
      if Present(ms[..n], k) {
        var i :| 0 <= i < n && ms[..n][i].speakerUsername == k;
        assert ms[i] == ms[..n][i];
      }
      if Present(ms, k) && ms[n].speakerUsername != k {
        var i :| 0 <= i < |ms| && ms[i].speakerUsername == k;
        assert ms[..n][i] == ms[i];
      }
    }
  }

  predicate DistinctKeys(ks: seq<Key>) {
    forall i, j | 0 <= i < j < |ks| :: ks[i] != ks[j]
  }

  /** The distinct keys of the table, in order of first appearance. */
  function Keys(ms: seq<Mention>): (ks: seq<Key>)
    ensures DistinctKeys(ks)
    ensures forall k :: k in ks <==> Present(ms, k)
    decreases |ms|
  {
    if ms == [] then []
    else
      var n := |ms| - 1;
      var rest := Keys(ms[..n]);
      assert forall k :: Present(ms, k) <==> Present(ms[..n], k) || ms[n].speakerUsername == k by {
        forall k
          ensures Present(ms, k) <==> Present(ms[..n], k) || ms[n].speakerUsername == k
        {
          if Present(ms, k) && ms[n].speakerUsername != k {
            var i :| 0 <= i < |ms| && ms[i].speakerUsername == k;
            assert ms[..n][i] == ms[i];
          }
          if Present(ms[..n], k) {
            var i :| 0 <= i < n && ms[..n][i].speakerUsername == k;
            assert ms[i] == ms[..n][i];
          }
        }
      }
      if ms[n].speakerUsername in rest then rest else rest + [ms[n].speakerUsername]
  }

  /** One row of the leaderboard: (speaker_username, count(id)). */
  datatype Row = Row(username: Key, count: nat)

  function KeysOf(rows: seq<Row>): (ks: seq<Key>)
    ensures |ks| == |rows| && forall i | 0 <= i < |rows| :: ks[i] == rows[i].username
  {
    seq(|rows|, i requires 0 <= i < |rows| => rows[i].username)
  }

  predicate SortedDesc(rows: seq<Row>) {
    forall i, j | 0 <= i < j < |rows| :: rows[i].count >= rows[j].count
  }

  /**
   * An admissible answer of `get_leaderboard`: one row per group of
   * speaker_username present in the table, each with its group's count, in
   * non-increasing count order (ties in any order).
   */
  ghost predicate IsLeaderboard(ms: seq<Mention>, rows: seq<Row>) {
    && (forall i | 0 <= i < |rows| :: Present(ms, rows[i].username) && rows[i].count == Count(ms, rows[i].username))
    && DistinctKeys(KeysOf(rows))
    && (forall j | 0 <= j < |ms| :: ms[j].speakerUsername in KeysOf(rows))
    && SortedDesc(rows)
  }

  /** The group rows in order of first appearance, before ORDER BY. */
  function GroupRows(ks: seq<Key>, ms: seq<Mention>): (rows: seq<Row>)
    ensures |rows| == |ks| && forall i | 0 <= i < |ks| :: rows[i] == Row(ks[i], Count(ms, ks[i]))
  {
    seq(|ks|, i requires 0 <= i < |ks| => Row(ks[i], Count(ms, ks[i])))
  }

  /** Inserts a row before the first row with a smaller count. */
  function InsertDesc(r: Row, rows: seq<Row>): (res: seq<Row>)
    ensures multiset(res) == multiset(rows) + multiset{r}
    ensures |res| == |rows| + 1
    ensures res[0] == r || (rows != [] && res[0] == rows[0])
    decreases |rows|
  {
    if rows == [] || r.count >= rows[0].count then [r] + rows
    else
      assert rows == [rows[0]] + rows[1..];
      [rows[0]] + InsertDesc(r, rows[1..])
  }

  /** Insertion keeps the order. */
  lemma {:induction false} InsertDescSorted(r: Row, rows: seq<Row>)
    requires SortedDesc(rows)
    ensures SortedDesc(InsertDesc(r, rows))
    decreases |rows|
  {
    if rows != [] && r.count < rows[0].count {
      var rest := InsertDesc(r, rows[1..]);
      InsertDescSorted(r, rows[1..]);
      InsertDescBounded(r, rows[1..], rows[0].count);
      SortedCons(rows[0], rest);
      assert InsertDesc(r, rows) == [rows[0]] + rest;
    }
  }

  /** Inserting into rows whose counts are at most c, a row whose count is at most c, keeps every count at most c. */
  lemma InsertDescBounded(r: Row, tail: seq<Row>, c: int)
    requires r.count <= c && forall j | 0 <= j < |tail| :: tail[j].count <= c
    ensures forall k | 0 <= k < |InsertDesc(r, tail)| :: InsertDesc(r, tail)[k].count <= c
  {
    var rest := InsertDesc(r, tail);
    forall k | 0 <= k < |rest|
      ensures rest[k].count <= c
    {
      assert rest[k] in multiset(rest);
      if rest[k] != r {
        assert rest[k] in multiset(tail);
        var j :| 0 <= j < |tail| && tail[j] == rest[k];
      }
    }
  }

  lemma SortedCons(h: Row, rest: seq<Row>)
    requires SortedDesc(rest) && forall k | 0 <= k < |rest| :: rest[k].count <= h.count
    ensures SortedDesc([h] + rest)
  {
    var s := [h] + rest;
    forall i, j | 0 <= i < j < |s|
      ensures s[i].count >= s[j].count
    {
      assert s[j] == rest[j - 1];
      if i > 0 {
        assert s[i] == rest[i - 1];
      }
    }
  }

  /** ORDER BY count(id) DESC, as an insertion sort. */
  function SortDesc(rows: seq<Row>): (res: seq<Row>)
    ensures multiset(res) == multiset(rows)
    ensures |res| == |rows|
    ensures SortedDesc(res)
    decreases |rows|
  {
    if rows == [] then []
    else
      assert rows == [rows[0]] + rows[1..];
      InsertDescSorted(rows[0], SortDesc(rows[1..]));
      InsertDesc(rows[0], SortDesc(rows[1..]))
  }

  /** `get_leaderboard`: group, count, order by count descending. */
  function Leaderboard(ms: seq<Mention>): (rows: seq<Row>)
    ensures IsLeaderboard(ms, rows)
  {
    var ks := Keys(ms);
    var groups := GroupRows(ks, ms);
    var rows := SortDesc(groups);
    LeaderboardFromGroups(ms, ks, groups, rows);
    rows
  }

  lemma LeaderboardFromGroups(ms: seq<Mention>, ks: seq<Key>, groups: seq<Row>, rows: seq<Row>)
    requires ks == Keys(ms) && groups == GroupRows(ks, ms)
    requires multiset(rows) == multiset(groups) && SortedDesc(rows)
    ensures IsLeaderboard(ms, rows)
  {
    forall i | 0 <= i < |rows|
      ensures Present(ms, rows[i].username) && rows[i].count == Count(ms, rows[i].username)
    {
      assert rows[i] in multiset(groups);
    }
    forall i, j | 0 <= i < j < |rows|
      ensures KeysOf(rows)[i] != KeysOf(rows)[j]
    {
      assert rows[i] in multiset(groups) && rows[j] in multiset(groups);
      if rows[i].username == rows[j].username {
        assert rows[i] == rows[j];
        RepeatedElement(rows, i, j);
        DistinctOnce(groups, rows[i]);
        assert false;
      }
    }
    forall j | 0 <= j < |ms|
      ensures ms[j].speakerUsername in KeysOf(rows)
    {
      var k := ms[j].speakerUsername;
      assert k in ks;
      var g :| 0 <= g < |ks| && ks[g] == k;
      assert groups[g] in multiset(rows);
      var i :| 0 <= i < |rows| && rows[i] == groups[g];
      assert KeysOf(rows)[i] == k;
    }
  }

  /** An element found at two positions occurs at least twice. */
  lemma {:induction false} RepeatedElement<T>(s: seq<T>, i: nat, j: nat)
    requires i < j < |s| && s[i] == s[j]
    ensures multiset(s)[s[i]] >= 2
    decreases |s|
  {
    if i == 0 {
      assert s == [s[0]] + s[1..];
      assert s[j] == s[1..][j - 1];
      assert s[i] in multiset(s[1..]);
    } else {
      assert s == [s[0]] + s[1..];
      RepeatedElement(s[1..], i - 1, j - 1);
    }
  }

  /** Rows with pairwise distinct keys occur at most once each. */
  lemma {:induction false} DistinctOnce(rows: seq<Row>, x: Row)
    requires DistinctKeys(KeysOf(rows))
    ensures multiset(rows)[x] == if x in rows then 1 else 0
    decreases |rows|
  {
    if rows != [] {
      assert rows == [rows[0]] + rows[1..];
      assert DistinctKeys(KeysOf(rows[1..])) by {
        forall i, j | 0 <= i < j < |rows[1..]|
          ensures KeysOf(rows[1..])[i] != KeysOf(rows[1..])[j]
        {
          assert KeysOf(rows)[i + 1] != KeysOf(rows)[j + 1];
        }
      }
      DistinctOnce(rows[1..], x);
    }
  }

  /** Sum of the count column. */
  function TotalCount(rows: seq<Row>): nat
    decreases |rows|
  {
    if rows == [] then 0 else rows[0].count + TotalCount(rows[1..])
  }

  /** Sum, over a list of keys, of their groups' counts. */
  function SumCounts(ks: seq<Key>, ms: seq<Mention>): nat
    decreases |ks|
  {
    if ks == [] then 0 else Count(ms, ks[0]) + SumCounts(ks[1..], ms)
  }

  lemma {:induction false} SumCountsAppend(ks: seq<Key>, ms: seq<Mention>, m: Mention)
    requires DistinctKeys(ks)
    ensures SumCounts(ks, ms + [m]) == SumCounts(ks, ms) + (if m.speakerUsername in ks then 1 else 0)
    decreases |ks|
  {
    if ks != [] {
      assert DistinctKeys(ks[1..]) by {
        forall i, j | 0 <= i < j < |ks[1..]| ensures ks[1..][i] != ks[1..][j] {
          assert ks[i + 1] != ks[j + 1];
        }
      }
      SumCountsAppend(ks[1..], ms, m);
      CountAppend(ms, m, ks[0]);
      if m.speakerUsername == ks[0] {
        assert m.speakerUsername !in ks[1..];
      } else {
        assert m.speakerUsername in ks <==> m.speakerUsername in ks[1..] by {
          assert ks == [ks[0]] + ks[1..];
        }
      }
    }
  }

  /** Distinct keys covering every mention's key account for every mention exactly once. */
  lemma {:induction false} SumCountsCovering(ks: seq<Key>, ms: seq<Mention>)
    requires DistinctKeys(ks)
    requires forall j | 0 <= j < |ms| :: ms[j].speakerUsername in ks
    ensures SumCounts(ks, ms) == |ms|
    decreases |ms|
  {
    if ms == [] {
      SumCountsEmpty(ks);
    } else {
      var n := |ms| - 1;
      assert ms == ms[..n] + [ms[n]];
      SumCountsCovering(ks, ms[..n]);
      SumCountsAppend(ks, ms[..n], ms[n]);
    }
  }

  lemma {:induction false} SumCountsEmpty(ks: seq<Key>)
    ensures SumCounts(ks, []) == 0
    decreases |ks|
  {
    if ks != [] {
      SumCountsEmpty(ks[1..]);
    }
  }

  lemma {:induction false} TotalIsSumCounts(ms: seq<Mention>, rows: seq<Row>)
    requires forall i | 0 <= i < |rows| :: rows[i].count == Count(ms, rows[i].username)
    ensures TotalCount(rows) == SumCounts(KeysOf(rows), ms)
    decreases |rows|
  {
    if rows != [] {
      TotalIsSumCounts(ms, rows[1..]);
      assert KeysOf(rows)[1..] == KeysOf(rows[1..]);
    }
  }

  /**
   * Every admissible leaderboard accounts for the whole meter: its counts sum
   * to `get_meter`. With distinct keys and counts that are positive, no
   * mention is counted twice and none is left out.
   */
  lemma LeaderboardTotalIsMeter(ms: seq<Mention>, rows: seq<Row>)
    requires IsLeaderboard(ms, rows)
    ensures TotalCount(rows) == Meter(ms)
    ensures forall i | 0 <= i < |rows| :: rows[i].count >= 1
  {
    TotalIsSumCounts(ms, rows);
    SumCountsCovering(KeysOf(rows), ms);
    forall i | 0 <= i < |rows| ensures rows[i].count >= 1 {
      CountPositive(ms, rows[i].username);
    }
  }

  /**
   * Two admissible leaderboards of the same table hold the same rows: only
   * the order among tied counts may differ, never which rows appear.
   */
  lemma LeaderboardUniqueUpToTies(ms: seq<Mention>, a: seq<Row>, b: seq<Row>)
    requires IsLeaderboard(ms, a) && IsLeaderboard(ms, b)
    ensures multiset(a) == multiset(b)
    ensures |a| == |b|
  {
    forall x | x in a ensures x in b {
      var i :| 0 <= i < |a| && a[i] == x;
      var w :| 0 <= w < |ms| && ms[w].speakerUsername == x.username;
      assert ms[w].speakerUsername in KeysOf(b);
      var j :| 0 <= j < |b| && KeysOf(b)[j] == x.username;
      assert b[j] == x;
    }
    forall x | x in b ensures x in a {
      var i :| 0 <= i < |b| && b[i] == x;
      var w :| 0 <= w < |ms| && ms[w].speakerUsername == x.username;
      assert ms[w].speakerUsername in KeysOf(a);
      var j :| 0 <= j < |a| && KeysOf(a)[j] == x.username;
      assert a[j] == x;
    }
    forall x ensures multiset(a)[x] == multiset(b)[x] {
      DistinctOnce(a, x);
      DistinctOnce(b, x);
    }
    assert multiset(a) == multiset(b);
    assert |multiset(a)| == |a| && |multiset(b)| == |b|;
  }

  /**
   * Recording one mention for `username` raises that speaker's leaderboard
   * count by exactly one and leaves every other group's count unchanged.
   */
  lemma MentionRaisesOneCount(ms: seq<Mention>, m: Mention, k: Key)
    requires m.speakerUsername.Some?
    ensures Count(ms + [m], m.speakerUsername) == Count(ms, m.speakerUsername) + 1
    ensures k != m.speakerUsername ==> Count(ms + [m], k) == Count(ms, k)
    ensures Meter(ms + [m]) == Meter(ms) + 1
  {
    CountAppend(ms, m, m.speakerUsername);
    CountAppend(ms, m, k);
  }
}
