/**
 * The leaderboard view: the leaderboard rows rendered as one embed field,
 * one line per rank for the first five rows.
 */
module LeaderboardUi {
  import opened Wrappers
  import opened Text
  import opened Queries

  /** Discord medal emojis by rank. */
  const EmojiDict: map<int, string> := map[
    1 := ":first_place:",
    2 := ":second_place:",
    3 := ":third_place:",
    4 := ":medal:",
    5 := ":medal:"
  ]

  const MaxRows: nat := 5

  datatype Field = Field(name: string, value: string)

  datatype Embed = Embed(title: string, fields: seq<Field>)

  /** How an f-string shows the username: the name itself, or "None" for the group of unowned mentions. */
  function UserText(k: Key): (t: string)
    ensures k.Some? ==> t == k.value
    ensures k.None? ==> t == "None"
  {
    match k
    case Some(u) => u
    case None => "None"
  }

  /** The line for one row at a rank from 1 to 5. */
  function Line(rank: int, row: Row): string
    requires rank in EmojiDict
  {
    Join([EmojiDict[rank], " - ", UserText(row.username), " - **", NatToString(row.count), "**\n"])
  }

  /** Spelled out: the emoji, a dash, the username, a dash, then the count in bold, and a line break. */
  lemma LineText(rank: int, row: Row)
    requires rank in EmojiDict
    ensures Line(rank, row) == EmojiDict[rank] + " - " + UserText(row.username) + " - **" + NatToString(row.count) + "**\n"
  {
    JoinSix(EmojiDict[rank], " - ", UserText(row.username), " - **", NatToString(row.count), "**\n");
  }

  /** The lines for rows, the first of them at the given rank, stopping after rank 5. */
  function RenderFrom(rows: seq<Row>, rank: nat): string
    requires 1 <= rank
    decreases |rows|
  {
    if rows == [] || rank > MaxRows then "" else Line(rank, rows[0]) + RenderFrom(rows[1..], rank + 1)
  }

  function Render(rows: seq<Row>): string {
    RenderFrom(rows, 1)
  }

  /** The lookup `emoji_dict[i]` never misses: the break at i > 5 comes first. */
  lemma EmojiDefined(rank: int)
    requires 1 <= rank <= MaxRows
    ensures rank in EmojiDict
    ensures EmojiDict[rank] == if rank == 1 then ":first_place:" else if rank == 2 then ":second_place:"
      else if rank == 3 then ":third_place:" else ":medal:"
  {
  }

  lemma RenderEmpty()
    ensures Render([]) == ""
  {
  }

  /** Rows after the fifth do not change the text. */
  lemma {:induction false} RenderIgnoresTail(rows: seq<Row>, rank: nat)
    requires 1 <= rank
    ensures RenderFrom(rows, rank) == RenderFrom(rows[..Min(|rows|, MaxRows + 1 - Min(rank, MaxRows + 1))], rank)
    decreases |rows|
  {
    var n := Min(|rows|, MaxRows + 1 - Min(rank, MaxRows + 1));
    if rows == [] || rank > MaxRows {
      RenderStops(rows, rank);
      RenderStops(rows[..n], rank);
    } else {
      RenderIgnoresTail(rows[1..], rank + 1);
      RenderIgnoresTailStep(rows, rank, n);
    }
  }

  /** Past rank 5, or out of rows, nothing more is written. */
  lemma RenderStops(rows: seq<Row>, rank: nat)
    requires 1 <= rank && (rows == [] || rank > MaxRows)
    ensures RenderFrom(rows, rank) == ""
  {
  }

  lemma RenderIgnoresTailStep(rows: seq<Row>, rank: nat, n: nat)
    requires 1 <= rank <= MaxRows && rows != [] && n == Min(|rows|, MaxRows + 1 - rank)
    requires RenderFrom(rows[1..], rank + 1)
      == RenderFrom(rows[1..][..Min(|rows[1..]|, MaxRows + 1 - Min(rank + 1, MaxRows + 1))], rank + 1)
    ensures RenderFrom(rows, rank) == RenderFrom(rows[..n], rank)
  {
    assert Min(|rows[1..]|, MaxRows + 1 - Min(rank + 1, MaxRows + 1)) == n - 1;
    assert rows[..n][0] == rows[0];
    assert rows[..n][1..] == rows[1..][..n - 1];
    RenderFromCons(rows, rank);
    RenderFromCons(rows[..n], rank);
  }

  function Min(a: int, b: int): int {
    if a < b then a else b
  }

  lemma RenderFromCons(rows: seq<Row>, rank: nat)
    requires 1 <= rank <= MaxRows && rows != []
    ensures RenderFrom(rows, rank) == Line(rank, rows[0]) + RenderFrom(rows[1..], rank + 1)
  {
  }

  lemma LinesCons(rows: seq<Row>, rank: nat)
    requires 1 <= rank && rank + |rows| <= MaxRows + 1 && rows != []
    ensures Lines(rows, rank) == Line(rank, rows[0]) + Lines(rows[1..], rank + 1)
  {
  }

  /** The text from a rank on is the lines of the first k rows followed by the text for the rest. */
  predicate SplitsAt(rows: seq<Row>, rank: nat, k: nat)
    requires 1 <= rank && k <= |rows| && rank + k <= MaxRows + 1
  {
    RenderFrom(rows, rank) == Lines(rows[..k], rank) + RenderFrom(rows[k..], rank + k)
  }

  lemma {:induction false} RenderIsLines(rows: seq<Row>, rank: nat, k: nat)
    requires 1 <= rank && k <= |rows| && rank + k <= MaxRows + 1
    ensures SplitsAt(rows, rank, k)
    decreases k
  {
    if k > 0 {
      var tail := rows[1..];
      RenderIsLines(tail, rank + 1, k - 1);
      RenderIsLinesStep(rows, tail, rank, k);
    } else {
      SplitsAtZero(rows, rank);
    }
  }

  lemma SplitsAtZero(rows: seq<Row>, rank: nat)
    requires 1 <= rank <= MaxRows + 1
    ensures SplitsAt(rows, rank, 0)
  {
    assert rows[..0] == [] && rows[0..] == rows;
    assert Lines([], rank) == "";
  }

  /** The step of the induction: the first line moves from the text to the front of the lines. */
  lemma RenderIsLinesStep(rows: seq<Row>, tail: seq<Row>, rank: nat, k: nat)
    requires 1 <= rank && 0 < k <= |rows| && rank + k <= MaxRows + 1 && tail == rows[1..]
    requires SplitsAt(tail, rank + 1, k - 1)
    ensures SplitsAt(rows, rank, k)
  {
    assert rank + 1 + (k - 1) == rank + k;
    assert rows[..k][0] == rows[0] && rows[..k][1..] == tail[..k - 1];
    assert tail[k - 1..] == rows[k..];
    RenderFromCons(rows, rank);
    LinesCons(rows[..k], rank);
    ConcatAssoc(Line(rank, rows[0]), Lines(tail[..k - 1], rank + 1), RenderFrom(rows[k..], rank + k));
  }

  /** Line after line, starting at a rank, with no cut-off: the reference reading of the loop. */
  function Lines(rows: seq<Row>, rank: nat): string
    requires 1 <= rank && rank + |rows| <= MaxRows + 1
    decreases |rows|
  {
    if rows == [] then "" else Line(rank, rows[0]) + Lines(rows[1..], rank + 1)
  }

  /** Appending a row adds its line at the end. */
  predicate AppendsLine(rows: seq<Row>, row: Row, rank: nat)
    requires 1 <= rank && rank + |rows| + 1 <= MaxRows + 1
  {
    Lines(rows + [row], rank) == Lines(rows, rank) + Line(rank + |rows|, row)
  }

  lemma {:induction false} LinesAppend(rows: seq<Row>, row: Row, rank: nat)
    requires 1 <= rank && rank + |rows| + 1 <= MaxRows + 1
    ensures AppendsLine(rows, row, rank)
    decreases |rows|
  {
    if rows == [] {
      LinesOne(row, rank);
    } else {
      var tail := rows[1..];
      LinesAppend(tail, row, rank + 1);
      LinesAppendStep(rows, tail, row, rank);
    }
  }

  lemma LinesOne(row: Row, rank: nat)
    requires 1 <= rank <= MaxRows
    ensures AppendsLine([], row, rank)
  {
    assert [] + [row] == [row] && [row][1..] == [];
    LinesCons([row], rank);
  }

  lemma LinesAppendStep(rows: seq<Row>, tail: seq<Row>, row: Row, rank: nat)
    requires 1 <= rank && rank + |rows| + 1 <= MaxRows + 1 && rows != [] && tail == rows[1..]
    requires AppendsLine(tail, row, rank + 1)
    ensures AppendsLine(rows, row, rank)
  {
    LinesConsAppend(rows, tail, row, rank);
    LinesCons(rows, rank);
    Regroup(Lines(rows + [row], rank), Line(rank, rows[0]), Lines(tail + [row], rank + 1),
      Lines(tail, rank + 1), Line(rank + |rows|, row), Lines(rows, rank));
  }

  lemma LinesConsAppend(rows: seq<Row>, tail: seq<Row>, row: Row, rank: nat)
    requires 1 <= rank && rank + |rows| + 1 <= MaxRows + 1 && rows != [] && tail == rows[1..]
    ensures Lines(rows + [row], rank) == Line(rank, rows[0]) + Lines(tail + [row], rank + 1)
  {
    assert (rows + [row])[0] == rows[0];
    assert (rows + [row])[1..] == tail + [row];
    LinesCons(rows + [row], rank);
  }

  lemma Regroup(x: string, a: string, y: string, b: string, c: string, z: string)
    requires x == a + y && y == b + c && z == a + b
    ensures x == z + c
  {
    ConcatAssoc(a, b, c);
  }

  /** The rendered text is exactly the lines of the first min(5, n) rows. */
  lemma RenderTopFive(rows: seq<Row>)
    ensures Render(rows) == Lines(rows[..Min(|rows|, MaxRows)], 1)
  {
    var n := Min(|rows|, MaxRows);
    RenderIsLines(rows, 1, n);
    if n < |rows| {
      assert rows[n..] != [];
    } else {
      assert rows[n..] == [];
    }
  }

  /** No username contains a line break. */
  predicate OneLineNames(rows: seq<Row>) {
    forall i | 0 <= i < |rows| :: rows[i].username.Some? ==> CountChar(rows[i].username.value, '\n') == 0
  }

  lemma EmojiOneLine(rank: int)
    requires rank in EmojiDict
    ensures CountChar(EmojiDict[rank], '\n') == 0
  {
    var e := EmojiDict[rank];
    assert e == ":first_place:" || e == ":second_place:" || e == ":third_place:" || e == ":medal:";
    CountCharAbsent(e, '\n');
  }

  lemma NumberOneLine(n: nat)
    ensures CountChar(NatToString(n), '\n') == 0
  {
    var c := NatToString(n);
    assert forall k | 0 <= k < |c| :: c[k] != '\n' by {
      forall k | 0 <= k < |c| ensures c[k] != '\n' {
        assert IsDigit(c[k]);
      }
    }
    CountCharAbsent(c, '\n');
  }

  lemma SeparatorsOneLine()
    ensures CountChar(" - ", '\n') == 0 && CountChar(" - **", '\n') == 0 && CountChar("**\n", '\n') == 1
    ensures CountChar("None", '\n') == 0
  {
  }

  /** Pieces without a line break, then a last piece with one: the joined text has one. */
  lemma {:induction false} JoinOneBreak(parts: seq<string>)
    requires parts != [] && CountChar(parts[|parts| - 1], '\n') == 1
    requires forall i | 0 <= i < |parts| - 1 :: CountChar(parts[i], '\n') == 0
    ensures CountChar(Join(parts), '\n') == 1
    decreases |parts|
  {
    if |parts| == 1 {
      assert Join(parts) == parts[0] + "" && parts[0] + "" == parts[0];
    } else {
      JoinOneBreak(parts[1..]);
      CountCharConcat(parts[0], Join(parts[1..]), '\n');
    }
  }

  lemma PiecesOneBreak(e: string, u: string, c: string)
    requires CountChar(e, '\n') == 0 && CountChar(u, '\n') == 0 && CountChar(c, '\n') == 0
    ensures CountChar(Join([e, " - ", u, " - **", c, "**\n"]), '\n') == 1
  {
    SeparatorsOneLine();
    var parts := [e, " - ", u, " - **", c, "**\n"];
    assert forall i | 0 <= i < |parts| - 1 :: CountChar(parts[i], '\n') == 0 by {
      forall i | 0 <= i < |parts| - 1 ensures CountChar(parts[i], '\n') == 0 {
        assert i == 0 || i == 1 || i == 2 || i == 3 || i == 4;
      }
    }
    JoinOneBreak(parts);
  }

  /** Each line ends in the only line break it holds. */
  lemma LineBreaks(rank: int, row: Row)
    requires rank in EmojiDict
    requires row.username.Some? ==> CountChar(row.username.value, '\n') == 0
    ensures CountChar(Line(rank, row), '\n') == 1
  {
    var u := UserText(row.username);
    EmojiOneLine(rank);
    assert CountChar(u, '\n') == 0 by {
      if row.username.None? {
        SeparatorsOneLine();
      }
    }
    NumberOneLine(row.count);
    PiecesOneBreak(EmojiDict[rank], u, NatToString(row.count));
  }

  /** With one-line usernames the text has min(5, n) lines. */
  lemma {:induction false} RenderLineCount(rows: seq<Row>, rank: nat)
    requires 1 <= rank && OneLineNames(rows)
    ensures CountChar(RenderFrom(rows, rank), '\n') == Min(|rows|, MaxRows + 1 - Min(rank, MaxRows + 1))
    decreases |rows|
  {
    if rows != [] && rank <= MaxRows {
      LineBreaks(rank, rows[0]);
      assert OneLineNames(rows[1..]) by {
        forall i | 0 <= i < |rows| - 1 ensures rows[1..][i] == rows[i + 1] {
        }
      }
      RenderLineCount(rows[1..], rank + 1);
      CountCharConcat(Line(rank, rows[0]), RenderFrom(rows[1..], rank + 1), '\n');
    }
  }

  /** The rendered text of n rows has min(5, n) lines. */
  lemma RenderLines(rows: seq<Row>)
    requires OneLineNames(rows)
    ensures CountChar(Render(rows), '\n') == Min(|rows|, MaxRows)
  {
    RenderLineCount(rows, 1);
  }

  /** One turn of the loop in `results_to_embed`: the line for rank i + 1 moves from the rest into the message. */
  lemma EmbedStep(results: seq<Row>, i: nat, message: string)
    requires i < |results| && i + 1 <= MaxRows
    requires message + RenderFrom(results[i..], i + 1) == Render(results)
    ensures (message + Line(i + 1, results[i])) + RenderFrom(results[i + 1..], i + 2) == Render(results)
  {
    assert results[i..][0] == results[i] && results[i..][1..] == results[i + 1..];
    RenderFromCons(results[i..], i + 1);
    ConcatAssoc(message, Line(i + 1, results[i]), RenderFrom(results[i + 1..], i + 2));
  }

  class LeaderboardUI {
    var emojiDict: map<int, string>
    var embed: Embed

    /** The medal table is the fixed one. */
    ghost predicate Valid()
      reads this
    {
      emojiDict == EmojiDict
    }

    constructor(results: seq<Row>)
      ensures Valid()
      ensures embed == Embed("Masa Meter Leaderboard", [Field("", Render(results))])
    {
      emojiDict := EmojiDict;
      embed := Embed("Masa Meter Leaderboard", []);
      new;
      var value := ResultsToEmbed(results);
      embed := Embed("Masa Meter Leaderboard", [Field("", value)]);
    }

    /** `results_to_embed`: one line per row, in order, breaking off after rank 5. */
    method ResultsToEmbed(results: seq<Row>) returns (message: string)
      requires Valid()
      ensures message == Render(results)
    {
      message := "";
      var i := 0;
      while i < |results|
        invariant 0 <= i <= |results| && i <= MaxRows
        invariant message + RenderFrom(results[i..], i + 1) == Render(results)
      {
        if i + 1 > MaxRows {
          break;
        }
        EmbedStep(results, i, message);
        message := message + Join([emojiDict[i + 1], " - ", UserText(results[i].username), " - **", NatToString(results[i].count), "**\n"]);
        i := i + 1;
      }
      if i < |results| {
        assert RenderFrom(results[i..], i + 1) == "";
      } else {
        assert results[i..] == [];
      }
    }
  }
}
