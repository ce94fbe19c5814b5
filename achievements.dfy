/**
 * `get_achievements`: five superlatives computed from the mention table,
 * each a `session.scalar` of a LIMIT 1 query, so each is a username or None
 * (no row, or a NULL speaker_username in the chosen row).
 */
module Achievements {
  import opened Wrappers
  import opened Models
  import opened Queries
  import Text

  /** Dropping the NULL layer: `session.scalar` returns None both for no row and for a NULL value. */
  predicate NoOrphans(ms: seq<Mention>) {
    forall i | 0 <= i < |ms| :: ms[i].speakerUsername.Some?
  }

  lemma LeaderboardNonEmpty(ms: seq<Mention>)
    requires ms != []
    ensures Leaderboard(ms) != []
  {
    var rows := Leaderboard(ms);
    assert ms[0].speakerUsername in KeysOf(rows);
  }

  /** Every group's count lies between the counts of the first and the last leaderboard row. */
  lemma LeaderboardBounds(ms: seq<Mention>, j: nat)
    requires j < |ms|
    ensures Leaderboard(ms) != []
    ensures Leaderboard(ms)[|Leaderboard(ms)| - 1].count <= Count(ms, ms[j].speakerUsername) <= Leaderboard(ms)[0].count
  {
    var rows := Leaderboard(ms);
    assert ms[j].speakerUsername in KeysOf(rows);
    var i :| 0 <= i < |rows| && KeysOf(rows)[i] == ms[j].speakerUsername;
    assert rows[i].count == Count(ms, ms[j].speakerUsername);
    assert 0 == i || rows[0].count >= rows[i].count;
    assert i == |rows| - 1 || rows[i].count >= rows[|rows| - 1].count;
  }

  /** Masa Master: ORDER BY count(id) DESC LIMIT 1 — a speaker with the largest total. */
  function MasaMaster(ms: seq<Mention>): (r: Option<string>)
    ensures ms == [] ==> r.None?
    ensures r.Some? ==> Present(ms, r) && forall j | 0 <= j < |ms| :: Count(ms, ms[j].speakerUsername) <= Count(ms, r)
    ensures r.None? && ms != [] ==> Present(ms, None) && forall j | 0 <= j < |ms| :: Count(ms, ms[j].speakerUsername) <= Count(ms, None)
  {
    var rows := Leaderboard(ms);
    if rows == [] then None
    else
      forall j | 0 <= j < |ms| ensures Count(ms, ms[j].speakerUsername) <= rows[0].count {
        LeaderboardBounds(ms, j);
      }
      rows[0].username
  }

  /** Silent Sashimi: ORDER BY count(id) ASC LIMIT 1 — a present speaker with the smallest total. */
  function SilentSashimi(ms: seq<Mention>): (r: Option<string>)
    ensures ms == [] ==> r.None?
    ensures r.Some? ==> Present(ms, r) && forall j | 0 <= j < |ms| :: Count(ms, r) <= Count(ms, ms[j].speakerUsername)
    ensures r.None? && ms != [] ==> Present(ms, None) && forall j | 0 <= j < |ms| :: Count(ms, None) <= Count(ms, ms[j].speakerUsername)
  {
    var rows := Leaderboard(ms);
    if rows == [] then None
    else
      forall j | 0 <= j < |ms| ensures rows[|rows| - 1].count <= Count(ms, ms[j].speakerUsername) {
        LeaderboardBounds(ms, j);
      }
      rows[|rows| - 1].username
  }

  /** With no orphaned mention, both superlatives name a speaker exactly when the table is not empty. */
  lemma SuperlativesNamed(ms: seq<Mention>)
    requires NoOrphans(ms)
    ensures MasaMaster(ms).Some? <==> ms != []
    ensures SilentSashimi(ms).Some? <==> ms != []
  {
    if ms != [] {
      LeaderboardNonEmpty(ms);
      var rows := Leaderboard(ms);
      var i :| 0 <= i < |ms| && ms[i].speakerUsername == rows[0].username;
      var j :| 0 <= j < |ms| && ms[j].speakerUsername == rows[|rows| - 1].username;
    }
  }

  // ----- Tempura Titan -----------------------------------------------------

  /** count(date) of the subquery group (speaker_username, date(date)). */
  function DayCount(ms: seq<Mention>, k: Key, day: string): (n: nat)
    ensures n <= |ms|
    decreases |ms|
  {
    if ms == [] then 0
    else
      var m := ms[|ms| - 1];
      DayCount(ms[..|ms| - 1], k, day) + (if m.speakerUsername == k && DayOf(m.date) == day then 1 else 0)
  }

  /** The size of the (speaker, day) group mention i belongs to. */
  function PeakAt(ms: seq<Mention>, i: nat): nat
    requires i < |ms|
  {
    DayCount(ms, ms[i].speakerUsername, DayOf(ms[i].date))
  }

  /** Index of the first mention whose (speaker, day) group is largest, among the first n. */
  function BusiestIndex(ms: seq<Mention>, n: nat): (b: nat)
    requires 1 <= n <= |ms|
    ensures b < n
    ensures forall j | 0 <= j < n :: PeakAt(ms, j) <= PeakAt(ms, b)
    ensures forall j | 0 <= j < b :: PeakAt(ms, j) < PeakAt(ms, b)
    decreases n
  {
    if n == 1 then 0
    else
      var b := BusiestIndex(ms, n - 1);
      if PeakAt(ms, n - 1) > PeakAt(ms, b) then n - 1 else b
  }

  /**
   * Tempura Titan: per speaker the largest one-day count, ORDER BY it DESC
   * LIMIT 1 — the speaker of a (speaker, day) group no other group exceeds.
   */
  function TempuraTitan(ms: seq<Mention>): (r: Option<string>)
    ensures ms == [] ==> r.None?
    ensures r.Some? ==> exists i | 0 <= i < |ms| :: ms[i].speakerUsername == r && forall j | 0 <= j < |ms| :: PeakAt(ms, j) <= PeakAt(ms, i)
    ensures NoOrphans(ms) ==> (r.Some? <==> ms != [])
    ensures r.None? && ms != [] ==> exists i | 0 <= i < |ms| :: ms[i].speakerUsername.None? && forall j | 0 <= j < |ms| :: PeakAt(ms, j) <= PeakAt(ms, i)
  {
    if ms == [] then None else ms[BusiestIndex(ms, |ms|)].speakerUsername
  }

  // ----- Nigiri Ninja ------------------------------------------------------

  /** count(date) of the group date(date) == day. */
  function DayTotal(ms: seq<Mention>, day: string): (n: nat)
    ensures n <= |ms|
    decreases |ms|
  {
    if ms == [] then 0
    else DayTotal(ms[..|ms| - 1], day) + (if DayOf(ms[|ms| - 1].date) == day then 1 else 0)
  }

  /** Mention i is the only one recorded on its day (HAVING count(date) = 1). */
  predicate Solo(ms: seq<Mention>, i: nat)
    requires i < |ms|
  {
    DayTotal(ms, DayOf(ms[i].date)) == 1
  }

  /** Index of the first solo mention at or after `from`, if any. */
  function FirstSolo(ms: seq<Mention>, from: nat): (r: Option<nat>)
    requires from <= |ms|
    ensures r.Some? ==> from <= r.value < |ms| && Solo(ms, r.value)
    ensures r.Some? ==> forall i | from <= i < r.value :: !Solo(ms, i)
    ensures r.None? ==> forall i | from <= i < |ms| :: !Solo(ms, i)
    decreases |ms| - from
  {
    if from == |ms| then None
    else if Solo(ms, from) then Some(from)
    else FirstSolo(ms, from + 1)
  }

  /** Nigiri Ninja: the speaker of the only mention of some day. */
  function NigiriNinja(ms: seq<Mention>): (r: Option<string>)
    ensures r.Some? ==> exists i | 0 <= i < |ms| :: Solo(ms, i) && ms[i].speakerUsername == r
    ensures (forall i | 0 <= i < |ms| :: !Solo(ms, i)) ==> r.None?
    ensures NoOrphans(ms) && (exists i | 0 <= i < |ms| :: Solo(ms, i)) ==> r.Some?
    ensures r.None? && (exists i | 0 <= i < |ms| :: Solo(ms, i)) ==> exists i | 0 <= i < |ms| :: Solo(ms, i) && ms[i].speakerUsername.None?
  {
    match FirstSolo(ms, 0)
    case None => None
    case Some(i) => ms[i].speakerUsername
  }

  // ----- Special Sushi -----------------------------------------------------

  /** The bounds `_get_birthday` returns, as the text SQLite compares the date column with. */
  datatype Window = Window(lo: string, hi: string)

  const BirthdaySuffix: string := "-09-14T05:00:00+00:00"

  /**
   * `_get_birthday` at an instant of year `year`; `pastBirthday` is whether
   * that instant is later than this year's birthday. The year is prefixed to
   * a string that already begins with a year, so both bounds of the past
   * case, and the upper bound always, carry two years. The lower bound of the
   * other case is a datetime object rather than text. It is modelled as the
   * text `Y-09-14 05:00:00+00:00`. Any rendering that begins with `Y-09-14 `
   * compares the same way against a stored date, because the space at index
   * 10 sorts before the stored dates' `T`.
   */
  function BirthdayWindow(year: nat, pastBirthday: bool): Window
    requires 1000 <= year <= 9999
  {
    var birthdayStr := Text.NatToString(year) + BirthdaySuffix;
    var lo := if pastBirthday then Text.NatToString(year - 1) + birthdayStr
              else Text.NatToString(year) + "-09-14 05:00:00+00:00";
    var hi := Text.NatToString(year + 1) + birthdayStr;
    Window(lo, hi)
  }

  /**
   * Despite the doubled prefixes, for the years whose neighbours also have
   * four digits the lower bound sorts before the upper one, so the window is
   * an interval that can hold mentions.
   */
  lemma BirthdayWindowOrdered(year: nat, pastBirthday: bool)
    requires 1001 <= year <= 9998
    ensures Text.TextLess(BirthdayWindow(year, pastBirthday).lo, BirthdayWindow(year, pastBirthday).hi)
  {
    var birthdayStr := Text.NatToString(year) + BirthdaySuffix;
    NatToStringBefore(year - 1, year + 1);
    NatToStringBefore(year, year + 1);
    if pastBirthday {
      PrefixLess(Text.NatToString(year - 1), Text.NatToString(year + 1), birthdayStr, birthdayStr);
    } else {
      PrefixLess(Text.NatToString(year), Text.NatToString(year + 1), "-09-14 05:00:00+00:00", birthdayStr);
    }
  }

  /** A year's text precedes the next year's text (for years of four digits). */
  lemma NatToStringBefore(m: nat, n: nat)
    requires 1000 <= m < n < 10000
    ensures |Text.NatToString(m)| == 4 && |Text.NatToString(n)| == 4
    ensures Text.TextLess(Text.NatToString(m), Text.NatToString(n))
  {
    FourDigits(m);
    FourDigits(n);
    Text.ParseNatToString(m);
    Text.ParseNatToString(n);
    DigitsOrder(Text.NatToString(m), Text.NatToString(n));
  }

  lemma FourDigits(n: nat)
    requires 1000 <= n < 10000
    ensures Text.NatToString(n) == [Text.DigitChar(n / 1000), Text.DigitChar(n / 100 % 10), Text.DigitChar(n / 10 % 10), Text.DigitChar(n % 10)]
  {
    var q1, q2, q3 := n / 1000, n / 100, n / 10;
    assert q3 / 10 == q2 && q2 / 10 == q1 && 1 <= q1 < 10;
    assert Text.NatToString(q2) == [Text.DigitChar(q1)] + [Text.DigitChar(q2 % 10)];
    assert Text.NatToString(q3) == Text.NatToString(q2) + [Text.DigitChar(q3 % 10)];
    assert Text.NatToString(n) == Text.NatToString(q3) + [Text.DigitChar(n % 10)];
  }

  lemma YearText(n: nat, a: char, b: char, c: char, d: char)
    requires 1000 <= n < 10000
    requires a == Text.DigitChar(n / 1000) && b == Text.DigitChar(n / 100 % 10)
    requires c == Text.DigitChar(n / 10 % 10) && d == Text.DigitChar(n % 10)
    ensures Text.NatToString(n) == [a, b, c, d]
  {
    FourDigits(n);
  }

  /** For digit strings of equal length, a smaller number reads as smaller text. */
  lemma {:induction false} DigitsOrder(a: string, b: string)
    requires |a| == |b|
    requires forall k | 0 <= k < |a| :: Text.IsDigit(a[k])
    requires forall k | 0 <= k < |b| :: Text.IsDigit(b[k])
    requires Text.ParseDigits(a) < Text.ParseDigits(b)
    ensures Text.TextLess(a, b)
    decreases |a|
  {
    var n := |a| - 1;
    var av, bv := Text.ParseDigits(a[..n]), Text.ParseDigits(b[..n]);
    var ad, bd := a[n] as int - '0' as int, b[n] as int - '0' as int;
    assert Text.ParseDigits(a) == 10 * av + ad;
    assert Text.ParseDigits(b) == 10 * bv + bd;
    if av < bv {
      DigitsOrder(a[..n], b[..n]);
      PrefixLess(a[..n], b[..n], [a[n]], [b[n]]);
      assert a == a[..n] + [a[n]] && b == b[..n] + [b[n]];
    } else {
      assert av == bv && ad < bd;
      DigitsEqual(a[..n], b[..n]);
      PrefixEqualLess(a[..n], a[n], b[n]);
      assert a == a[..n] + [a[n]] && b == b[..n] + [b[n]];
    }
  }

  lemma {:induction false} DigitsEqual(a: string, b: string)
    requires |a| == |b|
    requires forall k | 0 <= k < |a| :: Text.IsDigit(a[k])
    requires forall k | 0 <= k < |b| :: Text.IsDigit(b[k])
    requires Text.ParseDigits(a) == Text.ParseDigits(b)
    ensures a == b
    decreases |a|
  {
    if a != [] {
      var n := |a| - 1;
      DigitsEqual(a[..n], b[..n]);
      assert a == a[..n] + [a[n]] && b == b[..n] + [b[n]];
    }
  }

  lemma {:induction false} PrefixEqualLess(p: string, x: char, y: char)
    requires x < y
    ensures Text.TextLess(p + [x], p + [y])
    decreases |p|
  {
    if p != [] {
      PrefixEqualLess(p[1..], x, y);
      assert (p + [x])[1..] == p[1..] + [x] && (p + [y])[1..] == p[1..] + [y];
    }
  }

  /** Text order decided within equal-length prefixes is not changed by what follows. */
  lemma {:induction false} PrefixLess(a: string, b: string, x: string, y: string)
    requires |a| == |b| && Text.TextLess(a, b)
    ensures Text.TextLess(a + x, b + y)
    decreases |a|
  {
    assert a != [];
    if a[0] == b[0] {
      PrefixLess(a[1..], b[1..], x, y);
      assert (a + x)[1..] == a[1..] + x && (b + y)[1..] == b[1..] + y;
    }
  }

  predicate InWindow(w: Window, date: string) {
    Text.TextLessEq(w.lo, date) && Text.TextLess(date, w.hi)
  }

  /** Index of the first mention at or after `from` whose date text lies in the window. */
  function FirstInWindow(ms: seq<Mention>, w: Window, from: nat): (r: Option<nat>)
    requires from <= |ms|
    ensures r.Some? ==> from <= r.value < |ms| && InWindow(w, ms[r.value].date)
    ensures r.Some? ==> forall i | from <= i < r.value :: !InWindow(w, ms[i].date)
    ensures r.None? ==> forall i | from <= i < |ms| :: !InWindow(w, ms[i].date)
    decreases |ms| - from
  {
    if from == |ms| then None
    else if InWindow(w, ms[from].date) then Some(from)
    else FirstInWindow(ms, w, from + 1)
  }

  /** Special Sushi: WHERE lo <= date < hi LIMIT 1 — the speaker of some mention in the window. */
  function SpecialSushi(ms: seq<Mention>, w: Window): (r: Option<string>)
    ensures r.Some? ==> exists i | 0 <= i < |ms| :: InWindow(w, ms[i].date) && ms[i].speakerUsername == r
    ensures (forall i | 0 <= i < |ms| :: !InWindow(w, ms[i].date)) ==> r.None?
    ensures NoOrphans(ms) && (exists i | 0 <= i < |ms| :: InWindow(w, ms[i].date)) ==> r.Some?
    ensures r.None? && (exists i | 0 <= i < |ms| :: InWindow(w, ms[i].date)) ==> exists i | 0 <= i < |ms| :: InWindow(w, ms[i].date) && ms[i].speakerUsername.None?
  {
    match FirstInWindow(ms, w, 0)
    case None => None
    case Some(i) => ms[i].speakerUsername
  }

  /** Text order after a common prefix is decided by what follows it. */
  lemma {:induction false} CommonPrefixLess(p: string, x: string, y: string)
    requires Text.TextLess(x, y)
    ensures Text.TextLess(p + x, p + y)
    decreases |p|
  {
    if p != [] {
      CommonPrefixLess(p[1..], x, y);
      assert (p + x)[1..] == p[1..] + x && (p + y)[1..] == p[1..] + y;
    } else {
      assert p + x == x && p + y == y;
    }
  }

  /** A date text that continues a year with '-' sorts before that year followed by a digit. */
  lemma DashBeforeDigit(p: string, rest: string, digits: string)
    requires rest != [] && rest[0] == '-' && digits != [] && Text.IsDigit(digits[0])
    ensures Text.TextLess(p + rest, p + digits)
    ensures !Text.TextLessEq(p + digits, p + rest)
  {
    CommonPrefixLess(p, rest, digits);
    Text.TextLessTrichotomy(p + rest, p + digits);
  }

  /**
   * What the doubled year prefix does to the birthday window of year Y, for
   * dates written Y-..., (Y-1)-... or (Y+1)-...: after this year's birthday
   * the window holds every date of year Y, including those before the
   * birthday, and no date of year Y-1, including those after last year's
   * birthday; before it, the window also holds every date of year Y+1.
   */
  lemma BirthdayWindowYears(year: nat, rest: string)
    requires 1001 <= year <= 9998
    requires rest != [] && rest[0] == '-'
    ensures InWindow(BirthdayWindow(year, true), Text.NatToString(year) + rest)
    ensures !InWindow(BirthdayWindow(year, true), Text.NatToString(year - 1) + rest)
    ensures InWindow(BirthdayWindow(year, false), Text.NatToString(year + 1) + rest)
  {
    var prev, cur, next := Text.NatToString(year - 1), Text.NatToString(year), Text.NatToString(year + 1);
    var birthdayStr := cur + BirthdaySuffix;
    NatToStringBefore(year - 1, year);
    NatToStringBefore(year, year + 1);
    NatToStringBefore(year - 1, year + 1);
    // after the birthday: prev + cur + suffix <= cur + rest < next + cur + suffix
    PrefixLess(prev, cur, birthdayStr, rest);
    PrefixLess(cur, next, rest, birthdayStr);
    // a date of the previous year sorts before the lower bound
    assert prev + birthdayStr == prev + (cur + BirthdaySuffix);
    DashBeforeDigit(prev, rest, birthdayStr);
    // before the birthday: cur + "-09-14 ..." <= next + rest < next + cur + suffix
    PrefixLess(cur, next, "-09-14 05:00:00+00:00", rest);
    DashBeforeDigit(next, rest, birthdayStr);
  }

  /** `get_achievements`: the list built by five appends, in the order `get_achievements` appends them. */
  method GetAchievements(ms: seq<Mention>, year: nat, pastBirthday: bool) returns (achievements: seq<Option<string>>)
    requires 1000 <= year <= 9999
    ensures achievements
      == [MasaMaster(ms), SilentSashimi(ms), TempuraTitan(ms), NigiriNinja(ms), SpecialSushi(ms, BirthdayWindow(year, pastBirthday))]
  {
    achievements := [];
    achievements := achievements + [MasaMaster(ms)];
    achievements := achievements + [SilentSashimi(ms)];
    achievements := achievements + [TempuraTitan(ms)];
    achievements := achievements + [NigiriNinja(ms)];
    achievements := achievements + [SpecialSushi(ms, BirthdayWindow(year, pastBirthday))];
    FiveAppends(MasaMaster(ms), SilentSashimi(ms), TempuraTitan(ms), NigiriNinja(ms), SpecialSushi(ms, BirthdayWindow(year, pastBirthday)));
  }

  /** Five appends to an empty list give the five values in order. */
  lemma FiveAppends<T>(a: T, b: T, c: T, d: T, e: T)
    ensures [] + [a] + [b] + [c] + [d] + [e] == [a, b, c, d, e]
  {
  }
}
