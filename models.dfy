/**
 * The two tables of the ledger (`speakers` and `masa_mentions`) as values,
 * the defaults the database fills in on insertion (the row id and the UTC
 * timestamp) and the invariants the schema declares.
 */
module Models {
  import opened Wrappers
  import Text

  /** A row of `speakers`: the username is the primary key, nothing else is stored. */
  datatype Speaker = Speaker(username: string)

  /**
   * A row of `masa_mentions`. The foreign-key column `speaker_username` is
   * nullable: the ORM sets it to NULL when its speaker row is deleted.
   */
  datatype Mention = Mention(id: int, date: string, speakerUsername: Option<string>)

  /** An instant of the UTC clock, as `datetime.now(timezone.utc)` returns it. */
  datatype Instant = Instant(year: nat, month: nat, day: nat, hour: nat, minute: nat, second: nat, microsecond: nat)

  predicate ValidInstant(t: Instant) {
    1 <= t.year <= 9999 && 1 <= t.month <= 12 && 1 <= t.day <= 31 &&
    t.hour < 24 && t.minute < 60 && t.second < 60 && t.microsecond < 1000000
  }

  /** `n` in decimal, left-padded with zeros to `width` characters (Python's `%0<width>d`). */
  function ZeroPad(n: nat, width: nat): (r: string)
    ensures |r| >= width
    ensures forall k | 0 <= k < |r| :: Text.IsDigit(r[k])
  {
    var digits := Text.NatToString(n);
    if |digits| >= width then digits else seq(width - |digits|, _ => '0') + digits
  }

  function Pow10(k: nat): (p: nat)
    ensures p >= 1
  {
    if k == 0 then 1 else 10 * Pow10(k - 1)
  }

  /** A number below 10^width has at most `width` digits. */
  lemma {:induction false} NatToStringLength(n: nat, width: nat)
    requires 1 <= width && n < Pow10(width)
    ensures |Text.NatToString(n)| <= width
    decreases width
  {
    if n >= 10 {
      NatToStringLength(n / 10, width - 1);
    }
  }

  /** Zero-padding a number below 10^width gives exactly `width` characters. */
  lemma ZeroPadWidth(n: nat, width: nat)
    requires 1 <= width && n < Pow10(width)
    ensures |ZeroPad(n, width)| == width
  {
    NatToStringLength(n, width);
  }

  /**
   * `datetime.isoformat()` of an aware UTC instant:
   * YYYY-MM-DDTHH:MM:SS[.ffffff]+00:00, the fraction only when it is not zero.
   */
  function IsoFormat(t: Instant): string {
    IsoDate(t) + IsoTime(t)
  }

  /** The YYYY-MM-DD part. */
  function IsoDate(t: Instant): string {
    ZeroPad(t.year, 4) + "-" + ZeroPad(t.month, 2) + "-" + ZeroPad(t.day, 2)
  }

  /** The THH:MM:SS[.ffffff]+00:00 part. */
  function IsoTime(t: Instant): string {
    "T" + ZeroPad(t.hour, 2) + ":" + ZeroPad(t.minute, 2) + ":" + ZeroPad(t.second, 2) +
    (if t.microsecond == 0 then "" else "." + ZeroPad(t.microsecond, 6)) +
    "+00:00"
  }

  /** The calendar day of a stored date, as SQLite's `date()` reads the stored UTC timestamps. */
  function DayOf(date: string): (d: string)
    ensures |d| <= 10
  {
    if |date| >= 10 then date[..10] else ""
  }

  /**
   * The default `date` of a mention is a well-formed timestamp of 25 or 32
   * characters whose first ten are the instant's calendar day.
   */
  lemma IsoFormatShape(t: Instant)
    requires ValidInstant(t)
    ensures |IsoFormat(t)| == (if t.microsecond == 0 then 25 else 32)
    ensures DayOf(IsoFormat(t)) == ZeroPad(t.year, 4) + "-" + ZeroPad(t.month, 2) + "-" + ZeroPad(t.day, 2)
    ensures IsoFormat(t)[10] == 'T'
  {
    IsoDateLength(t);
    IsoTimeShape(t);
    var date, rest := IsoDate(t), IsoTime(t);
    assert (date + rest)[..10] == date;
    assert (date + rest)[10] == rest[0];
  }

  lemma IsoDateLength(t: Instant)
    requires ValidInstant(t)
    ensures |IsoDate(t)| == 10
  {
    assert Pow10(2) == 100 && Pow10(4) == 10000;
    ZeroPadWidth(t.year, 4);
    ZeroPadWidth(t.month, 2);
    ZeroPadWidth(t.day, 2);
  }

  lemma IsoTimeShape(t: Instant)
    requires ValidInstant(t)
    ensures |IsoTime(t)| == (if t.microsecond == 0 then 15 else 22)
    ensures IsoTime(t)[0] == 'T'
  {
    assert Pow10(2) == 100 && Pow10(6) == 1000000;
    ZeroPadWidth(t.hour, 2);
    ZeroPadWidth(t.minute, 2);
    ZeroPadWidth(t.second, 2);
    ZeroPadWidth(t.microsecond, 6);
  }

  /** `username` is the primary key of `speakers`: each key maps to the row carrying it. */
  predicate KeyedByUsername(speakers: map<string, Speaker>) {
    forall u | u in speakers :: speakers[u].username == u
  }

  /** `id` is the primary key of `masa_mentions`. */
  predicate UniqueIds(ms: seq<Mention>) {
    forall i, j | 0 <= i < j < |ms| :: ms[i].id != ms[j].id
  }

  /** Largest id in the table, 0 for an empty table. */
  function MaxId(ms: seq<Mention>): (r: nat)
    ensures forall i | 0 <= i < |ms| :: ms[i].id <= r
    ensures ms == [] ==> r == 0
    ensures ms != [] ==> r == 0 || exists i | 0 <= i < |ms| :: ms[i].id == r
    decreases |ms|
  {
    if ms == [] then 0
    else
      var rest := MaxId(ms[..|ms| - 1]);
      var last := ms[|ms| - 1].id;
      if last > rest then last else rest
  }

  /**
   * The id SQLite gives a new row of an INTEGER PRIMARY KEY table without
   * AUTOINCREMENT (the declared `Sequence` is ignored on SQLite): one more than
   * the largest id present, 1 when the table is empty. It differs from every id
   * in the table.
   */
  function NextId(ms: seq<Mention>): (r: int)
    ensures r >= 1
    ensures forall i | 0 <= i < |ms| :: ms[i].id != r
  {
    MaxId(ms) + 1
  }

  /** The row `MasaMention(speaker=speaker)` becomes once inserted at instant `now`. */
  function NewMention(ms: seq<Mention>, username: string, now: Instant): (m: Mention)
    ensures m.speakerUsername == Some(username) && m.date == IsoFormat(now)
    ensures forall i | 0 <= i < |ms| :: ms[i].id != m.id
  {
    Mention(NextId(ms), IsoFormat(now), Some(username))
  }

  /** Appending the inserted row keeps the primary key on `id` unique. */
  lemma InsertKeepsIdsUnique(ms: seq<Mention>, username: string, now: Instant)
    requires UniqueIds(ms)
    ensures UniqueIds(ms + [NewMention(ms, username, now)])
  {
  }

  /** The `speaker.mentions` relationship: the mentions whose foreign key is `username`, in table order. */
  function MentionsOf(ms: seq<Mention>, username: string): (r: seq<Mention>)
    ensures forall k | 0 <= k < |r| :: r[k] in ms && r[k].speakerUsername == Some(username)
    ensures forall i | 0 <= i < |ms| :: ms[i].speakerUsername == Some(username) ==> ms[i] in r
    ensures forall x :: multiset(r)[x] == if x.speakerUsername == Some(username) then multiset(ms)[x] else 0
    decreases |ms|
  {
    if ms == [] then []
    else
      assert ms == ms[..|ms| - 1] + [ms[|ms| - 1]];
      var rest := MentionsOf(ms[..|ms| - 1], username);
      if ms[|ms| - 1].speakerUsername == Some(username) then rest + [ms[|ms| - 1]] else rest
  }
}
