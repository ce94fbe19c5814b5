/**
 * Small text helpers shared by the model: Python's `str(n)` for the
 * non-negative integers the program formats (counts and years), and the
 * BINARY collation SQLite uses when it compares two TEXT values.
 */
module Text {

  predicate IsDigit(c: char) {
    '0' <= c <= '9'
  }

  function DigitChar(d: nat): (c: char)
    requires d < 10
    ensures IsDigit(c) && c as int - '0' as int == d
  {
    ('0' as int + d) as char
  }

  /** Decimal rendering of a natural number, as Python's `str` does it. */
  function NatToString(n: nat): (r: string)
    ensures |r| >= 1
    ensures forall k | 0 <= k < |r| :: IsDigit(r[k])
    ensures r[0] == '0' ==> n == 0 && r == "0"
    decreases n
  {
    if n < 10 then [DigitChar(n)] else NatToString(n / 10) + [DigitChar(n % 10)]
  }

  /** Reads a string of decimal digits back as a number. */
  function ParseDigits(s: string): nat
    requires forall k | 0 <= k < |s| :: IsDigit(s[k])
    decreases |s|
  {
    if s == [] then 0
    else
      assert IsDigit(s[|s| - 1]);
      10 * ParseDigits(s[..|s| - 1]) + (s[|s| - 1] as int - '0' as int)
  }

  /** `NatToString` loses nothing: parsing its output gives the number back. */
  lemma {:induction false} ParseNatToString(n: nat)
    ensures ParseDigits(NatToString(n)) == n
    decreases n
  {
    var r := NatToString(n);
    if n >= 10 {
      ParseNatToString(n / 10);
      assert r[..|r| - 1] == NatToString(n / 10);
    }
  }

  /** Distinct numbers render differently. */
  lemma NatToStringInjective(m: nat, n: nat)
    requires NatToString(m) == NatToString(n)
    ensures m == n
  {
    ParseNatToString(m);
    ParseNatToString(n);
  }

  /** Strict lexicographic order on code points (SQLite's BINARY collation on UTF-8 text). */
  predicate TextLess(a: string, b: string)
    decreases |a|
  {
    if a == [] then b != []
    else if b == [] then false
    else if a[0] != b[0] then a[0] < b[0]
    else TextLess(a[1..], b[1..])
  }

  predicate TextLessEq(a: string, b: string) {
    a == b || TextLess(a, b)
  }

  /** The collation is a strict total order: exactly one of a < b, a == b, b < a. */
  lemma {:induction false} TextLessTrichotomy(a: string, b: string)
    ensures a == b || TextLess(a, b) || TextLess(b, a)
    ensures !(TextLess(a, b) && TextLess(b, a))
    decreases |a|
  {
    if a != [] && b != [] && a[0] == b[0] {
      TextLessTrichotomy(a[1..], b[1..]);
      if a[1..] == b[1..] {
        assert a == [a[0]] + a[1..] && b == [b[0]] + b[1..];
      }
    }
  }

  lemma {:induction false} TextLessIrreflexive(a: string)
    ensures !TextLess(a, a)
    decreases |a|
  {
    if a != [] {
      TextLessIrreflexive(a[1..]);
    }
  }

  /** Number of occurrences of a character. */
  function CountChar(s: string, c: char): (n: nat)
    ensures n <= |s|
    decreases |s|
  {
    if s == [] then 0 else (if s[0] == c then 1 else 0) + CountChar(s[1..], c)
  }

  lemma {:induction false} CountCharConcat(a: string, b: string, c: char)
    ensures CountChar(a + b, c) == CountChar(a, c) + CountChar(b, c)
    decreases |a|
  {
    if a != [] {
      assert (a + b)[0] == a[0] && (a + b)[1..] == a[1..] + b;
      CountCharConcat(a[1..], b, c);
      assert CountChar(a + b, c) == (if a[0] == c then 1 else 0) + CountChar(a[1..] + b, c);
    } else {
      assert a + b == b;
    }
  }

  lemma {:induction false} CountCharAbsent(s: string, c: char)
    requires forall k | 0 <= k < |s| :: s[k] != c
    ensures CountChar(s, c) == 0
    decreases |s|
  {
    if s != [] {
      CountCharAbsent(s[1..], c);
    }
  }

  /** The pieces, one after another (the text an f-string builds from its parts). */
  function Join(parts: seq<string>): string {
    if parts == [] then "" else parts[0] + Join(parts[1..])
  }

  lemma ConcatAssoc(a: string, b: string, c: string)
    ensures a + (b + c) == (a + b) + c
  {
  }

  lemma JoinFour(p0: string, p1: string, p2: string, p3: string)
    ensures Join([p0, p1, p2, p3]) == p0 + p1 + p2 + p3
  {
    assert [p3][1..] == [];
    assert Join([p3]) == p3 by {
      assert p3 + "" == p3;
    }
    assert [p2, p3][1..] == [p3];
    assert Join([p2, p3]) == p2 + p3;
    assert [p1, p2, p3][1..] == [p2, p3];
    assert Join([p1, p2, p3]) == p1 + (p2 + p3);
    assert [p0, p1, p2, p3][1..] == [p1, p2, p3];
    assert Join([p0, p1, p2, p3]) == p0 + (p1 + (p2 + p3));
    ConcatAssoc(p0 + p1, p2, p3);
    ConcatAssoc(p0, p1, p2 + p3);
  }

  lemma JoinSix(p0: string, p1: string, p2: string, p3: string, p4: string, p5: string)
    ensures Join([p0, p1, p2, p3, p4, p5]) == p0 + p1 + p2 + p3 + p4 + p5
  {
    assert [p5][1..] == [];
    assert Join([p5]) == p5 by {
      assert p5 + "" == p5;
    }
    assert [p4, p5][1..] == [p5];
    assert Join([p4, p5]) == p4 + p5;
    assert [p3, p4, p5][1..] == [p4, p5];
    assert Join([p3, p4, p5]) == p3 + (p4 + p5);
    assert [p2, p3, p4, p5][1..] == [p3, p4, p5];
    assert Join([p2, p3, p4, p5]) == p2 + (p3 + (p4 + p5));
    assert [p1, p2, p3, p4, p5][1..] == [p2, p3, p4, p5];
    assert Join([p1, p2, p3, p4, p5]) == p1 + (p2 + (p3 + (p4 + p5)));
    assert [p0, p1, p2, p3, p4, p5][1..] == [p1, p2, p3, p4, p5];
    assert Join([p0, p1, p2, p3, p4, p5]) == p0 + (p1 + (p2 + (p3 + (p4 + p5))));
    ConcatAssoc(p0 + p1 + p2 + p3, p4, p5);
    ConcatAssoc(p0 + p1 + p2, p3, p4 + p5);
    ConcatAssoc(p0 + p1, p2, p3 + (p4 + p5));
    ConcatAssoc(p0, p1, p2 + (p3 + (p4 + p5)));
  }
}
