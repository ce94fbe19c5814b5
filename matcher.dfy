/**
 * The phrase detector of the message handler: a case-insensitive search for
 *
 *   \b[s$5z]+\s*[uv]+\s*[s$5z]+\s*[h#4]+\s*[i1!l]+\s*(m|nn)+\s*[a@4]+\s*[s$5z]+\s*[a@4]+(\b|$|\s*)
 *
 * `Matches` is the declarative reading (some start at a word boundary from
 * which the nine groups can be read, each followed by optional whitespace);
 * `Search` is a greedy scanner proved equal to it.
 */
module Matcher {

  /** Python's IGNORECASE on ASCII: upper-case letters fold to lower case. */
  function Fold(c: char): (d: char)
    ensures 'A' <= c <= 'Z' ==> d as int == c as int + 32
    ensures !('A' <= c <= 'Z') ==> d == c
  {
    if 'A' <= c <= 'Z' then (c as int + 32) as char else c
  }

  /** `\s` on ASCII: tab, line feed, vertical tab, form feed, carriage return, 0x1C-0x1F and space. */
  predicate IsSpace(c: char) {
    9 <= c as int <= 13 || 28 <= c as int <= 32
  }

  /** `\w` on ASCII: letters, digits and underscore. */
  predicate IsWord(c: char) {
    'a' <= c <= 'z' || 'A' <= c <= 'Z' || '0' <= c <= '9' || c == '_'
  }

  /** `\b` at position p: a word character on exactly one side. */
  predicate Boundary(s: string, p: nat)
    requires p <= |s|
  {
    (p > 0 && IsWord(s[p - 1])) != (p < |s| && IsWord(s[p]))
  }

  /** The letter groups of the phrase; M is `(m|nn)`, the others are character classes. */
  datatype Group = S | U | H | I | M | A

  /** The characters a group can consume, after case folding. */
  predicate InGroup(g: Group, c: char) {
    var f := Fold(c);
    match g
    case S => f == 's' || f == '$' || f == '5' || f == 'z'
    case U => f == 'u' || f == 'v'
    case H => f == 'h' || f == '#' || f == '4'
    case I => f == 'i' || f == '1' || f == '!' || f == 'l'
    case M => f == 'm' || f == 'n'
    case A => f == 'a' || f == '@' || f == '4'
  }

  /** s, u, s, h, i, m, a, s, a. */
  const Pattern: seq<Group> := [S, U, S, H, I, M, A, S, A]

  /** `(m|nn)+`: a non-empty sequence of tokens "m" and "nn". */
  predicate MTokens(t: string)
    decreases |t|
  {
    || (|t| >= 1 && Fold(t[0]) == 'm' && (|t| == 1 || MTokens(t[1..])))
    || (|t| >= 2 && Fold(t[0]) == 'n' && Fold(t[1]) == 'n' && (|t| == 2 || MTokens(t[2..])))
  }

  /** One group read exactly: `[...]+` for a class, `(m|nn)+` for M. */
  predicate Run(g: Group, t: string) {
    if g == M then MTokens(t) else |t| >= 1 && forall k | 0 <= k < |t| :: InGroup(g, t[k])
  }

  predicate AllSpace(t: string) {
    forall k | 0 <= k < |t| :: IsSpace(t[k])
  }

  /**
   * The groups gs can be read from position p, each followed by `\s*`; after
   * the last group this is the trailing `(\b|$|\s*)`, whose `\s*` also
   * matches the empty string.
   */
  predicate PhraseAt(s: string, p: nat, gs: seq<Group>)
    requires p <= |s|
    decreases |gs|
  {
    if gs == [] then true
    else exists j, k | p < j <= k <= |s| :: Run(gs[0], s[p..j]) && AllSpace(s[j..k]) && PhraseAt(s, k, gs[1..])
  }

  /** `pattern.search(content)` finds a match. */
  predicate Matches(s: string) {
    exists p | 0 <= p <= |s| :: Boundary(s, p) && PhraseAt(s, p, Pattern)
  }

  // ----- greedy scanner ----------------------------------------------------

  /** End of the longest run of group characters starting at p. */
  function RunEnd(g: Group, s: string, p: nat): nat
    requires p <= |s|
    decreases |s| - p
  {
    if p < |s| && InGroup(g, s[p]) then RunEnd(g, s, p + 1) else p
  }

  lemma {:induction false} RunEndMaximal(g: Group, s: string, p: nat)
    requires p <= |s|
    ensures p <= RunEnd(g, s, p) <= |s|
    ensures forall k | p <= k < RunEnd(g, s, p) :: InGroup(g, s[k])
    ensures RunEnd(g, s, p) == |s| || !InGroup(g, s[RunEnd(g, s, p)])
    decreases |s| - p
  {
    if p < |s| && InGroup(g, s[p]) {
      RunEndMaximal(g, s, p + 1);
    }
  }

  /** End of the whitespace starting at p. */
  function SpaceEnd(s: string, p: nat): nat
    requires p <= |s|
    decreases |s| - p
  {
    if p < |s| && IsSpace(s[p]) then SpaceEnd(s, p + 1) else p
  }

  lemma {:induction false} SpaceEndMaximal(s: string, p: nat)
    requires p <= |s|
    ensures p <= SpaceEnd(s, p) <= |s|
    ensures forall i | p <= i < SpaceEnd(s, p) :: IsSpace(s[i])
    ensures SpaceEnd(s, p) == |s| || !IsSpace(s[SpaceEnd(s, p)])
    decreases |s| - p
  {
    if p < |s| && IsSpace(s[p]) {
      SpaceEndMaximal(s, p + 1);
    }
  }

  /** The run of group characters from p ends at j exactly when j is where they stop. */
  lemma RunEndIs(g: Group, s: string, p: nat, j: nat)
    requires p <= j <= |s|
    requires forall k | p <= k < j :: InGroup(g, s[k])
    requires j == |s| || !InGroup(g, s[j])
    ensures RunEnd(g, s, p) == j
  {
    RunEndMaximal(g, s, p);
  }

  lemma SpaceEndIs(s: string, p: nat, k: nat)
    requires p <= k <= |s|
    requires forall i | p <= i < k :: IsSpace(s[i])
    requires k == |s| || !IsSpace(s[k])
    ensures SpaceEnd(s, p) == k
  {
    SpaceEndMaximal(s, p);
  }

  /** The longest run found by `RunEnd` is a run of the group: non-empty, and for M a sequence of tokens. */
  function RunFound(g: Group, s: string, p: nat, j: nat): bool
    requires p <= j <= |s|
  {
    if g == M then MTokens(s[p..j]) else p < j
  }

  /**
   * Reads the groups gs[i..] greedily: each group takes its longest run and
   * each separator all the whitespace, and the last group needs one character.
   */
  function Greedy(s: string, p: nat, gs: seq<Group>, i: nat): bool
    requires p <= |s| && i <= |gs|
    decreases |gs| - i
  {
    if i == |gs| then true
    else
      RunEndMaximal(gs[i], s, p);
      var j := RunEnd(gs[i], s, p);
      if i == |gs| - 1 then p < j
      else
        SpaceEndMaximal(s, j);
        RunFound(gs[i], s, p, j) && Greedy(s, SpaceEnd(s, j), gs, i + 1)
  }

  lemma RunFoundIsRun(g: Group, s: string, p: nat)
    requires p <= |s|
    ensures p <= RunEnd(g, s, p) <= |s|
    ensures RunFound(g, s, p, RunEnd(g, s, p)) == Run(g, s[p..RunEnd(g, s, p)])
  {
    RunEndMaximal(g, s, p);
    var j := RunEnd(g, s, p);
    if g != M && p < j {
      forall k | 0 <= k < j - p ensures InGroup(g, s[p..j][k]) {
        assert s[p..j][k] == s[p + k];
      }
    }
  }

  /** Neighbouring groups share no character ('4' is in both H and A, which are never adjacent). */
  predicate Separated(g: Group, h: Group) {
    g != h && !(g == H && h == A) && !(g == A && h == H)
  }

  /** Patterns the greedy reading is exact for: neighbours separated, M not last. */
  predicate Chain(gs: seq<Group>) {
    && (forall i | 0 <= i < |gs| - 1 :: Separated(gs[i], gs[i + 1]))
    && (gs != [] ==> gs[|gs| - 1] != M)
  }

  lemma SeparatedDisjoint(g: Group, h: Group, c: char)
    requires Separated(g, h) && InGroup(g, c)
    ensures !InGroup(h, c)
  {
  }

  lemma SpaceNotInGroup(g: Group, c: char)
    requires IsSpace(c)
    ensures !InGroup(g, c)
  {
  }

  lemma {:induction false} MTokensChars(t: string)
    requires MTokens(t)
    ensures |t| >= 1 && forall k | 0 <= k < |t| :: InGroup(M, t[k])
    decreases |t|
  {
    if |t| >= 1 && Fold(t[0]) == 'm' && (|t| == 1 || MTokens(t[1..])) {
      if |t| > 1 {
        MTokensChars(t[1..]);
        assert forall k | 1 <= k < |t| :: t[k] == t[1..][k - 1];
      }
    } else {
      if |t| > 2 {
        MTokensChars(t[2..]);
        assert forall k | 2 <= k < |t| :: t[k] == t[2..][k - 2];
      }
    }
  }

  lemma RunChars(g: Group, t: string)
    requires Run(g, t)
    ensures |t| >= 1 && forall k | 0 <= k < |t| :: InGroup(g, t[k])
  {
    if g == M {
      MTokensChars(t);
    }
  }

  /** A non-empty phrase read at k starts with a character of its first group. */
  lemma PhraseFirst(s: string, k: nat, gs: seq<Group>)
    requires k <= |s| && gs != [] && PhraseAt(s, k, gs)
    ensures k < |s| && InGroup(gs[0], s[k])
  {
    var j, k' :| k < j <= k' <= |s| && Run(gs[0], s[k..j]) && AllSpace(s[j..k']) && PhraseAt(s, k', gs[1..]);
    RunChars(gs[0], s[k..j]);
    assert s[k..j][0] == s[k];
  }

  lemma ChainRest(gs: seq<Group>)
    requires Chain(gs) && gs != []
    ensures Chain(gs[1..])
    ensures |gs| >= 2 ==> Separated(gs[0], gs[1])
  {
    var rest := gs[1..];
    forall i | 0 <= i < |rest| - 1 ensures Separated(rest[i], rest[i + 1]) {
      assert rest[i] == gs[i + 1] && rest[i + 1] == gs[i + 2];
    }
  }

  /** The last group: some non-empty run exists exactly when the first character fits. */
  lemma GreedyLast(s: string, p: nat, gs: seq<Group>)
    requires p <= |s| && gs != [] && gs[|gs| - 1] != M
    ensures Greedy(s, p, gs, |gs| - 1) == PhraseAt(s, p, gs[|gs| - 1..])
  {
    var g := gs[|gs| - 1];
    assert gs[|gs| - 1..] == [g];
    assert [g][1..] == [];
    RunEndMaximal(g, s, p);
    var j := RunEnd(g, s, p);
    if p < j {
      assert Run(g, s[p..p + 1]) && AllSpace(s[p + 1..p + 1]);
    }
    if PhraseAt(s, p, [g]) {
      var j', k' :| p < j' <= k' <= |s| && Run(g, s[p..j']) && AllSpace(s[j'..k']) && PhraseAt(s, k', []);
      assert s[p..j'][0] == s[p];
    }
  }

  /** A run read by some successful decomposition is the longest run, and its separator all the whitespace. */
  lemma DecompositionIsGreedy(s: string, p: nat, gs: seq<Group>, j': nat, k': nat)
    requires |gs| >= 2 && Separated(gs[0], gs[1])
    requires p < j' <= k' <= |s| && Run(gs[0], s[p..j']) && AllSpace(s[j'..k']) && PhraseAt(s, k', gs[1..])
    ensures j' == RunEnd(gs[0], s, p) && k' == SpaceEnd(s, j')
  {
    var g, h := gs[0], gs[1];
    RunChars(g, s[p..j']);
    assert forall i | p <= i < j' :: InGroup(g, s[i]) by {
      forall i | p <= i < j' ensures InGroup(g, s[i]) {
        assert s[p..j'][i - p] == s[i];
      }
    }
    PhraseFirst(s, k', gs[1..]);
    SeparatedDisjoint(h, g, s[k']);
    if j' < k' {
      assert s[j'..k'][0] == s[j'];
      SpaceNotInGroup(g, s[j']);
    }
    RunEndMaximal(g, s, p);
    assert !InGroup(g, s[j']);
    assert forall i | j' <= i < k' :: IsSpace(s[i]) by {
      forall i | j' <= i < k' ensures IsSpace(s[i]) {
        assert s[j'..k'][i - j'] == s[i];
      }
    }
    SpaceEndMaximal(s, j');
    var k := SpaceEnd(s, j');
    if k > k' {
      assert IsSpace(s[k']);
      SpaceNotInGroup(h, s[k']);
    }
  }

  /** The greedy reading of gs[i..] succeeds exactly when the declarative one does. */
  lemma {:induction false} GreedyIsPhrase(s: string, p: nat, gs: seq<Group>, i: nat)
    requires p <= |s| && i <= |gs| && Chain(gs)
    ensures Greedy(s, p, gs, i) == PhraseAt(s, p, gs[i..])
    decreases |gs| - i
  {
    if i == |gs| - 1 {
      GreedyLast(s, p, gs);
    } else if i < |gs| - 1 {
      var g, rest := gs[i], gs[i + 1..];
      assert gs[i..][0] == g && gs[i..][1..] == rest && gs[i..][1] == gs[i + 1];
      RunFoundIsRun(g, s, p);
      var j := RunEnd(g, s, p);
      SpaceEndMaximal(s, j);
      var k := SpaceEnd(s, j);
      GreedyIsPhrase(s, k, gs, i + 1);
      if Greedy(s, p, gs, i) {
        RunChars(g, s[p..j]);
        assert p < j <= k <= |s| && Run(g, s[p..j]) && AllSpace(s[j..k]) && PhraseAt(s, k, rest);
      }
      if PhraseAt(s, p, gs[i..]) {
        var j', k' :| p < j' <= k' <= |s| && Run(g, s[p..j']) && AllSpace(s[j'..k']) && PhraseAt(s, k', rest);
        DecompositionIsGreedy(s, p, gs[i..], j', k');
      }
    }
  }

  lemma PatternIsChain()
    ensures Chain(Pattern)
  {
    forall i | 0 <= i < |Pattern| - 1 ensures Separated(Pattern[i], Pattern[i + 1]) {
      assert i == 0 || i == 1 || i == 2 || i == 3 || i == 4 || i == 5 || i == 6 || i == 7;
    }
  }

  /** Scans the start positions from p on for a match. */
  function ScanFrom(s: string, p: nat): bool
    requires p <= |s|
    decreases |s| - p
  {
    if Boundary(s, p) && Greedy(s, p, Pattern, 0) then true
    else if p == |s| then false
    else ScanFrom(s, p + 1)
  }

  /** The scan finds a match exactly when some start from p on admits the phrase. */
  lemma {:induction false} ScanFromSound(s: string, p: nat)
    requires p <= |s|
    ensures ScanFrom(s, p) <==> exists q | p <= q <= |s| :: Boundary(s, q) && PhraseAt(s, q, Pattern)
    decreases |s| - p
  {
    PatternIsChain();
    GreedyIsPhrase(s, p, Pattern, 0);
    assert Pattern[0..] == Pattern;
    var here := Boundary(s, p) && PhraseAt(s, p, Pattern);
    if p < |s| {
      ScanFromSound(s, p + 1);
      assert ScanFrom(s, p) == (here || ScanFrom(s, p + 1));
      if !ScanFrom(s, p) {
        forall q | p <= q <= |s| ensures !(Boundary(s, q) && PhraseAt(s, q, Pattern)) {
          if q > p {
            assert p + 1 <= q;
          }
        }
      }
    } else {
      assert ScanFrom(s, p) == here;
    }
  }

  /** `pattern.search(content) is not None`, computed by scanning. */
  function Search(s: string): (r: bool)
    ensures r == Matches(s)
  {
    ScanFromSound(s, 0);
    ScanFrom(s, 0)
  }

  // ----- properties of the phrase --------------------------------------------

  /** The scanner succeeded from a boundary p: the message matches. */
  lemma GreedyMatch(s: string, p: nat)
    requires p <= |s| && Boundary(s, p) && Greedy(s, p, Pattern, 0)
    ensures Matches(s)
  {
    PatternIsChain();
    GreedyIsPhrase(s, p, Pattern, 0);
    assert Pattern[0..] == Pattern;
  }

  /**
   * A character that no part of the phrase can use: not a word character,
   * not whitespace and in no letter group (such as '-' or '.').
   */
  predicate Inert(c: char) {
    && !IsWord(c) && !IsSpace(c)
    && !InGroup(S, c) && !InGroup(U, c) && !InGroup(H, c)
    && !InGroup(I, c) && !InGroup(M, c) && !InGroup(A, c)
  }

  /** Characters the pattern cannot tell apart: equal up to case, or both inert. */
  predicate Alike(c: char, d: char) {
    Fold(c) == Fold(d) || (Inert(c) && Inert(d))
  }

  predicate AlikeText(s: string, t: string) {
    |s| == |t| && forall k | 0 <= k < |s| :: Alike(s[k], t[k])
  }

  lemma AlikeTextSlice(s: string, t: string, i: nat, j: nat)
    requires AlikeText(s, t) && i <= j <= |s|
    ensures AlikeText(s[i..j], t[i..j])
  {
    forall k | 0 <= k < j - i ensures Alike(s[i..j][k], t[i..j][k]) {
      assert s[i..j][k] == s[i + k] && t[i..j][k] == t[i + k];
    }
  }

  lemma {:induction false} MTokensAlike(s: string, t: string)
    requires AlikeText(s, t)
    ensures MTokens(s) == MTokens(t)
    decreases |s|
  {
    if |s| >= 1 {
      assert Alike(s[0], t[0]);
      AlikeTextSlice(s, t, 1, |s|);
      MTokensAlike(s[1..], t[1..]);
    }
    if |s| >= 2 {
      assert Alike(s[1], t[1]);
      AlikeTextSlice(s, t, 2, |s|);
      MTokensAlike(s[2..], t[2..]);
    }
  }

  lemma {:induction false} RunEndAlike(g: Group, s: string, t: string, p: nat)
    requires AlikeText(s, t) && p <= |s|
    ensures RunEnd(g, s, p) == RunEnd(g, t, p)
    decreases |s| - p
  {
    if p < |s| {
      assert Alike(s[p], t[p]);
      RunEndAlike(g, s, t, p + 1);
    }
  }

  lemma {:induction false} SpaceEndAlike(s: string, t: string, p: nat)
    requires AlikeText(s, t) && p <= |s|
    ensures SpaceEnd(s, p) == SpaceEnd(t, p)
    decreases |s| - p
  {
    if p < |s| {
      assert Alike(s[p], t[p]);
      SpaceEndAlike(s, t, p + 1);
    }
  }

  lemma {:induction false} GreedyAlike(s: string, t: string, p: nat, gs: seq<Group>, i: nat)
    requires AlikeText(s, t) && p <= |s| && i <= |gs|
    ensures Greedy(s, p, gs, i) == Greedy(t, p, gs, i)
    decreases |gs| - i
  {
    if i < |gs| {
      RunEndAlike(gs[i], s, t, p);
      RunEndMaximal(gs[i], s, p);
      var j := RunEnd(gs[i], s, p);
      AlikeTextSlice(s, t, p, j);
      MTokensAlike(s[p..j], t[p..j]);
      SpaceEndAlike(s, t, j);
      SpaceEndMaximal(s, j);
      if i < |gs| - 1 {
        GreedyAlike(s, t, SpaceEnd(s, j), gs, i + 1);
      }
    }
  }

  lemma BoundaryAlike(s: string, t: string, p: nat)
    requires AlikeText(s, t) && p <= |s|
    ensures Boundary(s, p) == Boundary(t, p)
  {
    if p > 0 {
      assert Alike(s[p - 1], t[p - 1]);
    }
    if p < |s| {
      assert Alike(s[p], t[p]);
    }
  }

  lemma {:induction false} ScanFromAlike(s: string, t: string, p: nat)
    requires AlikeText(s, t) && p <= |s|
    ensures ScanFrom(s, p) == ScanFrom(t, p)
    decreases |s| - p
  {
    GreedyAlike(s, t, p, Pattern, 0);
    BoundaryAlike(s, t, p);
    if p < |s| {
      ScanFromAlike(s, t, p + 1);
    }
  }

  /** Messages whose characters the pattern cannot tell apart match alike. */
  lemma AlikeMatches(s: string, t: string)
    requires AlikeText(s, t)
    ensures Matches(s) == Matches(t)
  {
    ScanFromAlike(s, t, 0);
    assert Search(s) == ScanFrom(s, 0) && Search(t) == ScanFrom(t, 0);
  }

  /** Matching ignores case (`re.I`): messages that agree up to case match alike. */
  lemma CaseInsensitive(s: string, t: string)
    requires |s| == |t| && forall k | 0 <= k < |s| :: Fold(s[k]) == Fold(t[k])
    ensures Matches(s) == Matches(t)
  {
    assert AlikeText(s, t);
    AlikeMatches(s, t);
  }

  /** Which punctuation stands between the groups does not matter: one inert character is as good as another. */
  lemma InertSwap(x: string, c: char, d: char, y: string)
    requires Inert(c) && Inert(d)
    ensures Matches(x + [c] + y) == Matches(x + [d] + y)
  {
    var s, t := x + [c] + y, x + [d] + y;
    forall k | 0 <= k < |s| ensures Alike(s[k], t[k]) {
      if k < |x| {
        assert s[k] == x[k] == t[k];
      } else if k == |x| {
        assert s[k] == c && t[k] == d;
      } else {
        assert s[k] == y[k - |x| - 1] == t[k];
      }
    }
    AlikeMatches(s, t);
  }

  /** The phrase read inside s is read in the same place inside x + s + y. */
  lemma {:induction false} PhraseInContext(x: string, s: string, y: string, p: nat, gs: seq<Group>)
    requires p <= |s| && PhraseAt(s, p, gs)
    ensures PhraseAt(x + s + y, |x| + p, gs)
    decreases |gs|
  {
    if gs != [] {
      var j, k :| p < j <= k <= |s| && Run(gs[0], s[p..j]) && AllSpace(s[j..k]) && PhraseAt(s, k, gs[1..]);
      var w := x + s + y;
      assert w[|x| + p..|x| + j] == s[p..j];
      assert w[|x| + j..|x| + k] == s[j..k];
      PhraseInContext(x, s, y, k, gs[1..]);
    }
  }

  /** The boundary before a phrase start survives adding text on both sides. */
  lemma BoundaryInContext(x: string, s: string, y: string, p: nat)
    requires p < |s| && Boundary(s, p)
    requires x == [] || !IsWord(x[|x| - 1])
    ensures Boundary(x + s + y, |x| + p)
  {
    var w := x + s + y;
    assert w[|x| + p] == s[p];
    if p > 0 {
      assert w[|x| + p - 1] == s[p - 1];
    } else if x != [] {
      assert w[|x| - 1] == x[|x| - 1];
    }
  }

  /**
   * Matching is a substring search: a matching message still matches with
   * any text after it, and with any text before it that does not end in a
   * word character (the leading `\b` still holds there).
   */
  lemma MatchInContext(x: string, s: string, y: string)
    requires Matches(s)
    requires x == [] || !IsWord(x[|x| - 1])
    ensures Matches(x + s + y)
  {
    var p :| 0 <= p <= |s| && Boundary(s, p) && PhraseAt(s, p, Pattern);
    PhraseFirst(s, p, Pattern);
    PhraseInContext(x, s, y, p, Pattern);
    BoundaryInContext(x, s, y, p);
  }
}
