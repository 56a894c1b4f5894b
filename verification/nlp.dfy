/**
 * The natural-language task parser of the core package: the duration
 * annotation `(<digits><spaces><unit>)` and the title left once it and the
 * date phrase are cut out.
 *
 * The regular expression `/\((\d+)\s*(m|min|minutes|h|hr|hours)\)/i` is
 * modelled by a deterministic matcher, `MatchAt`, proved to accept exactly
 * the strings the expression describes (`MatchAtSound`, `MatchAtComplete`);
 * `String.prototype.match` returns the leftmost match, `FindFrom`.
 */
module Nlp {
  import opened Common
  import Decimal
  import Text

  const DefaultDuration: nat := 15
  const MinutesPerHour: nat := 60
  const UntitledTask: string := "Untitled Task"

  /** The unit alternatives of the expression, in their written order. */
  const Units: seq<string> := ["m", "min", "minutes", "h", "hr", "hours"]

  /**
   * Case folding of the `i` flag without the `u` flag: only the ASCII
   * letters of the units have a case partner (a non-ASCII character never
   * folds onto an ASCII one).
   */
  function Lower(c: char): (l: char)
    ensures 'A' <= c <= 'Z' ==> 'a' <= l <= 'z' && l as int == c as int + 32
    ensures !('A' <= c <= 'Z') ==> l == c
  {
    if 'A' <= c <= 'Z' then (c as int + 32) as char else c
  }

  function Fold(s: string): (r: string)
    ensures |r| == |s| && forall t :: 0 <= t < |s| ==> r[t] == Lower(s[t])
  {
    if |s| == 0 then [] else [Lower(s[0])] + Fold(s[1..])
  }

  predicate IsUnit(u: string)
  {
    Fold(u) in Units
  }

  /** `u` (in some case) followed by `)` stands at position `j` of `s`. */
  predicate UnitAt(s: string, j: nat, u: string)
  {
    && j + |u| < |s|
    && (forall t :: 0 <= t < |u| ==> Lower(s[j + t]) == u[t])
    && s[j + |u|] == ')'
  }

  /** The first alternative of `units` that matches at `j`, as written in `Units`. */
  function FirstUnit(s: string, j: nat, units: seq<string>): (r: Option<string>)
    ensures r.Some? ==> j + |r.value| < |s|
  {
    if |units| == 0 then None
    else if UnitAt(s, j, units[0]) then Some(units[0])
    else FirstUnit(s, j, units[1..])
  }

  /** `FirstUnit` picks one of the alternatives it is given, and only fails when none fits. */
  lemma {:induction false} FirstUnitOf(s: string, j: nat, units: seq<string>)
    ensures FirstUnit(s, j, units).Some? ==>
      FirstUnit(s, j, units).value in units && UnitAt(s, j, FirstUnit(s, j, units).value)
    ensures FirstUnit(s, j, units).None? ==> forall u :: u in units ==> !UnitAt(s, j, u)
  {
    if |units| > 0 && !UnitAt(s, j, units[0]) {
      FirstUnitOf(s, j, units[1..]);
    }
  }

  /** No unit contains a closing parenthesis. */
  lemma UnitsAreLetters(u: string, t: int)
    requires u in Units && 0 <= t < |u|
    ensures u[t] != ')'
  {
  }

  /** At a given position at most one alternative can be followed by `)`. */
  lemma UnitAtUnique(s: string, j: nat, u1: string, u2: string)
    requires u1 in Units && u2 in Units
    requires UnitAt(s, j, u1) && UnitAt(s, j, u2)
    ensures u1 == u2
  {
    if |u1| < |u2| {
      assert u2[|u1|] == Lower(s[j + |u1|]) == ')';
      UnitsAreLetters(u2, |u1|);
    } else if |u2| < |u1| {
      assert u1[|u2|] == Lower(s[j + |u2|]) == ')';
      UnitsAreLetters(u1, |u2|);
    }
  }

  /**
   * One match of the expression: `(`, the digit group, the optional
   * whitespace, the unit group as written in the input, `)`.
   */
  datatype Match = Match(start: nat, digits: string, space: string, unit: string)
  {
    function Text(): string
    {
      "(" + digits + space + unit + ")"
    }

    function End(): nat
    {
      start + |Text()|
    }
  }

  /** The strings the expression describes, split into its groups. */
  predicate WellFormed(m: Match)
  {
    && |m.digits| > 0 && Decimal.AllDigits(m.digits)
    && Text.Blank(m.space)
    && IsUnit(m.unit)
  }

  /** The length of the run of digits of `s` that starts at position `i`. */
  function DigitsFrom(s: string, i: nat): (n: nat)
    requires i <= |s|
    ensures i + n <= |s|
    decreases |s| - i
  {
    if i < |s| && Decimal.IsDigit(s[i]) then 1 + DigitsFrom(s, i + 1) else 0
  }

  /** The run is maximal: digits up to its end, and no digit right after it. */
  lemma {:induction false} DigitsFromRun(s: string, i: nat)
    requires i <= |s|
    ensures var n := DigitsFrom(s, i);
      && (forall t :: i <= t < i + n ==> Decimal.IsDigit(s[t]))
      && (i + n < |s| ==> !Decimal.IsDigit(s[i + n]))
    decreases |s| - i
  {
    if i < |s| && Decimal.IsDigit(s[i]) {
      DigitsFromRun(s, i + 1);
    }
  }

  /** The length of the run of whitespace of `s` that starts at position `i`. */
  function SpacesFrom(s: string, i: nat): (n: nat)
    requires i <= |s|
    ensures i + n <= |s|
    decreases |s| - i
  {
    if i < |s| && Text.IsWhitespace(s[i]) then 1 + SpacesFrom(s, i + 1) else 0
  }

  /** The run is maximal: whitespace up to its end, and none right after it. */
  lemma {:induction false} SpacesFromRun(s: string, i: nat)
    requires i <= |s|
    ensures var n := SpacesFrom(s, i);
      && (forall t :: i <= t < i + n ==> Text.IsWhitespace(s[t]))
      && (i + n < |s| ==> !Text.IsWhitespace(s[i + n]))
    decreases |s| - i
  {
    if i < |s| && Text.IsWhitespace(s[i]) {
      SpacesFromRun(s, i + 1);
    }
  }

  /**
   * The expression anchored at position `i`. `\d+` and `\s*` are greedy,
   * and giving characters back could not help: what follows each group can
   * be neither a digit nor whitespace.
   */
  function MatchAt(s: string, i: nat): (r: Option<Match>)
    ensures r.Some? ==> r.value.start == i
  {
    if i < |s| && s[i] == '(' then
      var d := DigitsFrom(s, i + 1);
      if d == 0 then None
      else
        var a := i + 1 + d;
        var j := a + SpacesFrom(s, a);
        var unit := FirstUnit(s, j, Units);
        if unit.None? then None
        else Some(Match(i, s[i + 1..a], s[a..j], s[j..j + |unit.value|]))
    else None
  }

  /** Groups found by the greedy runs and an alternative form a well-formed match. */
  lemma GroupsWellFormed(s: string, i: nat, a: nat, j: nat, u: string)
    requires i + 1 < a <= j < |s|
    requires forall t :: i + 1 <= t < a ==> Decimal.IsDigit(s[t])
    requires forall t :: a <= t < j ==> Text.IsWhitespace(s[t])
    requires u in Units && UnitAt(s, j, u)
    ensures WellFormed(Match(i, s[i + 1..a], s[a..j], s[j..j + |u|]))
  {
    DigitsSlice(s, i + 1, a);
    BlankSlice(s, a, j);
    FoldSlice(s, j, u);
  }

  /** Between `(` and `)` the groups, read off in order, spell the matched text. */
  lemma GroupsText(s: string, i: nat, a: nat, j: nat, n: nat)
    requires i + 1 < a <= j && j + n < |s| && s[i] == '(' && s[j + n] == ')'
    ensures Text.OccursAt(s, Match(i, s[i + 1..a], s[a..j], s[j..j + n]).Text(), i)
  {
    Spell(s, i, a, j, j + n);
  }

  lemma Spell(s: string, i: nat, a: nat, j: nat, e: nat)
    requires i < a <= j <= e < |s| && s[i] == '(' && s[e] == ')'
    ensures s[i..e + 1] == "(" + s[i + 1..a] + s[a..j] + s[j..e] + ")"
  {
    assert s[i..i + 1] == "(" && s[e..e + 1] == ")";
    Cut(s, i, i + 1, a);
    Cut(s, i, a, j);
    Cut(s, i, j, e);
    Cut(s, i, e, e + 1);
  }

  lemma Cut(s: string, x: nat, y: nat, z: nat)
    requires x <= y <= z <= |s|
    ensures s[x..z] == s[x..y] + s[y..z]
  {
  }

  lemma DigitsSlice(s: string, x: nat, y: nat)
    requires x <= y <= |s| && forall t :: x <= t < y ==> Decimal.IsDigit(s[t])
    ensures Decimal.AllDigits(s[x..y])
  {
    forall t | 0 <= t < y - x ensures Decimal.IsDigit(s[x..y][t]) {
      assert s[x..y][t] == s[x + t];
    }
  }

  lemma BlankSlice(s: string, x: nat, y: nat)
    requires x <= y <= |s| && forall t :: x <= t < y ==> Text.IsWhitespace(s[t])
    ensures Text.Blank(s[x..y])
  {
    forall t | 0 <= t < y - x ensures Text.IsWhitespace(s[x..y][t]) {
      assert s[x..y][t] == s[x + t];
    }
  }

  lemma FoldSlice(s: string, j: nat, u: string)
    requires UnitAt(s, j, u)
    ensures Fold(s[j..j + |u|]) == u
  {
    var unit := s[j..j + |u|];
    forall t | 0 <= t < |u| ensures Fold(unit)[t] == u[t] {
      assert unit[t] == s[j + t];
    }
  }

  lemma {:induction false} DigitsFromIs(s: string, i: nat, n: nat)
    requires i + n <= |s| && forall t :: i <= t < i + n ==> Decimal.IsDigit(s[t])
    requires i + n < |s| ==> !Decimal.IsDigit(s[i + n])
    ensures DigitsFrom(s, i) == n
    decreases n
  {
    if n > 0 {
      DigitsFromIs(s, i + 1, n - 1);
    }
  }

  lemma {:induction false} SpacesFromIs(s: string, i: nat, n: nat)
    requires i + n <= |s| && forall t :: i <= t < i + n ==> Text.IsWhitespace(s[t])
    requires i + n < |s| ==> !Text.IsWhitespace(s[i + n])
    ensures SpacesFrom(s, i) == n
    decreases n
  {
    if n > 0 {
      SpacesFromIs(s, i + 1, n - 1);
    }
  }

  /**
   * Completeness: wherever the text of a well-formed match stands, the
   * matcher finds exactly that match.
   */
  lemma MatchAtComplete(s: string, m: Match)
    requires WellFormed(m) && Text.OccursAt(s, m.Text(), m.start)
    ensures MatchAt(s, m.start) == Some(m)
  {
    var a := m.start + 1 + |m.digits|;
    var j := a + |m.space|;
    Groups(s, m);
    CompleteAt(s, m.start, a, j, j + |m.unit|);
  }

  /**
   * `(`, a digit run, a blank run, a unit and `)` standing in `s` from `i`
   * are what the matcher finds at `i`.
   */
  lemma CompleteAt(s: string, i: nat, a: nat, j: nat, e: nat)
    requires i + 1 < a <= j < e < |s| && s[i] == '(' && s[e] == ')'
    requires Decimal.AllDigits(s[i + 1..a]) && Text.Blank(s[a..j]) && IsUnit(s[j..e])
    ensures MatchAt(s, i) == Some(Match(i, s[i + 1..a], s[a..j], s[j..e]))
  {
    RunsAt(s, i, a, j, e);
    Assembled(s, i, a, j, e);
  }

  /** The greedy runs from `i` end at `a` and `j`, and the alternative is the folded unit. */
  lemma RunsAt(s: string, i: nat, a: nat, j: nat, e: nat)
    requires i + 1 < a <= j < e < |s| && s[e] == ')'
    requires Decimal.AllDigits(s[i + 1..a]) && Text.Blank(s[a..j]) && IsUnit(s[j..e])
    ensures DigitsFrom(s, i + 1) == a - i - 1 && SpacesFrom(s, a) == j - a
    ensures FirstUnit(s, j, Units) == Some(Fold(s[j..e]))
  {
    var u := s[j..e];
    DigitsAt(s, i + 1, s[i + 1..a]);
    BlankAt(s, a, s[a..j]);
    UnitInPlace(s, j, e);
    AfterDigits(s, a, j, u);
    Runs(s, i, a, j, Fold(u));
  }

  /** A unit written in `s` and closed by `)` is its folded alternative in place. */
  lemma UnitInPlace(s: string, j: nat, e: nat)
    requires j < e < |s| && s[e] == ')' && IsUnit(s[j..e])
    ensures var u := s[j..e];
      |u| > 0 && s[j] == u[0] && !Decimal.IsDigit(u[0]) && !Text.IsWhitespace(s[j])
      && UnitAt(s, j, Fold(u))
  {
    var u := s[j..e];
    UnitStartsWithLetter(u);
    At(s, j, u);
    assert s[j + 0] == u[0];
    UnitAtSlice(s, j, u);
  }

  /** What follows the digit group is whitespace or the unit, never a digit. */
  lemma AfterDigits(s: string, a: nat, j: nat, unit: string)
    requires a <= j < |s| && |unit| > 0 && s[j] == unit[0] && !Decimal.IsDigit(unit[0])
    requires forall t :: a <= t < j ==> Text.IsWhitespace(s[t])
    ensures !Decimal.IsDigit(s[a])
  {
    if a < j {
      WhitespaceIsNotDigit(s[a]);
    }
  }

  /** The unit group as written, followed by `)`, is its folded alternative in place. */
  lemma UnitAtSlice(s: string, j: nat, unit: string)
    requires j + |unit| < |s| && s[j + |unit|] == ')'
    requires forall t :: 0 <= t < |unit| ==> s[j + t] == unit[t]
    ensures UnitAt(s, j, Fold(unit))
  {
    var f := Fold(unit);
    forall t | 0 <= t < |f| ensures Lower(s[j + t]) == f[t] {
    }
  }

  /** Where `u` stands in `s` at `x`, position by position. */
  lemma At(s: string, x: nat, u: string)
    requires x + |u| <= |s| && s[x..x + |u|] == u
    ensures forall t :: 0 <= t < |u| ==> s[x + t] == u[t]
  {
    forall t | 0 <= t < |u| ensures s[x + t] == u[t] {
      assert s[x + t] == s[x..x + |u|][t];
    }
  }

  /** Given the runs and the alternative, the matcher builds its match from the slices. */
  lemma Assembled(s: string, i: nat, a: nat, j: nat, e: nat)
    requires i + 1 < a <= j <= e <= |s| && i < |s| && s[i] == '('
    requires DigitsFrom(s, i + 1) == a - i - 1 && SpacesFrom(s, a) == j - a
    requires FirstUnit(s, j, Units).Some? && j + |FirstUnit(s, j, Units).value| == e
    ensures MatchAt(s, i) == Some(Match(i, s[i + 1..a], s[a..j], s[j..e]))
  {
  }

  lemma DigitsAt(s: string, i: nat, digits: string)
    requires i + |digits| <= |s| && s[i..i + |digits|] == digits && Decimal.AllDigits(digits)
    ensures forall t :: i <= t < i + |digits| ==> Decimal.IsDigit(s[t])
  {
    forall t | i <= t < i + |digits| ensures Decimal.IsDigit(s[t]) {
      assert s[t] == digits[t - i];
    }
  }

  lemma BlankAt(s: string, i: nat, space: string)
    requires i + |space| <= |s| && s[i..i + |space|] == space && Text.Blank(space)
    ensures forall t :: i <= t < i + |space| ==> Text.IsWhitespace(s[t])
  {
    forall t | i <= t < i + |space| ensures Text.IsWhitespace(s[t]) {
      assert s[t] == space[t - i];
    }
  }

  /** Position by position, the greedy runs and the alternative come out as given. */
  lemma Runs(s: string, i: nat, a: nat, j: nat, u: string)
    requires i + 1 < a <= j < |s|
    requires forall t :: i + 1 <= t < a ==> Decimal.IsDigit(s[t])
    requires forall t :: a <= t < j ==> Text.IsWhitespace(s[t])
    requires !Decimal.IsDigit(s[a]) && !Text.IsWhitespace(s[j])
    requires u in Units && UnitAt(s, j, u)
    ensures DigitsFrom(s, i + 1) == a - i - 1 && SpacesFrom(s, a) == j - a
    ensures FirstUnit(s, j, Units) == Some(u)
  {
    DigitsFromIs(s, i + 1, a - i - 1);
    SpacesFromIs(s, a, j - a);
    FirstUnitIs(s, j, u, Units);
  }

  /** Every unit starts with `m` or `h`, in either case. */
  lemma UnitStartsWithLetter(u: string)
    requires IsUnit(u)
    ensures |u| > 0 && !Decimal.IsDigit(u[0]) && !Text.IsWhitespace(u[0])
  {
    var f := Fold(u);
    assert f[0] == 'm' || f[0] == 'h';
    assert f[0] == Lower(u[0]);
  }

  lemma WhitespaceIsNotDigit(c: char)
    requires Text.IsWhitespace(c)
    ensures !Decimal.IsDigit(c)
  {
  }

  /** Where the text of `m` stands, each group of `m` can be read off `s`. */
  lemma Groups(s: string, m: Match)
    requires Text.OccursAt(s, m.Text(), m.start) && |m.unit| > 0
    ensures var i, a := m.start, m.start + 1 + |m.digits|;
      var j := a + |m.space|;
      && j + |m.unit| < |s|
      && s[i] == '(' && s[j + |m.unit|] == ')'
      && s[i + 1..a] == m.digits && s[a..j] == m.space && s[j..j + |m.unit|] == m.unit
  {
    var i, a := m.start, m.start + 1 + |m.digits|;
    var j := a + |m.space|;
    var e := j + |m.unit|;
    Pieces(s, i, a, j, e);
    var p1, p2, p3, p4 := [s[i]], s[i + 1..a], s[a..j], s[j..e];
    CatEq(p1 + p2 + p3 + p4, [s[e]], "(" + m.digits + m.space + m.unit, ")");
    CatEq(p1 + p2 + p3, p4, "(" + m.digits + m.space, m.unit);
    CatEq(p1 + p2, p3, "(" + m.digits, m.space);
    CatEq(p1, p2, "(", m.digits);
  }

  /** `s` from `i` to `e`, inclusive, cut at `a` and `j`. */
  lemma Pieces(s: string, i: nat, a: nat, j: nat, e: nat)
    requires i < a <= j <= e < |s|
    ensures s[i..e + 1] == [s[i]] + s[i + 1..a] + s[a..j] + s[j..e] + [s[e]]
  {
    assert s[i..i + 1] == [s[i]] && s[e..e + 1] == [s[e]];
    Cut(s, i, i + 1, a);
    Cut(s, i, a, j);
    Cut(s, i, j, e);
    Cut(s, i, e, e + 1);
  }

  /** Two concatenations that agree and whose first parts have one length agree part by part. */
  lemma CatEq<T>(x: seq<T>, y: seq<T>, z: seq<T>, w: seq<T>)
    requires x + y == z + w && |x| == |z|
    ensures x == z && y == w
  {
    assert x == (x + y)[..|x|] && z == (z + w)[..|z|];
    assert y == (x + y)[|x|..] && w == (z + w)[|z|..];
  }

  /** The alternative that fits is the one `FirstUnit` picks. */
  lemma {:induction false} FirstUnitIs(s: string, j: nat, u: string, units: seq<string>)
    requires u in units && UnitAt(s, j, u)
    requires forall v :: v in units ==> v in Units
    ensures FirstUnit(s, j, units) == Some(u)
  {
    if UnitAt(s, j, units[0]) {
      UnitAtUnique(s, j, units[0], u);
    } else {
      FirstUnitIs(s, j, u, units[1..]);
    }
  }

  /**
   * Soundness: what the matcher finds is a well-formed match, and its text
   * stands in `s` where it was found.
   */
  lemma MatchAtSound(s: string, i: nat)
    requires MatchAt(s, i).Some?
    ensures var m := MatchAt(s, i).value;
      m.start == i && WellFormed(m) && Text.OccursAt(s, m.Text(), i)
  {
    var a := i + 1 + DigitsFrom(s, i + 1);
    var j := a + SpacesFrom(s, a);
    var u := FirstUnit(s, j, Units).value;
    FoundGroups(s, i, a, j, u);
    assert MatchAt(s, i) == Some(Match(i, s[i + 1..a], s[a..j], s[j..j + |u|]));
  }

  /** The runs and the alternative the matcher finds make a well-formed match in place. */
  lemma FoundGroups(s: string, i: nat, a: nat, j: nat, u: string)
    requires i < |s| && s[i] == '(' && DigitsFrom(s, i + 1) > 0
    requires a == i + 1 + DigitsFrom(s, i + 1) && j == a + SpacesFrom(s, a)
    requires FirstUnit(s, j, Units) == Some(u)
    ensures var m := Match(i, s[i + 1..a], s[a..j], s[j..j + |u|]);
      WellFormed(m) && Text.OccursAt(s, m.Text(), i)
  {
    FoundWellFormed(s, i, a, j, u);
    UnitCloses(s, j, u);
    GroupsText(s, i, a, j, |u|);
  }

  /** The alternative found is followed by the closing parenthesis. */
  lemma UnitCloses(s: string, j: nat, u: string)
    requires FirstUnit(s, j, Units) == Some(u)
    ensures j + |u| < |s| && s[j + |u|] == ')'
  {
    FirstUnitOf(s, j, Units);
  }

  lemma FoundWellFormed(s: string, i: nat, a: nat, j: nat, u: string)
    requires i < |s| && DigitsFrom(s, i + 1) > 0
    requires a == i + 1 + DigitsFrom(s, i + 1) && j == a + SpacesFrom(s, a)
    requires FirstUnit(s, j, Units) == Some(u)
    ensures WellFormed(Match(i, s[i + 1..a], s[a..j], s[j..j + |u|]))
  {
    DigitsFromRun(s, i + 1);
    SpacesFromRun(s, a);
    FirstUnitOf(s, j, Units);
    GroupsWellFormed(s, i, a, j, u);
  }

  /** `input.match(regex)`: the leftmost match at or after position `i`. */
  function FindFrom(s: string, i: nat): (r: Option<Match>)
    ensures r.Some? ==> i <= r.value.start && MatchAt(s, r.value.start) == r
    ensures r.Some? ==> forall k :: i <= k < r.value.start ==> MatchAt(s, k).None?
    ensures r.None? ==> forall k :: i <= k ==> MatchAt(s, k).None?
    decreases |s| - i
  {
    if i >= |s| then None
    else if MatchAt(s, i).Some? then MatchAt(s, i)
    else FindFrom(s, i + 1)
  }

  /**
   * `input.replace(match[0], '')` removes the first OCCURRENCE of the
   * matched text, which is the match itself: an earlier occurrence would
   * have been an earlier match.
   */
  lemma FirstOccurrenceIsMatch(s: string)
    requires FindFrom(s, 0).Some?
    ensures var m := FindFrom(s, 0).value;
      Text.IndexOf(s, m.Text()) == Some(m.start)
      && Text.RemoveFirst(s, m.Text()) == s[..m.start] + s[m.End()..]
  {
    var m := FindFrom(s, 0).value;
    MatchAtSound(s, m.start);
    var k := Text.IndexOf(s, m.Text());
    assert k.Some? && k.value <= m.start;
    if k.value < m.start {
      MatchAtComplete(s, m.(start := k.value));
    }
  }

  /** A match starts with `(`: where there is none, nothing matches. */
  lemma NoParenthesisNoMatch(s: string, i: nat)
    requires forall k :: 0 <= k < |s| ==> s[k] != '('
    ensures FindFrom(s, i).None?
    decreases |s| - i
  {
    if i < |s| {
      NoParenthesisNoMatch(s, i + 1);
    }
  }

  /** The duration the unit stands for: `h`, `hr` and `hours` are hours. */
  predicate IsHourUnit(unit: string)
  {
    |unit| > 0 && Lower(unit[0]) == 'h'
  }

  /**
   * `parseInt(match[1], 10)`, times sixty when `match[2].toLowerCase()`
   * starts with `h`. The digits of a match carry no sign, so the value is
   * never negative.
   */
  function Minutes(m: Match): (minutes: nat)
    ensures WellFormed(m) && !IsHourUnit(m.unit) ==> minutes == Decimal.Value(m.digits)
    ensures WellFormed(m) && IsHourUnit(m.unit) ==> minutes == Decimal.Value(m.digits) * MinutesPerHour
  {
    var value := Max(Decimal.ParseInt(m.digits).GetOr(0), 0);
    var unit := Fold(m.unit);
    if |unit| > 0 && unit[0] == 'h' then value * MinutesPerHour else value
  }

  datatype Duration = Duration(title: string, minutes: nat)

  /**
   * `parseDuration(input)`: with an annotation, its minutes and the input
   * without it, trimmed and with whitespace runs collapsed; without one,
   * fifteen minutes and the trimmed input.
   */
  function ParseDuration(input: string): (r: Duration)
    ensures Text.Trimmed(r.title)
    ensures FindFrom(input, 0).None? ==> r == Duration(Text.Trim(input), DefaultDuration)
    ensures FindFrom(input, 0).Some? ==>
      var m := FindFrom(input, 0).value;
      && r.minutes == Minutes(m)
      && r.title == Text.Tidy(input[..m.start] + input[m.End()..])
  {
    match FindFrom(input, 0)
    case None => Duration(Text.Trim(input), DefaultDuration)
    case Some(m) =>
      FirstOccurrenceIsMatch(input);
      Duration(Text.Tidy(Text.RemoveFirst(input, m.Text())), Minutes(m))
  }

  /**
   * The annotation is found wherever it stands after a parenthesis-free
   * prefix, and both sides of it are kept in the title.
   */
  lemma AnnotationAfterPlainText(prefix: string, m: Match, suffix: string)
    requires WellFormed(m) && m.start == |prefix|
    requires forall k :: 0 <= k < |prefix| ==> prefix[k] != '('
    ensures var input := prefix + m.Text() + suffix;
      ParseDuration(input) == Duration(Text.Tidy(prefix + suffix), Minutes(m))
  {
    Embedded(prefix, m, suffix);
    Middle(prefix, m.Text(), suffix);
  }

  /** The search finds an annotation that follows a parenthesis-free prefix. */
  lemma Embedded(prefix: string, m: Match, suffix: string)
    requires WellFormed(m) && m.start == |prefix|
    requires forall k :: 0 <= k < |prefix| ==> prefix[k] != '('
    ensures FindFrom(prefix + m.Text() + suffix, 0) == Some(m)
  {
    var input := prefix + m.Text() + suffix;
    Middle(prefix, m.Text(), suffix);
    PlainBefore(input, prefix);
    MatchAtComplete(input, m);
    FoundAfterPlain(input, 0, m);
  }

  /** A prefix of `s` without `(` leaves the same positions of `s` without `(`. */
  lemma PlainBefore(s: string, p: string)
    requires |p| <= |s| && s[..|p|] == p
    requires forall k :: 0 <= k < |p| ==> p[k] != '('
    ensures forall k :: 0 <= k < |p| ==> s[k] != '('
  {
    forall k | 0 <= k < |p| ensures s[k] != '(' {
      assert s[k] == s[..|p|][k];
    }
  }

  /** `t` stands between `p` and `q`, and cutting it out leaves `p` and `q`. */
  lemma Middle(p: string, t: string, q: string)
    ensures Text.OccursAt(p + t + q, t, |p|)
    ensures (p + t + q)[..|p|] == p && (p + t + q)[|p| + |t|..] == q
  {
    assert (p + t + q)[|p|..|p| + |t|] == t;
  }

  /** Before a match, a stretch without `(` holds none, so the match is the leftmost. */
  lemma {:induction false} FoundAfterPlain(s: string, i: nat, m: Match)
    requires i <= m.start && MatchAt(s, m.start) == Some(m)
    requires forall k :: 0 <= k < m.start ==> s[k] != '('
    ensures FindFrom(s, i) == Some(m)
    decreases m.start - i
  {
    if i < m.start {
      assert s[i] != '(';
      assert MatchAt(s, i).None?;
      FoundAfterPlain(s, i + 1, m);
      assert FindFrom(s, i) == FindFrom(s, i + 1);
    }
  }

  /** An input without any parenthesis keeps its trimmed text and lasts fifteen minutes. */
  lemma PlainInput(input: string)
    requires forall k :: 0 <= k < |input| ==> input[k] != '('
    ensures ParseDuration(input) == Duration(Text.Trim(input), DefaultDuration)
  {
    NoParenthesisNoMatch(input, 0);
  }

  /** Nothing can be cut out of the empty string. */
  lemma RemoveFromEmpty(pat: string)
    ensures Text.RemoveFirst([], pat) == []
  {
    if Text.IndexOf([], pat).Some? {
      assert |pat| == 0;
    }
  }

  /** One result of the natural-language date parser: its matched text and the ISO instant. */
  datatype DateHit = DateHit(text: string, isoDue: string)

  datatype ParsedTask = ParsedTask(title: string, durationMinutes: nat, dueAt: Option<string>, timezone: string)

  /**
   * The title once the text of the last date hit is cut out of it: the
   * leftmost occurrence of that text is removed, the rest keeps its words,
   * and whitespace is tidied.
   */
  function CutDate(base: string, hits: seq<DateHit>): (title: string)
    ensures |hits| == 0 ==> title == base
    ensures |hits| > 0 ==> Text.Tidied(title)
    ensures |hits| > 0 ==>
      var t := hits[|hits| - 1].text;
      var k := Text.IndexOf(base, t);
      && (k.Some? ==> Text.Words(title) == Text.Words(base[..k.value] + base[k.value + |t|..]))
      && (k.None? ==> Text.Words(title) == Text.Words(base))
    ensures |base| == 0 ==> |title| == 0
  {
    if |hits| > 0 then
      RemoveFromEmpty(hits[|hits| - 1].text);
      Text.Tidy(Text.RemoveFirst(base, hits[|hits| - 1].text))
    else base
  }

  /**
   * The guard before the result is built: a blank title is replaced by
   * the trimmed duration-stripped title, or by "Untitled Task".
   */
  function WithFallback(title: string, base: string): (r: string)
    requires Text.Trimmed(title) && Text.Trimmed(base)
    ensures |r| > 0 && Text.Trimmed(r)
    ensures |title| > 0 ==> r == title
    ensures |title| == 0 && |base| > 0 ==> r == base
    ensures |title| == 0 && |base| == 0 ==> r == UntitledTask
  {
    Text.TrimOfTrimmed(title);
    Text.TrimOfTrimmed(base);
    if |title| == 0 || |Text.Trim(title)| == 0 then
      (if |Text.Trim(base)| > 0 then Text.Trim(base) else UntitledTask)
    else title
  }

  /**
   * `parseTaskString(input, userTimezone)`. The date parser, which reads
   * the clock and the zone, is the parameter `dates`: what it finds in the
   * title left by `parseDuration`. The last hit gives the due instant and
   * its text is cut from the title; a title left blank falls back to the
   * duration-stripped title, then to "Untitled Task".
   */
  function ParseTaskString(input: string, timezone: string, dates: string -> seq<DateHit>): (r: ParsedTask)
    ensures |r.title| > 0 && Text.Trimmed(r.title)
    ensures r.durationMinutes == ParseDuration(input).minutes
    ensures r.timezone == timezone
    ensures var hits := dates(ParseDuration(input).title);
      r.dueAt == if |hits| == 0 then None else Some(hits[|hits| - 1].isoDue)
    ensures var base := ParseDuration(input).title;
      |dates(base)| == 0 && |base| > 0 ==> r.title == base
    ensures |ParseDuration(input).title| == 0 ==> r.title == UntitledTask
    ensures var base := ParseDuration(input).title;
      var cut := CutDate(base, dates(base));
      && (|cut| > 0 ==> r.title == cut)
      && (|cut| == 0 && |base| > 0 ==> r.title == base)
  {
    var pd := ParseDuration(input);
    var hits := dates(pd.title);
    var dueAt := if |hits| > 0 then Some(hits[|hits| - 1].isoDue) else None;
    ParsedTask(WithFallback(CutDate(pd.title, hits), pd.title), pd.minutes, dueAt, timezone)
  }

  /** Empty input: fifteen minutes and the fallback title, whatever the date parser says. */
  lemma EmptyInput(timezone: string, dates: string -> seq<DateHit>)
    ensures var r := ParseTaskString([], timezone, dates);
      r.title == UntitledTask && r.durationMinutes == DefaultDuration
  {
    NoParenthesisNoMatch([], 0);
  }

  /** An input that is only an annotation: its minutes and the fallback title. */
  lemma OnlyAnnotation(m: Match, timezone: string, dates: string -> seq<DateHit>)
    requires WellFormed(m) && m.start == 0
    ensures var r := ParseTaskString(m.Text(), timezone, dates);
      r.title == UntitledTask && r.durationMinutes == Minutes(m)
  {
    AnnotationAlone(m);
    var text := m.Text();
    assert ParseTaskString(text, timezone, dates).title == WithFallback(CutDate([], dates([])), []);
  }

  /** An annotation on its own leaves an empty title. */
  lemma AnnotationAlone(m: Match)
    requires WellFormed(m) && m.start == 0
    ensures ParseDuration(m.Text()) == Duration([], Minutes(m))
  {
    var text := m.Text();
    AnnotationAfterPlainText([], m, []);
    assert [] + text + [] == text;
    assert Text.Tidy([] + []) == [];
  }

  /**
   * The "Call mom tomorrow at 10am (30m)" shape: a tidied name, a space,
   * the date text the parser reports last, a space and an annotation. The
   * date text is cut at its leftmost occurrence, which is where it stands
   * when its first character does not occur in the name, and the title is
   * the name.
   */
  lemma DateCutFromTitle(name: string, when: string, m: Match, timezone: string, dates: string -> seq<DateHit>)
    requires Text.Tidied(name) && Text.Tidied(when) && |name| > 0 && |when| > 0
    requires forall k :: 0 <= k < |name| ==> name[k] != '(' && name[k] != when[0]
    requires forall k :: 0 <= k < |when| ==> when[k] != '('
    requires WellFormed(m) && m.start == |name| + |when| + 2
    requires var hits := dates(name + [' '] + when);
      |hits| > 0 && hits[|hits| - 1].text == when
    ensures var hits := dates(name + [' '] + when);
      var r := ParseTaskString(name + [' '] + when + [' '] + m.Text(), timezone, dates);
      && r.title == name
      && r.durationMinutes == Minutes(m)
      && r.dueAt == Some(hits[|hits| - 1].isoDue)
  {
    var base := name + [' '] + when;
    DatedTitle(name, when, m);
    CutAfterName(name, when);
    Text.TidyDropsTrailingSpace(name);
    assert CutDate(base, dates(base)) == name;
  }

  /** The annotation is cut and the dated title is left tidied. */
  lemma DatedTitle(name: string, when: string, m: Match)
    requires Text.Tidied(name) && Text.Tidied(when) && |name| > 0 && |when| > 0
    requires forall k :: 0 <= k < |name| ==> name[k] != '('
    requires forall k :: 0 <= k < |when| ==> when[k] != '('
    requires WellFormed(m) && m.start == |name| + |when| + 2
    ensures ParseDuration(name + [' '] + when + [' '] + m.Text()) == Duration(name + [' '] + when, Minutes(m))
  {
    var base := name + [' '] + when;
    var prefix := base + [' '];
    forall k | 0 <= k < |prefix| ensures prefix[k] != '(' {
      if k < |name| { assert prefix[k] == name[k]; }
      else if |name| < k < |base| { assert prefix[k] == when[k - |name| - 1]; }
    }
    AnnotationAfterPlainText(prefix, m, []);
    assert prefix + m.Text() + [] == name + [' '] + when + [' '] + m.Text();
    assert prefix + [] == prefix;
    Text.TidiedJoin(name, when);
    Text.TidyDropsTrailingSpace(base);
  }

  /** The date text after the name and a space is found right there and cut. */
  lemma CutAfterName(name: string, when: string)
    requires |when| > 0 && !Text.IsWhitespace(when[0])
    requires forall k :: 0 <= k < |name| ==> name[k] != when[0]
    ensures Text.RemoveFirst(name + [' '] + when, when) == name + [' ']
  {
    var base := name + [' '] + when;
    var p := |name| + 1;
    Middle(name + [' '], when, []);
    assert name + [' '] + when + [] == base;
    forall k | 0 <= k < p ensures base[k] != when[0] {
      if k < |name| { assert base[k] == name[k]; }
      else { assert base[k] == ' '; }
    }
    forall k | 0 <= k < p ensures !Text.OccursAt(base, when, k) {
      assert k + |when| <= |base| ==> base[k..k + |when|][0] == base[k];
    }
    assert Text.IndexOf(base, when) == Some(p);
    assert base[..p] == name + [' '] && base[p + |when|..] == [];
  }

  /** The test case itself, with the date parser reporting "tomorrow at 10am" last. */
  lemma CallMomExample(timezone: string, dates: string -> seq<DateHit>)
    requires var hits := dates("Call mom tomorrow at 10am");
      |hits| > 0 && hits[|hits| - 1].text == "tomorrow at 10am"
    ensures var hits := dates("Call mom tomorrow at 10am");
      var r := ParseTaskString("Call mom tomorrow at 10am (30m)", timezone, dates);
      r.title == "Call mom" && r.durationMinutes == 30 && r.dueAt == Some(hits[|hits| - 1].isoDue)
  {
    CallMomWords();
    PhraseJoin("Call", "mom", 't');
    PhraseJoin("tomorrow", "at", '(');
    PhraseJoin("tomorrow at", "10am", '(');
    CallMomGlued();
    ThirtyMinutes();
    DateCutFromTitle("Call mom", "tomorrow at 10am", Match(26, "30", "", "m"), timezone, dates);
  }

  /** `s` holds no whitespace, no `(` and no `avoid`. */
  predicate Bare(s: string, avoid: char)
  {
    forall k :: 0 <= k < |s| ==> !Text.IsWhitespace(s[k]) && s[k] != '(' && s[k] != avoid
  }

  /** A non-empty tidied string without `(` and without `avoid`. */
  predicate Phrase(s: string, avoid: char)
  {
    && |s| > 0 && Text.Tidied(s)
    && forall k :: 0 <= k < |s| ==> s[k] != '(' && s[k] != avoid
  }

  lemma BarePhrase(s: string, avoid: char)
    requires |s| > 0 && Bare(s, avoid)
    ensures Phrase(s, avoid)
  {
  }

  /** Two phrases joined by one space form a phrase. */
  lemma PhraseJoin(a: string, b: string, avoid: char)
    requires Phrase(a, avoid) && Phrase(b, avoid) && avoid != ' '
    ensures Phrase(a + [' '] + b, avoid)
  {
    Text.TidiedJoin(a, b);
    var x := a + [' '] + b;
    forall k | 0 <= k < |x| ensures x[k] != '(' && x[k] != avoid {
      if k < |a| { assert x[k] == a[k]; }
      else if k > |a| { assert x[k] == b[k - |a| - 1]; }
    }
  }

  lemma CallMomWords()
    ensures Phrase("Call", 't') && Phrase("mom", 't')
    ensures Phrase("tomorrow", '(') && Phrase("at", '(') && Phrase("10am", '(')
  {
    var w := "Call";
    forall k | 0 <= k < |w| ensures !Text.IsWhitespace(w[k]) && w[k] != '(' && w[k] != 't' {
      assert w[k] in "Cal";
    }
    BarePhrase(w, 't');
    w := "mom";
    forall k | 0 <= k < |w| ensures !Text.IsWhitespace(w[k]) && w[k] != '(' && w[k] != 't' {
      assert w[k] in "mo";
    }
    BarePhrase(w, 't');
    w := "tomorrow";
    forall k | 0 <= k < |w| ensures !Text.IsWhitespace(w[k]) && w[k] != '(' {
      assert w[k] in "tomrw";
    }
    BarePhrase(w, '(');
    w := "at";
    forall k | 0 <= k < |w| ensures !Text.IsWhitespace(w[k]) && w[k] != '(' {
      assert w[k] in "at";
    }
    BarePhrase(w, '(');
    w := "10am";
    forall k | 0 <= k < |w| ensures !Text.IsWhitespace(w[k]) && w[k] != '(' {
      assert w[k] in "10am";
    }
    BarePhrase(w, '(');
  }

  lemma CallMomGlued()
    ensures "Call" + [' '] + "mom" == "Call mom"
    ensures "tomorrow" + [' '] + "at" == "tomorrow at"
    ensures "tomorrow at" + [' '] + "10am" == "tomorrow at 10am"
    ensures "Call mom" + [' '] + "tomorrow at 10am" == "Call mom tomorrow at 10am"
    ensures "Call mom" + [' '] + "tomorrow at 10am" + [' '] + "(30m)" == "Call mom tomorrow at 10am (30m)"
  {
  }

  /** The annotation "(30m)" at position 26 is well formed and worth thirty minutes. */
  lemma ThirtyMinutes()
    ensures WellFormed(Match(26, "30", "", "m"))
    ensures Minutes(Match(26, "30", "", "m")) == 30
    ensures Match(26, "30", "", "m").Text() == "(30m)"
  {
    MinuteUnit();
    ThirtyDigits();
    ThirtyText();
  }

  lemma ThirtyText()
    ensures Match(26, "30", "", "m").Text() == "(30m)"
  {
    var t := Match(26, "30", "", "m").Text();
    assert |t| == 5;
    assert t[0] == '(' && t[1] == '3' && t[2] == '0' && t[3] == 'm' && t[4] == ')';
  }

  lemma MinuteUnit()
    ensures WellFormed(Match(26, "30", "", "m")) && !IsHourUnit("m")
  {
    assert Fold("m") == "m";
    assert IsUnit("m") && !IsHourUnit("m");
    assert Decimal.AllDigits("30");
  }

  lemma ThirtyDigits()
    ensures Decimal.AllDigits("30") && Decimal.Value("30") == 30
  {
    assert Decimal.AllDigits("30");
  }
}
