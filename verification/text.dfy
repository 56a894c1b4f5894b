/**
 * The string operations the parsers rely on: the whitespace class shared by
 * the regular-expression escape `\s` and `String.prototype.trim`,
 * `trim()`, `replace(/\s+/g, ' ')`, `split(c)` and `replace(substring, '')`.
 */
module Text {
  import opened Common

  /** WhiteSpace and LineTerminator code points of ECMAScript. */
  predicate IsWhitespace(c: char)
  {
    || '\U{0009}' <= c <= '\U{000D}'
    || c == '\U{0020}' || c == '\U{00A0}' || c == '\U{1680}'
    || '\U{2000}' <= c <= '\U{200A}'
    || c == '\U{2028}' || c == '\U{2029}' || c == '\U{202F}' || c == '\U{205F}'
    || c == '\U{3000}' || c == '\U{FEFF}'
  }

  /** Neither end of `s` is whitespace. */
  predicate Trimmed(s: string)
  {
    |s| == 0 || (!IsWhitespace(s[0]) && !IsWhitespace(s[|s| - 1]))
  }

  /** No two whitespace characters are adjacent. */
  predicate NoDoubleWhitespace(s: string)
  {
    forall i :: 0 <= i < |s| - 1 ==> !(IsWhitespace(s[i]) && IsWhitespace(s[i + 1]))
  }

  /** The characters of `s` that are not whitespace, in order. */
  function Visible(s: string): (r: string)
    ensures forall i :: 0 <= i < |r| ==> !IsWhitespace(r[i])
  {
    if |s| == 0 then []
    else if IsWhitespace(s[0]) then Visible(s[1..])
    else [s[0]] + Visible(s[1..])
  }

  lemma {:induction false} VisibleAppend(a: string, b: string)
    ensures Visible(a + b) == Visible(a) + Visible(b)
    decreases |a|
  {
    if |a| == 0 {
      assert a + b == b;
    } else {
      assert (a + b)[0] == a[0] && (a + b)[1..] == a[1..] + b;
      VisibleAppend(a[1..], b);
    }
  }

  lemma {:induction false} VisibleOfWhitespace(s: string)
    requires forall i :: 0 <= i < |s| ==> IsWhitespace(s[i])
    ensures Visible(s) == []
    decreases |s|
  {
    if |s| > 0 {
      VisibleOfWhitespace(s[1..]);
    }
  }

  /** Drops the leading whitespace run. */
  function TrimStart(s: string): (r: string)
    ensures |r| <= |s| && r == s[|s| - |r|..]
    ensures |r| > 0 ==> !IsWhitespace(r[0])
    ensures forall i :: 0 <= i < |s| - |r| ==> IsWhitespace(s[i])
    decreases |s|
  {
    if |s| > 0 && IsWhitespace(s[0]) then TrimStart(s[1..]) else s
  }

  /** Drops the trailing whitespace run. */
  function TrimEnd(s: string): (r: string)
    ensures |r| <= |s| && r == s[..|r|]
    ensures |r| > 0 ==> !IsWhitespace(r[|r| - 1])
    ensures forall i :: |r| <= i < |s| ==> IsWhitespace(s[i])
    decreases |s|
  {
    if |s| > 0 && IsWhitespace(s[|s| - 1]) then TrimEnd(s[..|s| - 1]) else s
  }

  /** Every character of `s` is whitespace. */
  predicate Blank(s: string)
  {
    forall i :: 0 <= i < |s| ==> IsWhitespace(s[i])
  }

  /**
   * `s.trim()`: what lies between the leading and the trailing whitespace
   * runs of `s`.
   */
  function Trim(s: string): (r: string)
    ensures Trimmed(r)
    ensures exists k :: TrimmedAt(s, r, k)
  {
    var t := TrimStart(s);
    var r := TrimEnd(t);
    var k := |s| - |t|;
    TrimSplit(s, t, r, k);
    r
  }

  /** `s` is whitespace, then `r`, from position `k`, then whitespace. */
  predicate TrimmedAt(s: string, r: string, k: nat)
  {
    && k + |r| <= |s| && s == s[..k] + r + s[k + |r|..]
    && Blank(s[..k]) && Blank(s[k + |r|..])
  }

  lemma TrimSplit(s: string, t: string, r: string, k: nat)
    requires t == TrimStart(s) && r == TrimEnd(t) && k == |s| - |t|
    ensures Trimmed(r) && TrimmedAt(s, r, k)
  {
    assert |r| > 0 ==> r[0] == t[0];
    Around(s, t, r, k);
    BlankTo(s, k);
    BlankFrom(t, |r|);
  }

  lemma BlankTo(s: string, n: nat)
    requires n <= |s| && forall i :: 0 <= i < n ==> IsWhitespace(s[i])
    ensures Blank(s[..n])
  {
    assert forall i :: 0 <= i < n ==> s[..n][i] == s[i];
  }

  lemma BlankFrom(t: string, n: nat)
    requires n <= |t| && forall i :: n <= i < |t| ==> IsWhitespace(t[i])
    ensures Blank(t[n..])
  {
    assert forall i :: 0 <= i < |t| - n ==> t[n..][i] == t[n + i];
  }

  /** A suffix `t` of `s` and a prefix `r` of `t` cut `s` in three. */
  lemma Around(s: string, t: string, r: string, k: nat)
    requires |t| <= |s| && t == s[|s| - |t|..] && |r| <= |t| && r == t[..|r|] && k == |s| - |t|
    ensures s == s[..k] + r + s[k + |r|..] && s[k + |r|..] == t[|r|..]
  {
    assert s[k..] == t;
    assert t == r + t[|r|..];
    assert s == s[..k] + s[k..];
  }

  /** Trimming removes whitespace only. */
  lemma TrimKeepsVisible(s: string)
    ensures Visible(Trim(s)) == Visible(s)
  {
    var r := Trim(s);
    var k: nat :| TrimmedAt(s, r, k);
    VisibleAround(s, r, k);
  }

  lemma VisibleAround(s: string, r: string, k: nat)
    requires TrimmedAt(s, r, k)
    ensures Visible(r) == Visible(s)
  {
    var head, tail := s[..k], s[k + |r|..];
    VisibleAppend(head + r, tail);
    VisibleAppend(head, r);
    VisibleOfWhitespace(head);
    VisibleOfWhitespace(tail);
  }

  /** Trimming a string that is already trimmed changes nothing. */
  lemma TrimOfTrimmed(s: string)
    requires Trimmed(s)
    ensures Trim(s) == s
  {
  }

  /** Drops the leading whitespace run; a helper of `Collapse`. */
  function SkipWhitespace(s: string): (r: string)
    ensures |r| <= |s| && r == s[|s| - |r|..]
    ensures |r| > 0 ==> !IsWhitespace(r[0])
    ensures forall i :: 0 <= i < |s| - |r| ==> IsWhitespace(s[i])
  {
    TrimStart(s)
  }

  /**
   * `s.replace(/\s+/g, ' ')`: every maximal whitespace run becomes one
   * space; every other character is kept in place.
   */
  function Collapse(s: string): (r: string)
    ensures |r| == 0 <==> |s| == 0
    ensures |s| > 0 ==> (IsWhitespace(r[0]) <==> IsWhitespace(s[0]))
    ensures |s| > 0 && !IsWhitespace(s[0]) ==> r[0] == s[0]
    ensures |s| > 0 ==> (IsWhitespace(r[|r| - 1]) <==> IsWhitespace(s[|s| - 1]))
    ensures |s| > 0 && !IsWhitespace(s[|s| - 1]) ==> r[|r| - 1] == s[|s| - 1]
    ensures NoDoubleWhitespace(r) && SpacesOnly(r)
    ensures Visible(r) == Visible(s)
    ensures Words(r) == Words(s)
    decreases |s|
  {
    if |s| == 0 then []
    else if IsWhitespace(s[0]) then
      var rest := SkipWhitespace(s);
      var tail := Collapse(rest);
      CollapseRunStep(s, rest, tail);
      [' '] + tail
    else
      var tail := Collapse(s[1..]);
      CollapseCharStep(s, tail);
      [s[0]] + tail
  }

  /** The postcondition of `Collapse`, for the proof steps below. */
  predicate CollapsedFrom(s: string, r: string)
  {
    EndsAlike(s, r) && NoDoubleWhitespace(r) && SpacesOnly(r)
    && Visible(r) == Visible(s) && Words(r) == Words(s)
  }

  /** `r` is empty exactly when `s` is, and starts and ends as `s` does. */
  predicate EndsAlike(s: string, r: string)
  {
    && (|r| == 0 <==> |s| == 0)
    && (|s| > 0 ==> (IsWhitespace(r[0]) <==> IsWhitespace(s[0])))
    && (|s| > 0 && !IsWhitespace(s[0]) ==> r[0] == s[0])
    && (|s| > 0 ==> (IsWhitespace(r[|r| - 1]) <==> IsWhitespace(s[|s| - 1])))
    && (|s| > 0 && !IsWhitespace(s[|s| - 1]) ==> r[|r| - 1] == s[|s| - 1])
  }

  /** A leading whitespace run becomes one space in front of the rest's collapse. */
  lemma CollapseRunStep(s: string, rest: string, tail: string)
    requires |s| > 0 && IsWhitespace(s[0]) && rest == SkipWhitespace(s)
    requires CollapsedFrom(rest, tail)
    ensures CollapsedFrom(s, [' '] + tail)
  {
    RunEnds(s, rest, tail);
    var run := s[..|s| - |rest|];
    assert s == run + rest;
    BlankTo(s, |run|);
    RunVisible(run, rest, tail);
    WordsAfterBlank(run, rest);
    WordsAfterBlank([' '], tail);
  }

  lemma RunEnds(s: string, rest: string, tail: string)
    requires |s| > 0 && IsWhitespace(s[0]) && rest == SkipWhitespace(s)
    requires EndsAlike(rest, tail) && NoDoubleWhitespace(tail) && SpacesOnly(tail)
    ensures EndsAlike(s, [' '] + tail) && NoDoubleWhitespace([' '] + tail) && SpacesOnly([' '] + tail)
  {
    SpacesOnlyCons(' ', tail);
    if |rest| == 0 {
      assert IsWhitespace(s[|s| - 1]);
    } else {
      assert s[|s| - 1] == rest[|rest| - 1];
    }
  }

  lemma RunVisible(run: string, rest: string, tail: string)
    requires Blank(run) && Visible(tail) == Visible(rest)
    ensures Visible([' '] + tail) == Visible(run + rest)
  {
    VisibleAppend(run, rest);
    VisibleOfWhitespace(run);
    VisibleAppend([' '], tail);
  }

  /** A leading visible character stays in front of the rest's collapse. */
  lemma CollapseCharStep(s: string, tail: string)
    requires |s| > 0 && !IsWhitespace(s[0])
    requires CollapsedFrom(s[1..], tail)
    ensures CollapsedFrom(s, [s[0]] + tail)
  {
    assert s == [s[0]] + s[1..];
    VisibleAppend([s[0]], s[1..]);
    VisibleAppend([s[0]], tail);
    SpacesOnlyCons(s[0], tail);
    WordsConsAlike(s[0], s[1..], tail);
  }

  /** Every whitespace character of `s` is a plain space. */
  predicate SpacesOnly(s: string)
  {
    forall i :: 0 <= i < |s| && IsWhitespace(s[i]) ==> s[i] == ' '
  }

  /** One more character in front keeps runs single and spaces plain. */
  lemma SpacesOnlyCons(c: char, r: string)
    requires NoDoubleWhitespace(r) && SpacesOnly(r)
    requires IsWhitespace(c) ==> c == ' ' && (|r| == 0 || !IsWhitespace(r[0]))
    ensures NoDoubleWhitespace([c] + r) && SpacesOnly([c] + r)
  {
    var t := [c] + r;
    forall i | 0 <= i < |t| - 1
      ensures !(IsWhitespace(t[i]) && IsWhitespace(t[i + 1]))
    {
      if i > 0 {
        assert t[i] == r[i - 1] && t[i + 1] == r[i];
      }
    }
    forall i | 0 <= i < |t| && IsWhitespace(t[i])
      ensures t[i] == ' '
    {
      if i > 0 {
        assert t[i] == r[i - 1];
      }
    }
  }

  /**
   * `s.trim().replace(/\s+/g, ' ')`, the title clean-up of the parser: the
   * words of `s`, each separated from the next by exactly one space.
   */
  function Tidy(s: string): (r: string)
    ensures Trimmed(r) && NoDoubleWhitespace(r)
    ensures forall i :: 0 <= i < |r| && IsWhitespace(r[i]) ==> r[i] == ' '
    ensures Visible(r) == Visible(s)
    ensures Words(r) == Words(s)
    ensures |s| == 0 ==> r == []
  {
    TrimKeepsVisible(s);
    TrimKeepsWords(s);
    Collapse(Trim(s))
  }

  /** `s` is already in the form `Tidy` produces. */
  predicate Tidied(s: string)
  {
    Trimmed(s) && NoDoubleWhitespace(s) && SpacesOnly(s)
  }

  /** Collapsing a string without whitespace runs changes nothing. */
  lemma {:induction false} CollapseOfCollapsed(x: string)
    requires NoDoubleWhitespace(x) && SpacesOnly(x)
    ensures Collapse(x) == x
    decreases |x|
  {
    if |x| > 0 {
      var y := x[1..];
      TailKeepsShape(x);
      CollapseOfCollapsed(y);
      if IsWhitespace(x[0]) {
        SkipSingle(x);
      }
      assert x == [x[0]] + y;
    }
  }

  lemma TailKeepsShape(x: string)
    requires |x| > 0 && NoDoubleWhitespace(x) && SpacesOnly(x)
    ensures NoDoubleWhitespace(x[1..]) && SpacesOnly(x[1..])
  {
    var y := x[1..];
    forall i | 0 <= i < |y| ensures y[i] == x[i + 1] {}
  }

  /** A single whitespace character in front is all the run there is. */
  lemma SkipSingle(x: string)
    requires |x| > 0 && IsWhitespace(x[0]) && NoDoubleWhitespace(x)
    ensures SkipWhitespace(x) == x[1..]
  {
    assert |x| == 1 || !IsWhitespace(x[1]);
    assert |x[1..]| == 0 || !IsWhitespace(x[1..][0]);
  }

  /** A tidied string is its own tidy form. */
  lemma TidyOfTidied(x: string)
    requires Tidied(x)
    ensures Tidy(x) == x
  {
    TrimOfTrimmed(x);
    CollapseOfCollapsed(x);
  }

  /** Two non-empty tidied strings joined by one space are tidied. */
  lemma TidiedJoin(a: string, b: string)
    requires Tidied(a) && Tidied(b) && |a| > 0 && |b| > 0
    ensures Tidied(a + [' '] + b)
  {
    var x := a + [' '] + b;
    assert forall i :: 0 <= i < |a| ==> x[i] == a[i];
    assert forall i :: 0 <= i < |b| ==> x[|a| + 1 + i] == b[i];
    assert x[|a|] == ' ';
    forall i | 0 <= i < |x| - 1
      ensures !(IsWhitespace(x[i]) && IsWhitespace(x[i + 1]))
    {
      if i < |a| - 1 {
        assert x[i] == a[i] && x[i + 1] == a[i + 1];
      } else if i == |a| - 1 {
        assert x[i] == a[|a| - 1];
      } else if i == |a| {
        assert x[i + 1] == b[0];
      } else {
        assert x[i] == b[i - |a| - 1] && x[i + 1] == b[i - |a|];
      }
    }
    forall i | 0 <= i < |x| && IsWhitespace(x[i])
      ensures x[i] == ' '
    {
      if i < |a| {
        assert x[i] == a[i];
      } else if i > |a| {
        assert x[i] == b[i - |a| - 1];
      }
    }
  }

  /** One trailing space after a non-empty tidied string is dropped by `Tidy`. */
  lemma TidyDropsTrailingSpace(x: string)
    requires Tidied(x) && |x| > 0
    ensures Tidy(x + [' ']) == x
  {
    var s := x + [' '];
    assert s[0] == x[0];
    assert TrimStart(s) == s;
    assert s[..|s| - 1] == x;
    assert TrimEnd(s) == TrimEnd(x) == x;
    assert Trim(s) == x;
    TidyOfTidied(x);
  }

  /** The leading run of non-whitespace characters of `s`. */
  function Word(s: string): (w: string)
    ensures |w| <= |s| && w == s[..|w|]
    ensures |s| > 0 && !IsWhitespace(s[0]) ==> |w| > 0
    decreases |s|
  {
    if |s| == 0 || IsWhitespace(s[0]) then []
    else
      var w := [s[0]] + Word(s[1..]);
      assert s == [s[0]] + s[1..];
      w
  }

  /** The words of `s`: its maximal runs of non-whitespace characters, in order. */
  function Words(s: string): seq<string>
    decreases |s|
  {
    if |s| == 0 then []
    else if IsWhitespace(s[0]) then Words(s[1..])
    else
      var w := Word(s);
      [w] + Words(s[|w|..])
  }

  /** A visible character in front joins the first word, or is a word of its own. */
  lemma WordsCons(c: char, x: string)
    requires !IsWhitespace(c)
    ensures |x| == 0 || IsWhitespace(x[0]) ==> Words([c] + x) == [[c]] + Words(x)
    ensures |x| > 0 && !IsWhitespace(x[0]) ==>
      |Words(x)| > 0 && Words([c] + x) == [[c] + Words(x)[0]] + Words(x)[1..]
  {
    var s := [c] + x;
    assert s[1..] == x;
    assert Word(s) == [c] + Word(x);
    assert s[|Word(s)|..] == x[|Word(x)|..];
  }

  /** Two tails that agree on their words, emptiness and first-character class agree after `c`. */
  lemma WordsConsAlike(c: char, x: string, y: string)
    requires !IsWhitespace(c)
    requires Words(x) == Words(y) && (|x| == 0 <==> |y| == 0)
    requires |x| > 0 ==> (IsWhitespace(x[0]) <==> IsWhitespace(y[0]))
    ensures Words([c] + x) == Words([c] + y)
  {
    WordsCons(c, x);
    WordsCons(c, y);
  }

  /** Leading whitespace contributes no word. */
  lemma {:induction false} WordsAfterBlank(run: string, rest: string)
    requires Blank(run)
    ensures Words(run + rest) == Words(rest)
    decreases |run|
  {
    if |run| == 0 {
      assert run + rest == rest;
    } else {
      assert (run + rest)[0] == run[0] && IsWhitespace(run[0]);
      assert (run + rest)[1..] == run[1..] + rest;
      assert Blank(run[1..]) by {
        forall i | 0 <= i < |run| - 1 ensures IsWhitespace(run[1..][i]) {
          assert run[1..][i] == run[i + 1];
        }
      }
      WordsAfterBlank(run[1..], rest);
    }
  }

  /** Trailing whitespace contributes no word. */
  lemma {:induction false} WordsBeforeBlank(x: string, tail: string)
    requires Blank(tail)
    ensures Words(x + tail) == Words(x)
    decreases |x|
  {
    if |x| == 0 {
      assert x + tail == tail + x;
      WordsAfterBlank(tail, x);
    } else {
      var y := x[1..];
      assert x == [x[0]] + y && x + tail == [x[0]] + (y + tail);
      WordsBeforeBlank(y, tail);
      if IsWhitespace(x[0]) {
        WordsAfterBlank([x[0]], y);
        WordsAfterBlank([x[0]], y + tail);
      } else {
        WordsCons(x[0], y);
        WordsCons(x[0], y + tail);
        if |y| == 0 {
          assert y + tail == tail;
        } else {
          assert (y + tail)[0] == y[0];
        }
      }
    }
  }

  /** Trimming removes no word. */
  lemma TrimKeepsWords(s: string)
    ensures Words(Trim(s)) == Words(s)
  {
    var r := Trim(s);
    var k: nat :| TrimmedAt(s, r, k);
    WordsAround(s, r, k);
  }

  lemma WordsAround(s: string, r: string, k: nat)
    requires TrimmedAt(s, r, k)
    ensures Words(r) == Words(s)
  {
    var head, tail := s[..k], s[k + |r|..];
    assert s == head + (r + tail);
    WordsAfterBlank(head, r + tail);
    WordsBeforeBlank(r, tail);
  }

  function Count(s: string, c: char): nat
  {
    if |s| == 0 then 0 else (if s[0] == c then 1 else 0) + Count(s[1..], c)
  }

  /** Glues parts together with `sep` between consecutive parts. */
  function Join(parts: seq<string>, sep: char): string
    requires |parts| >= 1
  {
    if |parts| == 1 then parts[0] else parts[0] + [sep] + Join(parts[1..], sep)
  }

  lemma JoinThree(a: string, b: string, c: string, sep: char)
    ensures Join([a, b, c], sep) == a + [sep] + b + [sep] + c
    ensures Join([a, b, c], sep) == a + ([sep] + (b + ([sep] + c)))
  {
    assert [a, b, c][1..] == [b, c];
    assert [b, c][1..] == [c];
    assert Join([b, c], sep) == b + [sep] + c;
    assert Join([a, b, c], sep) == a + [sep] + (b + [sep] + c);
    assert a + [sep] + (b + [sep] + c) == a + [sep] + b + [sep] + c;
    assert a + ([sep] + (b + ([sep] + c))) == a + [sep] + b + [sep] + c;
  }

  /**
   * `s.split(sep)` for a one-character separator: always at least one part,
   * no part holds the separator, and gluing the parts back gives `s`.
   */
  function Split(s: string, sep: char): (parts: seq<string>)
    ensures |parts| == Count(s, sep) + 1
    ensures forall i :: 0 <= i < |parts| ==> sep !in parts[i]
    ensures Join(parts, sep) == s
    decreases |s|
  {
    if |s| == 0 then [""]
    else
      var rest := Split(s[1..], sep);
      assert s == [s[0]] + s[1..];
      if s[0] == sep then [""] + rest
      else
        var parts := [[s[0]] + rest[0]] + rest[1..];
        assert parts[1..] == rest[1..];
        parts
  }

  lemma {:induction false} SplitPrefix(p: string, x: string, sep: char)
    requires sep !in p
    ensures Split(p + x, sep) == [p + Split(x, sep)[0]] + Split(x, sep)[1..]
    decreases |p|
  {
    if |p| == 0 {
      assert p + x == x;
      assert p + Split(x, sep)[0] == Split(x, sep)[0];
      assert Split(x, sep) == [Split(x, sep)[0]] + Split(x, sep)[1..];
    } else {
      var y, rest := p + x, Split(x, sep);
      assert y[0] == p[0] != sep && y[1..] == p[1..] + x;
      SplitPrefix(p[1..], x, sep);
      var inner := Split(y[1..], sep);
      assert inner == [p[1..] + rest[0]] + rest[1..];
      assert Split(y, sep) == [[y[0]] + inner[0]] + inner[1..];
      assert [p[0]] + (p[1..] + rest[0]) == p + rest[0];
    }
  }

  /** Three separator-free fields joined by `sep` split back into those fields. */
  lemma SplitThree(a: string, b: string, c: string, sep: char)
    requires sep !in a && sep !in b && sep !in c
    ensures Split(Join([a, b, c], sep), sep) == [a, b, c]
  {
    var parts := [a, b, c];
    assert forall i :: 0 <= i < |parts| ==> sep !in parts[i];
    SplitJoin(parts, sep);
  }

  /** Splitting a join of separator-free parts gives the parts back. */
  lemma {:induction false} SplitJoin(parts: seq<string>, sep: char)
    requires |parts| >= 1
    requires forall i :: 0 <= i < |parts| ==> sep !in parts[i]
    ensures Split(Join(parts, sep), sep) == parts
    decreases |parts|
  {
    if |parts| == 1 {
      SplitPrefix(parts[0], "", sep);
      assert parts[0] + "" == parts[0];
    } else {
      var tail := Join(parts[1..], sep);
      SplitJoin(parts[1..], sep);
      assert parts[0] + [sep] + tail == parts[0] + ([sep] + tail);
      SplitPrefix(parts[0], [sep] + tail, sep);
      assert ([sep] + tail)[1..] == tail;
      assert Split([sep] + tail, sep) == [""] + parts[1..];
      assert parts[0] + "" == parts[0];
      assert parts == [parts[0]] + parts[1..];
    }
  }

  predicate OccursAt(s: string, pat: string, k: nat)
  {
    k + |pat| <= |s| && s[k..k + |pat|] == pat
  }

  function IndexFrom(s: string, pat: string, i: nat): (r: Option<nat>)
    ensures r.Some? ==> i <= r.value && OccursAt(s, pat, r.value)
    ensures r.Some? ==> forall k :: i <= k < r.value ==> !OccursAt(s, pat, k)
    ensures r.None? ==> forall k :: i <= k ==> !OccursAt(s, pat, k)
    decreases |s| - i
  {
    if i + |pat| > |s| then None
    else if s[i..i + |pat|] == pat then Some(i)
    else IndexFrom(s, pat, i + 1)
  }

  /** `s.indexOf(pat)`: the first position where `pat` occurs. */
  function IndexOf(s: string, pat: string): (r: Option<nat>)
    ensures r.Some? ==> OccursAt(s, pat, r.value)
    ensures r.Some? ==> forall k :: 0 <= k < r.value ==> !OccursAt(s, pat, k)
    ensures r.None? ==> forall k :: 0 <= k ==> !OccursAt(s, pat, k)
  {
    IndexFrom(s, pat, 0)
  }

  /**
   * `s.replace(pat, '')` with a string pattern: only the first occurrence
   * is removed; without one, `s` is returned unchanged.
   */
  function RemoveFirst(s: string, pat: string): (r: string)
    ensures IndexOf(s, pat).None? ==> r == s
    ensures IndexOf(s, pat).Some? ==>
      var k := IndexOf(s, pat).value;
      |r| == |s| - |pat| && r == s[..k] + s[k + |pat|..]
  {
    match IndexOf(s, pat)
    case None => s
    case Some(k) => s[..k] + s[k + |pat|..]
  }
}
