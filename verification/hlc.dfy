/**
 * The Hybrid Logical Clock of the sync package. A clock is a plain value
 * `(lastWallTime, lastCounter, nodeId)` threaded through `Tick` and
 * `Receive`; the wall-clock reading `Date.now()` is the parameter `now`.
 * Timestamps travel as `<wallTime>_<counter>_<nodeId>` with the wall time
 * padded to 15 digits and the counter to 5.
 */
module Hlc {
  import opened Common
  import LexOrder
  import Decimal
  import Text

  const WallWidth: nat := 15
  const CounterWidth: nat := 5
  const Separator: char := '_'

  datatype Timestamp = Timestamp(wallTime: nat, counter: nat, nodeId: string)

  datatype Clock = Clock(lastWallTime: nat, lastCounter: nat, nodeId: string)

  /** The clock after an operation, and the timestamp string it returned. */
  datatype Issued = Issued(clock: Clock, stamp: string)

  /**
   * Why `fromString` rejected its input: `split` did not give three fields
   * (the source throws), or a numeric field reads as NaN or as a negative
   * number (the source would carry on with that value).
   */
  datatype ParseError =
    | WrongFieldCount(fields: nat)
    | NotANumber(field: string)
    | Negative(field: string)

  /** A freshly constructed clock: `new HLC(nodeId)`. */
  function NewClock(nodeId: string): Clock
  {
    Clock(0, 0, nodeId)
  }

  /** The timestamp a clock stands at. */
  function Current(c: Clock): Timestamp
  {
    Timestamp(c.lastWallTime, c.lastCounter, c.nodeId)
  }

  /** `(wall, counter)` comes strictly after `t` in `(wallTime, counter)` order. */
  predicate After(wall: nat, counter: nat, t: Timestamp)
  {
    wall > t.wallTime || (wall == t.wallTime && counter > t.counter)
  }

  /** `b` is strictly later than `a` in `(wallTime, counter)` order. */
  predicate Precedes(a: Timestamp, b: Timestamp)
  {
    After(b.wallTime, b.counter, a)
  }

  function WallField(t: Timestamp): string
  {
    Decimal.PadStart(Decimal.ToDecimal(t.wallTime), WallWidth)
  }

  function CounterField(t: Timestamp): string
  {
    Decimal.PadStart(Decimal.ToDecimal(t.counter), CounterWidth)
  }

  /**
   * `HLC.toString`: the zero-padded fields joined by '_'. Padding only
   * widens; a counter above five digits is written in full.
   */
  function ToString(t: Timestamp): (s: string)
    ensures |s| >= WallWidth + CounterWidth + 2 + |t.nodeId|
    ensures s[|s| - |t.nodeId|..] == t.nodeId
  {
    Text.JoinThree(WallField(t), CounterField(t), t.nodeId, Separator);
    Text.Join([WallField(t), CounterField(t), t.nodeId], Separator)
  }

  /** The layout of a formatted timestamp, field by field. */
  lemma ToStringShape(t: Timestamp)
    ensures ToString(t) == WallField(t) + [Separator] + CounterField(t) + [Separator] + t.nodeId
    ensures ToString(t) == WallField(t) + ([Separator] + (CounterField(t) + ([Separator] + t.nodeId)))
  {
    Text.JoinThree(WallField(t), CounterField(t), t.nodeId, Separator);
  }

  /** A formatted timestamp holds two separators more than its node id. */
  lemma SeparatorCount(t: Timestamp)
    ensures Text.Count(ToString(t), Separator) == 2 + Text.Count(t.nodeId, Separator)
  {
    ToStringShape(t);
    var w, c := WallField(t), CounterField(t);
    DigitsHaveNoSeparator(w);
    DigitsHaveNoSeparator(c);
    CountAppend(w, [Separator] + (c + ([Separator] + t.nodeId)));
    CountAppend([Separator], c + ([Separator] + t.nodeId));
    CountAppend(c, [Separator] + t.nodeId);
    CountAppend([Separator], t.nodeId);
  }

  lemma {:induction false} DigitsHaveNoSeparator(s: string)
    requires Decimal.AllDigits(s)
    ensures Text.Count(s, Separator) == 0 && Separator !in s
    decreases |s|
  {
    if |s| > 0 {
      assert Decimal.IsDigit(s[0]);
      DigitsHaveNoSeparator(s[1..]);
    }
  }

  lemma {:induction false} CountAppend(a: string, b: string)
    ensures Text.Count(a + b, Separator) == Text.Count(a, Separator) + Text.Count(b, Separator)
    decreases |a|
  {
    if |a| == 0 {
      assert a + b == b;
    } else {
      assert (a + b)[1..] == a[1..] + b;
      CountAppend(a[1..], b);
    }
  }

  /**
   * `HLC.fromString`: split on '_'; anything but three fields throws. The
   * numeric fields are read as `parseInt` reads them.
   */
  function FromString(s: string): (r: Result<Timestamp, ParseError>)
    ensures r.Err? && r.error.WrongFieldCount? <==> Text.Count(s, Separator) != 2
    ensures r.Ok? ==> Separator !in r.value.nodeId
    ensures r.Ok? ==> |r.value.nodeId| <= |s| && s[|s| - |r.value.nodeId|..] == r.value.nodeId
  {
    var parts := Text.Split(s, Separator);
    if |parts| != 3 then Err(WrongFieldCount(|parts|))
    else
      Text.JoinThree(parts[0], parts[1], parts[2], Separator);
      assert parts == [parts[0], parts[1], parts[2]];
      assert s == (parts[0] + [Separator] + parts[1] + [Separator]) + parts[2];
      match (Decimal.ParseInt(parts[0]), Decimal.ParseInt(parts[1]))
      case (None, _) => Err(NotANumber(parts[0]))
      case (_, None) => Err(NotANumber(parts[1]))
      case (Some(w), Some(c)) =>
        if w < 0 then Err(Negative(parts[0]))
        else if c < 0 then Err(Negative(parts[1]))
        else Ok(Timestamp(w, c, parts[2]))
  }

  /** Parsing a formatted timestamp gives it back, when its node id has no '_'. */
  lemma RoundTrip(t: Timestamp)
    requires Separator !in t.nodeId
    ensures FromString(ToString(t)) == Ok(t)
  {
    SplitOfToString(t);
    FieldReadsBack(t.wallTime, WallWidth);
    FieldReadsBack(t.counter, CounterWidth);
    FromFields(ToString(t), WallField(t), CounterField(t), t.nodeId);
  }

  /** Splitting a formatted timestamp gives its three fields back. */
  lemma SplitOfToString(t: Timestamp)
    requires Separator !in t.nodeId
    ensures Text.Split(ToString(t), Separator) == [WallField(t), CounterField(t), t.nodeId]
  {
    FieldsHaveNoSeparator(t);
    Text.SplitThree(WallField(t), CounterField(t), t.nodeId, Separator);
  }

  lemma FieldsHaveNoSeparator(t: Timestamp)
    ensures Separator !in WallField(t) && Separator !in CounterField(t)
  {
    Decimal.ValueOfPadStart(Decimal.ToDecimal(t.wallTime), WallWidth);
    Decimal.ValueOfPadStart(Decimal.ToDecimal(t.counter), CounterWidth);
    DigitsHaveNoSeparator(WallField(t));
    DigitsHaveNoSeparator(CounterField(t));
  }

  /** Three fields whose first two read as numbers parse to the timestamp they spell. */
  lemma FromFields(s: string, w: string, c: string, node: string)
    requires Text.Split(s, Separator) == [w, c, node]
    requires Decimal.ParseInt(w).Some? && Decimal.ParseInt(c).Some?
    requires Decimal.ParseInt(w).value >= 0 && Decimal.ParseInt(c).value >= 0
    ensures FromString(s) == Ok(Timestamp(Decimal.ParseInt(w).value, Decimal.ParseInt(c).value, node))
  {
  }

  /** A padded numeric field reads back as its number. */
  lemma FieldReadsBack(n: nat, width: nat)
    ensures Decimal.ParseInt(Decimal.PadStart(Decimal.ToDecimal(n), width)) == Some(n)
  {
    Decimal.ValueOfPadStart(Decimal.ToDecimal(n), width);
    Decimal.ValueOfToDecimal(n);
  }

  /**
   * `tick()`: the least timestamp after the clock's own that does not lag
   * the wall clock. A wall clock that has advanced restarts the counter
   * at 0; otherwise the wall time stays and the counter grows by one.
   */
  function Tick(c: Clock, now: nat): (r: Issued)
    ensures r.clock.nodeId == c.nodeId
    ensures r.clock.lastWallTime == Max(c.lastWallTime, now)
    ensures Precedes(Current(c), Current(r.clock))
    ensures forall n: nat :: n < r.clock.lastCounter ==> !After(r.clock.lastWallTime, n, Current(c))
    ensures r.stamp == ToString(Current(r.clock))
  {
    var next :=
      if now > c.lastWallTime then Clock(now, 0, c.nodeId)
      else Clock(c.lastWallTime, c.lastCounter + 1, c.nodeId);
    Issued(next, ToString(Current(next)))
  }

  /**
   * The state change of `receive` once the remote string is parsed: the wall
   * time is the largest of the three readings, and the counter is the least
   * one that puts the result strictly after both the local clock and the
   * remote timestamp.
   */
  function Merge(c: Clock, remote: Timestamp, now: nat): (r: Clock)
    ensures r.nodeId == c.nodeId
    ensures r.lastWallTime == Max(Max(c.lastWallTime, remote.wallTime), now)
    ensures Precedes(Current(c), Current(r)) && Precedes(remote, Current(r))
    ensures forall n: nat :: n < r.lastCounter ==>
      !(After(r.lastWallTime, n, Current(c)) && After(r.lastWallTime, n, remote))
  {
    var next: nat := Max(Max(c.lastWallTime, remote.wallTime), now);
    var counter: nat :=
      if next == c.lastWallTime && next == remote.wallTime then Max(c.lastCounter, remote.counter) + 1
      else if next == c.lastWallTime then c.lastCounter + 1
      else if next == remote.wallTime then remote.counter + 1
      else 0;
    Clock(next, counter, c.nodeId)
  }

  /**
   * `receive(remote)`: a remote string that does not split into three fields
   * throws and leaves the clock as it was; otherwise the clock moves to
   * `Merge` of the parsed timestamp and its new timestamp is returned. A
   * numeric field that does not read as a natural number is an error here
   * as well, where the source carries on with NaN or the negative value.
   */
  function Receive(c: Clock, remote: string, now: nat): (r: Result<Issued, ParseError>)
    ensures r.Err? <==> FromString(remote).Err?
    ensures r.Err? ==> r.error == FromString(remote).error
    ensures r.Ok? ==> r.value.clock == Merge(c, FromString(remote).value, now)
    ensures r.Ok? ==> r.value.clock.lastWallTime >= FromString(remote).value.wallTime
    ensures r.Ok? ==> r.value.clock.lastWallTime >= now
    ensures r.Ok? ==> Precedes(Current(c), Current(r.value.clock))
    ensures r.Ok? ==> Precedes(FromString(remote).value, Current(r.value.clock))
    ensures r.Ok? ==> r.value.stamp == ToString(Current(r.value.clock))
  {
    match FromString(remote)
    case Err(e) => Err(e)
    case Ok(t) =>
      var next := Merge(c, t, now);
      Ok(Issued(next, ToString(Current(next))))
  }

  /**
   * `HLC.compare`: 0 for equal strings, otherwise -1 or 1 by JavaScript's
   * string `<`. The timestamps are not parsed.
   */
  function Compare(a: string, b: string): (r: int)
    ensures r == 0 <==> a == b
    ensures r == -1 <==> LexOrder.Less(a, b)
    ensures r == 1 <==> LexOrder.Less(b, a)
    ensures r == -1 || r == 0 || r == 1
  {
    LexOrder.Irreflexive(a);
    LexOrder.Asymmetric(a, b);
    LexOrder.Total(a, b);
    if a == b then 0 else if LexOrder.Less(a, b) then -1 else 1
  }

  lemma CompareAntisymmetric(a: string, b: string)
    ensures Compare(a, b) == -Compare(b, a)
  {
  }

  lemma CompareTransitive(a: string, b: string, c: string)
    ensures Compare(a, b) < 0 && Compare(b, c) < 0 ==> Compare(a, c) < 0
    ensures Compare(a, b) <= 0 && Compare(b, c) <= 0 ==> Compare(a, c) <= 0
  {
    LexOrder.Transitive(a, b, c);
  }
}
