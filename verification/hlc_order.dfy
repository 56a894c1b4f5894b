/**
 * What the fixed-width wire format buys: while the wall time fits in 15
 * digits and the counter in 5, comparing two formatted timestamps as
 * strings (which is all `HLC.compare` does) orders them by
 * `(wallTime, counter, nodeId)`. Padding never truncates, so a counter of
 * 100000 or more breaks the agreement.
 */
module HlcOrder {
  import opened Common
  import LexOrder
  import Decimal
  import opened Hlc

  /** The timestamp's numeric fields fit their padded widths. */
  predicate InWidth(t: Timestamp)
  {
    t.wallTime < Decimal.Pow10(WallWidth) && t.counter < Decimal.Pow10(CounterWidth)
  }

  /** The intended total order: wall time, then counter, then node id. */
  function CompareFields(a: Timestamp, b: Timestamp): int
  {
    if a.wallTime != b.wallTime then (if a.wallTime < b.wallTime then -1 else 1)
    else if a.counter != b.counter then (if a.counter < b.counter then -1 else 1)
    else Compare(a.nodeId, b.nodeId)
  }

  /** A padded field of a value that fits has exactly the field's width. */
  lemma FieldWidth(n: nat, k: nat)
    requires k >= 1 && n < Decimal.Pow10(k)
    ensures |Decimal.PadStart(Decimal.ToDecimal(n), k)| == k
    ensures Decimal.AllDigits(Decimal.PadStart(Decimal.ToDecimal(n), k))
    ensures Decimal.Value(Decimal.PadStart(Decimal.ToDecimal(n), k)) == n
  {
    Decimal.ToDecimalLength(n, k);
    Decimal.ValueOfPadStart(Decimal.ToDecimal(n), k);
    Decimal.ValueOfToDecimal(n);
  }

  /** A common prefix does not change `Compare`. */
  lemma ComparePrefix(p: string, x: string, y: string)
    ensures Compare(p + x, p + y) == Compare(x, y)
  {
    LexOrder.CommonPrefix(p, x, y);
    LexOrder.CommonPrefix(p, y, x);
    if p + x == p + y {
      assert x == (p + x)[|p|..] && y == (p + y)[|p|..];
    }
  }

  /**
   * Two strings that start with equal-width digit fields compare by the
   * fields' values when these differ, and by the rest otherwise.
   */
  lemma LeadingFieldDecides(fa: string, fb: string, ra: string, rb: string)
    requires |fa| == |fb| && Decimal.AllDigits(fa) && Decimal.AllDigits(fb)
    ensures Decimal.Value(fa) < Decimal.Value(fb) ==> Compare(fa + ra, fb + rb) == -1
    ensures Decimal.Value(fb) < Decimal.Value(fa) ==> Compare(fa + ra, fb + rb) == 1
    ensures Decimal.Value(fa) == Decimal.Value(fb) ==> Compare(fa + ra, fb + rb) == Compare(ra, rb)
  {
    Decimal.LessIsNumericLess(fa, fb);
    Decimal.LessIsNumericLess(fb, fa);
    if fa != fb {
      LexOrder.EqualLengthPrefix(fa, fb, ra, rb);
      LexOrder.EqualLengthPrefix(fb, fa, rb, ra);
    } else {
      ComparePrefix(fa, ra, rb);
    }
  }

  /**
   * Within the widths, string comparison of formatted timestamps is the
   * field-by-field comparison.
   */
  lemma StringOrderIsFieldOrder(a: Timestamp, b: Timestamp)
    requires InWidth(a) && InWidth(b)
    ensures Compare(ToString(a), ToString(b)) == CompareFields(a, b)
  {
    ToStringShape(a);
    ToStringShape(b);
    FieldWidth(a.wallTime, WallWidth);
    FieldWidth(b.wallTime, WallWidth);
    FieldWidth(a.counter, CounterWidth);
    FieldWidth(b.counter, CounterWidth);
    var xa, xb := [Separator] + a.nodeId, [Separator] + b.nodeId;
    var ra, rb := CounterField(a) + xa, CounterField(b) + xb;
    LeadingFieldDecides(WallField(a), WallField(b), [Separator] + ra, [Separator] + rb);
    ComparePrefix([Separator], ra, rb);
    LeadingFieldDecides(CounterField(a), CounterField(b), xa, xb);
    ComparePrefix([Separator], a.nodeId, b.nodeId);
  }

  /** Within the widths, distinct timestamps format to distinct strings. */
  lemma ToStringInjective(a: Timestamp, b: Timestamp)
    requires InWidth(a) && InWidth(b)
    ensures ToString(a) == ToString(b) <==> a == b
  {
    StringOrderIsFieldOrder(a, b);
  }

  /** Two successive ticks compare as -1 while both fit the widths. */
  lemma SuccessiveTicksAscend(c: Clock, now1: nat, now2: nat)
    requires InWidth(Current(Tick(c, now1).clock))
    requires InWidth(Current(Tick(Tick(c, now1).clock, now2).clock))
    ensures Compare(Tick(c, now1).stamp, Tick(Tick(c, now1).clock, now2).stamp) == -1
  {
    var first := Tick(c, now1);
    var second := Tick(first.clock, now2);
    StringOrderIsFieldOrder(Current(first.clock), Current(second.clock));
  }

  /**
   * Receiving a well-formed remote timestamp yields a string that sorts
   * after both the remote string and the clock's previous timestamp, while
   * all three fit the widths.
   */
  lemma ReceiveSortsAfterBoth(c: Clock, remote: Timestamp, now: nat)
    requires Separator !in remote.nodeId
    requires InWidth(remote) && InWidth(Current(c))
    requires InWidth(Current(Merge(c, remote, now)))
    ensures Receive(c, ToString(remote), now).Ok?
    ensures Receive(c, ToString(remote), now).value.clock == Merge(c, remote, now)
    ensures Compare(Receive(c, ToString(remote), now).value.stamp, ToString(remote)) == 1
    ensures Compare(Receive(c, ToString(remote), now).value.stamp, ToString(Current(c))) == 1
  {
    RoundTrip(remote);
    var next := Merge(c, remote, now);
    StringOrderIsFieldOrder(Current(next), remote);
    StringOrderIsFieldOrder(Current(next), Current(c));
  }

  /** Receiving a formatted timestamp is `Merge` followed by formatting. */
  lemma ReceiveFormatted(c: Clock, remote: Timestamp, now: nat)
    requires Separator !in remote.nodeId
    ensures Receive(c, ToString(remote), now)
      == Ok(Issued(Merge(c, remote, now), ToString(Current(Merge(c, remote, now)))))
  {
    RoundTrip(remote);
  }

  lemma Decimal99999()
    ensures Decimal.ToDecimal(99999) == "99999"
  {
    assert Decimal.ToDecimal(9) == "9";
    assert Decimal.ToDecimal(99) == "99";
    assert Decimal.ToDecimal(999) == "999";
    assert Decimal.ToDecimal(9999) == "9999";
  }

  lemma Decimal100000()
    ensures Decimal.ToDecimal(100000) == "100000"
    ensures Decimal.ToDecimal(1000000) == "1000000"
  {
    assert Decimal.ToDecimal(1) == "1";
    assert Decimal.ToDecimal(10) == "10";
    assert Decimal.ToDecimal(100) == "100";
    assert Decimal.ToDecimal(1000) == "1000";
    assert Decimal.ToDecimal(10000) == "10000";
    assert Decimal.ToDecimal(100000) == "100000";
  }

  /** The counter fields of the largest five-digit value and of the next one. */
  lemma CounterFieldsAtWidth(k: nat, wall: nat, node: string)
    requires k + 1 == Decimal.Pow10(CounterWidth)
    ensures CounterField(Timestamp(wall, k, node)) == "99999"
    ensures CounterField(Timestamp(wall, k + 1, node)) == "100000"
  {
    assert k == 99999;
    Decimal99999();
    Decimal100000();
  }

  /** '1' < '9' decides, whatever follows. */
  lemma SixDigitsSortBelowFive(x: string, y: string)
    ensures Compare("100000" + x, "99999" + y) == -1
  {
    assert LexOrder.Less("100000" + x, "99999" + y);
  }

  /** At one wall time, formatted timestamps compare from their counter fields on. */
  lemma SameWallCompare(a: Timestamp, b: Timestamp)
    requires a.wallTime == b.wallTime
    ensures Compare(ToString(a), ToString(b))
      == Compare(CounterField(a) + ([Separator] + a.nodeId), CounterField(b) + ([Separator] + b.nodeId))
  {
    ToStringShape(a);
    ToStringShape(b);
    var x, y := CounterField(a) + ([Separator] + a.nodeId), CounterField(b) + ([Separator] + b.nodeId);
    ComparePrefix(WallField(a), [Separator] + x, [Separator] + y);
    ComparePrefix([Separator], x, y);
  }

  /** A remote timestamp ahead of both the clock and the wall clock sets the pace. */
  lemma MergeBehindRemote(c: Clock, remote: Timestamp, now: nat)
    requires c.lastWallTime < remote.wallTime && now <= remote.wallTime
    ensures Merge(c, remote, now) == Clock(remote.wallTime, remote.counter + 1, c.nodeId)
  {
  }

  /** One past the widest five-digit counter sorts below it. */
  lemma SixDigitCounterSortsBelow(wall: nat, k: nat, mine: string, theirs: string)
    requires k + 1 == Decimal.Pow10(CounterWidth)
    ensures Compare(ToString(Timestamp(wall, k + 1, mine)), ToString(Timestamp(wall, k, theirs))) == -1
  {
    CounterFieldsAtWidth(k, wall, mine);
    CounterFieldsAtWidth(k, wall, theirs);
    SameWallCompare(Timestamp(wall, k + 1, mine), Timestamp(wall, k, theirs));
    SixDigitsSortBelowFive([Separator] + mine, [Separator] + theirs);
  }

  /**
   * The width bound is needed: a remote counter of 99999 (`k`) at a wall
   * time the local clock has not reached makes the local counter 100000, which is
   * numerically later but sorts below the remote string, because padding
   * does not truncate and '1' < '9'.
   */
  lemma CounterPastWidthSortsBelowRemote(c: Clock, wall: nat, k: nat, remoteNode: string, now: nat)
    requires c.lastWallTime < wall && now <= wall
    requires Separator !in remoteNode
    requires k + 1 == Decimal.Pow10(CounterWidth)
    ensures var remote := Timestamp(wall, k, remoteNode);
      var mine := Timestamp(wall, k + 1, c.nodeId);
      && Receive(c, ToString(remote), now) == Ok(Issued(Clock(wall, k + 1, c.nodeId), ToString(mine)))
      && Precedes(remote, mine)
      && Compare(ToString(mine), ToString(remote)) == -1
  {
    var remote := Timestamp(wall, k, remoteNode);
    var mine := Timestamp(wall, k + 1, c.nodeId);
    ReceiveFormatted(c, remote, now);
    MergeBehindRemote(c, remote, now);
    assert Current(Clock(wall, k + 1, c.nodeId)) == mine;
    SixDigitCounterSortsBelow(wall, k, c.nodeId, remoteNode);
  }

  /**
   * The clock scenario of the sync package's tests: after a tick at `now`,
   * remote timestamps behind, level with and ahead of the local wall time
   * give counters 1, 11 and 51.
   */
  lemma ReceiveScenario(now: nat)
    requires now >= 1000
    ensures var c0 := Tick(NewClock("node-1"), now).clock;
      var r1 := Receive(c0, ToString(Timestamp(now - 1000, 5, "node-2")), now);
      && c0 == Clock(now, 0, "node-1")
      && r1.Ok? && r1.value.clock == Clock(now, 1, "node-1")
      && var r2 := Receive(r1.value.clock, ToString(Timestamp(now, 10, "node-3")), now);
      && r2.Ok? && r2.value.clock == Clock(now, 11, "node-1")
      && var r3 := Receive(r2.value.clock, ToString(Timestamp(now + 1000, 50, "node-4")), now);
      && r3.Ok? && r3.value.clock == Clock(now + 1000, 51, "node-1")
  {
    var c0 := Clock(now, 0, "node-1");
    var c1 := Clock(now, 1, "node-1");
    var c2 := Clock(now, 11, "node-1");
    ReceiveFormatted(c0, Timestamp(now - 1000, 5, "node-2"), now);
    ReceiveFormatted(c1, Timestamp(now, 10, "node-3"), now);
    ReceiveFormatted(c2, Timestamp(now + 1000, 50, "node-4"), now);
  }

  lemma CounterFieldOfAMillion(m: nat, wall: nat, node: string)
    requires m == Decimal.Pow10(6)
    ensures CounterField(Timestamp(wall, m, node)) == "1000000"
  {
    assert m == 1000000;
    Decimal100000();
  }

  /**
   * The counter-overflow test: a remote counter of 999999 (`k`) ahead of
   * the local clock gives a local counter of 1000000, written in full
   * between the separators.
   */
  lemma CounterOverflowWrittenInFull(node: string, remoteNode: string, wall: nat, k: nat, now: nat)
    requires Separator !in remoteNode
    requires now <= wall && wall > 0
    requires k + 1 == Decimal.Pow10(6)
    ensures var mine := Timestamp(wall, k + 1, node);
      && Receive(NewClock(node), ToString(Timestamp(wall, k, remoteNode)), now)
        == Ok(Issued(Clock(wall, k + 1, node), ToString(mine)))
      && ToString(mine) == WallField(mine) + "_" + "1000000" + "_" + node
  {
    var remote := Timestamp(wall, k, remoteNode);
    ReceiveFormatted(NewClock(node), remote, now);
    MergeBehindRemote(NewClock(node), remote, now);
    MillionCounterString(wall, k + 1, node);
  }

  /** A counter of a million stands in full between the separators. */
  lemma MillionCounterString(wall: nat, m: nat, node: string)
    requires m == Decimal.Pow10(6)
    ensures var t := Timestamp(wall, m, node);
      ToString(t) == WallField(t) + "_" + "1000000" + "_" + node
  {
    var t := Timestamp(wall, m, node);
    ToStringShape(t);
    CounterFieldOfAMillion(m, wall, node);
  }
}
