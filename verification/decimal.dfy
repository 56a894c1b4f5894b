/**
 * Decimal digit strings: `Number.prototype.toString()` on a non-negative
 * integer, `String.prototype.padStart(width, '0')`, and `parseInt(s, 10)`.
 */
module Decimal {
  import opened Common
  import LexOrder
  import Text

  predicate IsDigit(c: char)
  {
    '0' <= c <= '9'
  }

  predicate AllDigits(s: string)
  {
    forall i :: 0 <= i < |s| ==> IsDigit(s[i])
  }

  function DigitValue(c: char): nat
    requires IsDigit(c)
  {
    c as int - '0' as int
  }

  function DigitChar(d: nat): (c: char)
    requires d < 10
    ensures IsDigit(c) && DigitValue(c) == d
  {
    ('0' as int + d) as char
  }

  function Pow10(k: nat): (p: nat)
    ensures p >= 1
  {
    if k == 0 then 1 else 10 * Pow10(k - 1)
  }

  /** The number a digit string denotes, most significant digit first. */
  function Value(s: string): nat
    requires AllDigits(s)
    decreases |s|
  {
    if |s| == 0 then 0 else DigitValue(s[0]) * Pow10(|s| - 1) + Value(s[1..])
  }

  /** The shortest decimal spelling of `n`, as JavaScript prints it. */
  function ToDecimal(n: nat): (s: string)
    ensures AllDigits(s) && |s| >= 1
    ensures |s| > 1 ==> s[0] != '0'
    decreases n
  {
    if n < 10 then [DigitChar(n)] else ToDecimal(n / 10) + [DigitChar(n % 10)]
  }

  function Zeros(k: nat): (z: string)
    ensures |z| == k && AllDigits(z)
    ensures forall i :: 0 <= i < k ==> z[i] == '0'
  {
    seq(k, _ => '0')
  }

  /**
   * `s.padStart(width, '0')`: zeros are added in front until the width is
   * reached; a longer string is left whole, never truncated.
   */
  function PadStart(s: string, width: nat): (r: string)
    ensures |r| == if |s| >= width then |s| else width
    ensures r[|r| - |s|..] == s
    ensures forall i :: 0 <= i < |r| - |s| ==> r[i] == '0'
  {
    if |s| >= width then s else Zeros(width - |s|) + s
  }

  lemma {:induction false} ValueBound(s: string)
    requires AllDigits(s)
    ensures Value(s) < Pow10(|s|)
    decreases |s|
  {
    if |s| > 0 {
      ValueBound(s[1..]);
      var d, p, v := DigitValue(s[0]), Pow10(|s| - 1), Value(s[1..]);
      assert Value(s) == d * p + v;
      MulMonotone(d, 9, p);
      assert Pow10(|s|) == 10 * p;
    }
  }

  /** Appending a digit shifts the value one place to the left. */
  lemma {:induction false} ValueSnoc(s: string, c: char)
    requires AllDigits(s) && IsDigit(c)
    ensures AllDigits(s + [c])
    ensures Value(s + [c]) == 10 * Value(s) + DigitValue(c)
    decreases |s|
  {
    var t := s + [c];
    assert AllDigits(t);
    if |s| > 0 {
      var d, p, v := DigitValue(s[0]), Pow10(|s| - 1), Value(s[1..]);
      assert t[0] == s[0] && t[1..] == s[1..] + [c];
      ValueSnoc(s[1..], c);
      assert Pow10(|t| - 1) == 10 * p;
      assert Value(t) == d * (10 * p) + (10 * v + DigitValue(c));
      ShiftLeft(d, p);
    } else {
      assert t == [c];
    }
  }

  lemma ShiftLeft(d: nat, p: nat)
    ensures d * (10 * p) == 10 * (d * p)
  {
  }

  /** Reading back the decimal spelling of `n` gives `n`. */
  lemma {:induction false} ValueOfToDecimal(n: nat)
    ensures Value(ToDecimal(n)) == n
    decreases n
  {
    if n >= 10 {
      ValueOfToDecimal(n / 10);
      ValueSnoc(ToDecimal(n / 10), DigitChar(n % 10));
    }
  }

  /** Leading zeros do not change the value. */
  lemma {:induction false} ValueLeadingZeros(k: nat, s: string)
    requires AllDigits(s)
    ensures AllDigits(Zeros(k) + s)
    ensures Value(Zeros(k) + s) == Value(s)
    decreases k
  {
    var t := Zeros(k) + s;
    assert AllDigits(t);
    if k == 0 {
      assert t == s;
    } else {
      assert t[0] == '0' && t[1..] == Zeros(k - 1) + s;
      ValueLeadingZeros(k - 1, s);
      assert DigitValue(t[0]) == 0;
      assert Value(t) == Value(t[1..]);
    }
  }

  /** Padding with zeros keeps the value. */
  lemma ValueOfPadStart(s: string, width: nat)
    requires AllDigits(s)
    ensures AllDigits(PadStart(s, width))
    ensures Value(PadStart(s, width)) == Value(s)
  {
    if |s| < width {
      ValueLeadingZeros(width - |s|, s);
    }
  }

  /** `n` fits in `k` digits exactly when it is below `10^k`. */
  lemma {:induction false} ToDecimalLength(n: nat, k: nat)
    requires k >= 1
    ensures |ToDecimal(n)| <= k <==> n < Pow10(k)
    decreases n
  {
    if n < Pow10(k) {
      if n >= 10 {
        assert n / 10 < Pow10(k - 1);
        ToDecimalLength(n / 10, k - 1);
      }
    } else {
      ValueOfToDecimal(n);
      ValueBound(ToDecimal(n));
      if |ToDecimal(n)| <= k {
        PowMonotone(|ToDecimal(n)|, k);
      }
    }
  }

  lemma {:induction false} PowMonotone(i: nat, j: nat)
    requires i <= j
    ensures Pow10(i) <= Pow10(j)
    decreases j
  {
    if i < j {
      PowMonotone(i, j - 1);
    }
  }

  /** The leading digit bounds the value from above and below. */
  lemma LeadingDigitBounds(a: string)
    requires AllDigits(a) && |a| > 0
    ensures DigitValue(a[0]) * Pow10(|a| - 1) <= Value(a)
    ensures Value(a) < (DigitValue(a[0]) + 1) * Pow10(|a| - 1)
  {
    ValueBound(a[1..]);
    Between(DigitValue(a[0]), Pow10(|a| - 1), Value(a[1..]));
  }

  lemma Between(d: nat, p: nat, r: nat)
    requires r < p
    ensures d * p <= d * p + r < (d + 1) * p
  {
  }

  /** A larger leading digit outweighs everything after it. */
  lemma LeadingDigitDominates(a: string, b: string)
    requires AllDigits(a) && AllDigits(b) && |a| == |b| > 0
    requires DigitValue(a[0]) < DigitValue(b[0])
    ensures Value(a) < Value(b)
  {
    LeadingDigitBounds(a);
    LeadingDigitBounds(b);
    MulMonotone(DigitValue(a[0]) + 1, DigitValue(b[0]), Pow10(|a| - 1));
  }

  lemma MulMonotone(x: nat, y: nat, p: nat)
    requires x <= y
    ensures x * p <= y * p
  {
  }

  /** On digit strings of one length, string order is numeric order. */
  lemma {:induction false} LessIsNumericLess(a: string, b: string)
    requires AllDigits(a) && AllDigits(b) && |a| == |b|
    ensures LexOrder.Less(a, b) <==> Value(a) < Value(b)
    ensures a == b <==> Value(a) == Value(b)
    decreases |a|
  {
    if |a| > 0 {
      if a[0] == b[0] {
        LessIsNumericLess(a[1..], b[1..]);
        if a[1..] == b[1..] {
          assert a == [a[0]] + a[1..] && b == [b[0]] + b[1..];
        }
      } else if a[0] < b[0] {
        LeadingDigitDominates(a, b);
      } else {
        LeadingDigitDominates(b, a);
      }
    }
  }

  /** Length of the run of digits at the front of `s`. */
  function DigitRun(s: string): (k: nat)
    ensures k <= |s| && AllDigits(s[..k])
    ensures k < |s| ==> !IsDigit(s[k])
    decreases |s|
  {
    if |s| > 0 && IsDigit(s[0]) then
      var k := 1 + DigitRun(s[1..]);
      assert s[..k] == [s[0]] + s[1..][..k - 1];
      k
    else 0
  }

  /**
   * `parseInt(s, 10)`: leading whitespace is skipped, then one `+` or `-`
   * is read, then the run of digits; what follows the run is ignored. No
   * digit there gives NaN, which is `None` here.
   */
  function ParseInt(s: string): (r: Option<int>)
    ensures |s| > 0 && IsDigit(s[0]) ==> r == ParseDigits(s)
    ensures AllDigits(s) && |s| > 0 ==> r == Some(Value(s))
  {
    DigitStart(s);
    ParseSigned(Text.TrimStart(s))
  }

  lemma DigitStart(s: string)
    ensures |s| > 0 && IsDigit(s[0]) ==> Text.TrimStart(s) == s && ParseSigned(s) == ParseDigits(s)
    ensures AllDigits(s) && |s| > 0 ==> ParseDigits(s) == Some(Value(s))
  {
    if |s| > 0 && IsDigit(s[0]) {
      DigitIsNotWhitespace(s[0]);
      UntrimmedStart(s);
    }
    if AllDigits(s) && |s| > 0 {
      assert DigitRun(s) == |s| && s[..|s|] == s;
    }
  }

  /** A string that starts with no digit, whitespace or sign reads as NaN. */
  lemma ParseIntNaN(s: string)
    requires |s| == 0 || (!IsDigit(s[0]) && !Text.IsWhitespace(s[0]) && !IsSign(s[0]))
    ensures ParseInt(s) == None
  {
    if |s| > 0 {
      UntrimmedStart(s);
    }
  }

  lemma DigitIsNotWhitespace(c: char)
    requires IsDigit(c)
    ensures !Text.IsWhitespace(c)
  {
  }

  lemma UntrimmedStart(s: string)
    requires |s| > 0 && !Text.IsWhitespace(s[0])
    ensures Text.TrimStart(s) == s
  {
  }

  predicate IsSign(c: char)
  {
    c == '+' || c == '-'
  }

  /** The optional sign, then the digits. */
  function ParseSigned(t: string): Option<int>
  {
    if |t| > 0 && IsSign(t[0]) then
      match ParseDigits(t[1..])
      case None => None
      case Some(v) => Some(if t[0] == '-' then -(v as int) else v)
    else ParseDigits(t)
  }

  /** The value of the leading digit run, if there is one. */
  function ParseDigits(b: string): (r: Option<nat>)
    ensures r.Some? <==> |b| > 0 && IsDigit(b[0])
  {
    var k := DigitRun(b);
    if k == 0 then None else Some(Value(b[..k]))
  }

  /** Leading whitespace does not change what `parseInt` reads. */
  lemma ParseIntSkipsWhitespace(w: string, x: string)
    requires Text.Blank(w)
    ensures ParseInt(w + x) == ParseInt(x)
  {
    TrimStartOfBlank(w, x);
  }

  lemma {:induction false} TrimStartOfBlank(w: string, x: string)
    requires Text.Blank(w)
    ensures Text.TrimStart(w + x) == Text.TrimStart(x)
    decreases |w|
  {
    if |w| == 0 {
      assert w + x == x;
    } else {
      assert (w + x)[0] == w[0] && (w + x)[1..] == w[1..] + x;
      assert Text.Blank(w[1..]) by {
        forall i | 0 <= i < |w| - 1 ensures Text.IsWhitespace(w[1..][i]) {
          assert w[1..][i] == w[i + 1];
        }
      }
      TrimStartOfBlank(w[1..], x);
    }
  }

  /**
   * A sign in front: `+` keeps the value of the digits that follow it
   * directly and `-` negates it; a sign with no digit right after it gives
   * NaN. By the first postcondition of `ParseInt`, digits on their own
   * read as that same unsigned value.
   */
  lemma ParseIntSign(sign: char, x: string)
    requires IsSign(sign)
    ensures ParseInt([sign] + x) ==
      match ParseDigits(x)
      case None => None
      case Some(v) => Some(if sign == '-' then -(v as int) else v)
  {
    var s := [sign] + x;
    assert s[0] == sign && s[1..] == x;
    UntrimmedStart(s);
  }
}
