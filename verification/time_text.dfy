/**
 The string handling the calendar page relies on: decimal digits, `Number(...)` on a
 digit string, `toString()` and `padStart`, `split(":")[0]`, code-point order of
 strings, and the zero-padded "HH:mm" time format.
 */
module TimeText {

  predicate IsDigit(c: char)
  {
    '0' <= c <= '9'
  }

  predicate AllDigits(s: string)
  {
    forall i :: 0 <= i < |s| ==> IsDigit(s[i])
  }

  function DigitValue(c: char): (d: int)
    requires IsDigit(c)
    ensures 0 <= d <= 9
  {
    c as int - '0' as int
  }

  function DigitChar(d: int): (c: char)
    requires 0 <= d <= 9
    ensures IsDigit(c) && DigitValue(c) == d
  {
    ('0' as int + d) as char
  }

  function Pow10(k: nat): (p: nat)
    ensures p >= 1
  {
    if k == 0 then 1 else 10 * Pow10(k - 1)
  }

  /** `Number(s)` for a non-empty string of decimal digits. */
  function DecimalValue(s: string): (n: nat)
    requires AllDigits(s)
    ensures n < Pow10(|s|)
    ensures s != [] ==> n % 10 == DigitValue(s[|s| - 1])
  {
    if s == [] then 0
    else DecimalValue(s[..|s| - 1]) * 10 + DigitValue(s[|s| - 1])
  }

  /** `n.toString()` for a non-negative integer. */
  function ToDecimal(n: nat): (s: string)
    ensures 1 <= |s|
    ensures AllDigits(s)
    ensures DecimalValue(s) == n
    ensures n < 10 <==> |s| == 1
    ensures 10 <= n < 100 ==> |s| == 2
    ensures 1 < |s| ==> s[0] != '0'
  {
    if n < 10 then [DigitChar(n)]
    else
      var s := ToDecimal(n / 10) + [DigitChar(n % 10)];
      assert s[..|s| - 1] == ToDecimal(n / 10);
      s
  }

  /** `s.padStart(width, fill)`: `fill` repeated on the left up to `width` characters. */
  function PadStart(s: string, width: nat, fill: char): (r: string)
    ensures |r| == if |s| < width then width else |s|
    ensures r[|r| - |s|..] == s
    ensures forall i :: 0 <= i < |r| - |s| ==> r[i] == fill
  {
    if |s| >= width then s else seq(width - |s|, _ => fill) + s
  }

  /** `s.split(sep)[0]`: everything before the first `sep`, or all of `s` when there is none. */
  function BeforeFirst(s: string, sep: char): (p: string)
    ensures p <= s
    ensures sep !in p
    ensures |p| < |s| ==> s[|p|] == sep
  {
    if s == [] || s[0] == sep then [] else [s[0]] + BeforeFirst(s[1..], sep)
  }

  /**
   Code-point lexicographic order, as `localeCompare(...) <= 0` on the strings the page
   compares: `a` sorts no later than `b` exactly when it is a prefix of `b` or, at the
   first position where they differ, has the smaller character.
   */
  function LexLe(a: string, b: string): (le: bool)
    ensures a <= b ==> le
    ensures le && b <= a ==> a == b
  {
    if a == [] then true
    else if b == [] then false
    else if a[0] != b[0] then a[0] < b[0]
    else LexLe(a[1..], b[1..])
  }

  /** Antisymmetry: two strings each sorting at or before the other are equal. */
  lemma {:induction false} LexLeAntisymmetric(a: string, b: string)
    requires LexLe(a, b) && LexLe(b, a)
    ensures a == b
  {
    if a != [] && b != [] && a[0] == b[0] {
      LexLeAntisymmetric(a[1..], b[1..]);
      assert a == [a[0]] + a[1..] && b == [b[0]] + b[1..];
    }
  }

  /** `LexLe` is the textbook lexicographic order: a prefix, or a smaller character at the first difference. */
  lemma {:induction false} LexLeFirstDifference(a: string, b: string)
    ensures LexLe(a, b) <==> a <= b || exists k :: 0 <= k < |a| && k < |b| && a[..k] == b[..k] && a[k] < b[k]
  {
    if a != [] && b != [] && a[0] == b[0] {
      LexLeFirstDifference(a[1..], b[1..]);
      LexTail(a, b);
    } else if a != [] && b != [] {
      assert a[..0] == b[..0];
    }
  }

  /** A first difference after a shared first character is a first difference of the tails. */
  lemma LexTail(a: string, b: string)
    requires a != [] && b != [] && a[0] == b[0]
    ensures a <= b <==> a[1..] <= b[1..]
    ensures (exists k :: 0 <= k < |a| && k < |b| && a[..k] == b[..k] && a[k] < b[k]) <==>
            (exists k :: 0 <= k < |a| - 1 && k < |b| - 1 && a[1..][..k] == b[1..][..k] && a[1..][k] < b[1..][k])
  {
    if a <= b {
      assert a[1..] == b[..|a|][1..];
    }
    if a[1..] <= b[1..] {
      assert a == [a[0]] + a[1..] && b[..|a|] == [b[0]] + b[1..][..|a| - 1];
    }
    if k :| 0 <= k < |a| && k < |b| && a[..k] == b[..k] && a[k] < b[k] {
      assert k != 0;
      assert a[1..][..k - 1] == a[..k][1..] && b[1..][..k - 1] == b[..k][1..];
    }
    if k :| 0 <= k < |a| - 1 && k < |b| - 1 && a[1..][..k] == b[1..][..k] && a[1..][k] < b[1..][k] {
      assert a[..k + 1] == [a[0]] + a[1..][..k] && b[..k + 1] == [b[0]] + b[1..][..k];
    }
  }

  /** A zero-padded "HH:mm" time of day: HH in 00..23, mm in 00..59. */
  predicate WellFormedTime(s: string)
  {
    && |s| == 5
    && IsDigit(s[0]) && IsDigit(s[1]) && s[2] == ':' && IsDigit(s[3]) && IsDigit(s[4])
    && DigitValue(s[0]) * 10 + DigitValue(s[1]) <= 23
    && DigitValue(s[3]) <= 5
  }

  /** `Number(time.split(":")[0])` on a well-formed time: its hour. */
  function HourField(time: string): (h: nat)
    requires WellFormedTime(time)
    ensures h <= 23
    ensures h == DigitValue(time[0]) * 10 + DigitValue(time[1])
  {
    var head := BeforeFirst(time, ':');
    assert head == time[..2] by {
      assert ':' !in time[..2];
      PrefixBeforeSeparator(time, head, 2, ':');
    }
    TwoDigitValue(head);
    DecimalValue(head)
  }

  /** `Number` of a two-digit string, leading zero included. */
  lemma TwoDigitValue(s: string)
    requires |s| == 2 && AllDigits(s)
    ensures DecimalValue(s) == DigitValue(s[0]) * 10 + DigitValue(s[1])
  {
    var first := s[..1];
    assert first[..0] == [];
    assert DecimalValue(first) == DigitValue(s[0]);
    assert s[..|s| - 1] == first;
  }

  /** The minutes field of a well-formed time. */
  function MinuteField(time: string): (m: nat)
    requires WellFormedTime(time)
    ensures m <= 59
  {
    DigitValue(time[3]) * 10 + DigitValue(time[4])
  }

  /** Minutes since midnight named by a well-formed time. */
  function MinuteOfDay(time: string): (m: nat)
    requires WellFormedTime(time)
    ensures m < 24 * 60
  {
    HourField(time) * 60 + MinuteField(time)
  }

  /**
   Two prefixes of `s` that both end just before `sep` (or at the end of `s`) and do
   not contain `sep` are the same prefix.
   */
  lemma PrefixBeforeSeparator(s: string, p: string, k: nat, sep: char)
    requires p <= s && sep !in p && (|p| < |s| ==> s[|p|] == sep)
    requires k <= |s| && sep !in s[..k] && (k < |s| ==> s[k] == sep)
    ensures p == s[..k]
  {
  }

  /** Four digit positions decide the code-point order of two well-formed times. */
  lemma LexLeTimes(a: string, b: string)
    requires WellFormedTime(a) && WellFormedTime(b)
    ensures LexLe(a, b) <==>
              (a[0] < b[0] || (a[0] == b[0] && (a[1] < b[1] || (a[1] == b[1] &&
              (a[3] < b[3] || (a[3] == b[3] && a[4] <= b[4]))))))
  {
    assert a[1..][1..] == a[2..] && b[1..][1..] == b[2..];
    assert a[2..][1..] == a[3..] && b[2..][1..] == b[3..];
    assert a[3..][1..] == a[4..] && b[3..][1..] == b[4..];
    assert a[4..][1..] == [] && b[4..][1..] == [];
    assert LexLe(a[4..], b[4..]) <==> a[4] <= b[4];
    assert LexLe(a[3..], b[3..]) <==> (a[3] < b[3] || (a[3] == b[3] && a[4] <= b[4]));
    assert LexLe(a[2..], b[2..]) <==> LexLe(a[3..], b[3..]);
  }

  /** For zero-padded "HH:mm" times, string order is chronological order. */
  lemma LexLeIsChronological(a: string, b: string)
    requires WellFormedTime(a) && WellFormedTime(b)
    ensures LexLe(a, b) <==> MinuteOfDay(a) <= MinuteOfDay(b)
  {
    LexLeTimes(a, b);
  }
}
