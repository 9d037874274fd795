/** The handful of JavaScript string primitives the prayer-time code leans on:
    `Number.prototype.toString` for non-negative integers, `padStart(2, '0')`,
    digit parsing (`Number` / `parseInt` on digit strings), `indexOf`,
    `toLowerCase` on ASCII letters and `includes`. */
module Text {
  import opened Wrappers

  predicate IsDigit(c: char) {
    '0' <= c <= '9'
  }

  predicate AllDigits(s: string) {
    forall i :: 0 <= i < |s| ==> IsDigit(s[i])
  }

  function DigitValue(c: char): (d: nat)
    requires IsDigit(c)
    ensures d < 10
  {
    c as int - '0' as int
  }

  function DigitChar(d: nat): (c: char)
    requires d < 10
    ensures IsDigit(c) && DigitValue(c) == d
  {
    ('0' as int + d) as char
  }

  /** Decimal rendering without leading zeros, as `n.toString()` does. */
  function NatToString(n: nat): (s: string)
    ensures 1 <= |s| && AllDigits(s)
    ensures |s| == 1 <==> n < 10
    ensures |s| > 1 ==> s[0] != '0'
    decreases n
  {
    if n < 10 then [DigitChar(n)] else NatToString(n / 10) + [DigitChar(n % 10)]
  }

  /** Value of a string of decimal digits (`Number("0705") == 705`). */
  function ParseDigits(s: string): (n: nat)
    requires AllDigits(s)
    decreases |s|
  {
    if |s| == 0 then 0 else ParseDigits(s[..|s| - 1]) * 10 + DigitValue(s[|s| - 1])
  }

  lemma {:induction false} ParseNatToString(n: nat)
    ensures ParseDigits(NatToString(n)) == n
    decreases n
  {
    if n >= 10 {
      var s := NatToString(n);
      assert s[..|s| - 1] == NatToString(n / 10);
      ParseNatToString(n / 10);
    }
  }

  /** Leading zeros do not change the value of a digit string. */
  lemma {:induction false} ParseLeadingZero(s: string)
    requires AllDigits(s)
    ensures ParseDigits("0" + s) == ParseDigits(s)
    decreases |s|
  {
    if |s| > 0 {
      var t := "0" + s;
      assert t[..|t| - 1] == "0" + s[..|s| - 1];
      ParseLeadingZero(s[..|s| - 1]);
    }
  }

  /** `n.toString().padStart(2, '0')`: one leading zero below ten, otherwise
      unchanged (three digits stay three digits). */
  function Pad2(n: nat): (s: string)
    ensures AllDigits(s) && 2 <= |s|
    ensures n < 100 <==> |s| == 2
    ensures ParseDigits(s) == n
  {
    var d := NatToString(n);
    ParseNatToString(n);
    if |d| < 2 then (ParseLeadingZero(d); "0" + d) else d
  }

  /** `i.toString()` for any integer, with a leading minus sign below zero. */
  function IntToString(i: int): (s: string)
    ensures 1 <= |s|
    ensures i >= 0 <==> AllDigits(s)
    ensures i < 0 ==> s[0] == '-' && s[1..] == NatToString(-i)
  {
    if i < 0 then
      var s := "-" + NatToString(-i);
      assert !IsDigit(s[0]);
      s
    else NatToString(i)
  }

  /** Position of the first `c` in `s` (`s.indexOf(c)`), None when absent. */
  function IndexOf(s: string, c: char): (r: Option<nat>)
    ensures r.Some? ==> r.value < |s| && s[r.value] == c
    ensures r.Some? ==> forall j :: 0 <= j < r.value ==> s[j] != c
    ensures r.None? ==> forall j :: 0 <= j < |s| ==> s[j] != c
    decreases |s|
  {
    if |s| == 0 then None
    else if s[0] == c then Some(0)
    else match IndexOf(s[1..], c)
      case None => None
      case Some(k) => Some(k + 1)
  }

  /** The first piece of `s.split(c)`: everything before the first `c`. */
  function FirstPiece(s: string, c: char): (p: string)
    ensures p <= s
    ensures forall j :: 0 <= j < |p| ==> p[j] != c
    ensures |p| < |s| ==> s[|p|] == c
  {
    match IndexOf(s, c)
    case None => s
    case Some(k) => s[..k]
  }

  /** What follows the first `c` in `s`, or None when `s` holds no `c`
      (the remaining pieces of `s.split(c)`, re-joined). */
  function AfterFirst(s: string, c: char): (r: Option<string>)
    ensures r.None? <==> |FirstPiece(s, c)| == |s|
    ensures r.Some? ==> s == FirstPiece(s, c) + [c] + r.value
  {
    match IndexOf(s, c)
    case None => None
    case Some(k) => Some(s[k + 1..])
  }

  lemma {:induction false} IndexOfJoin(a: string, c: char, b: string)
    requires forall j :: 0 <= j < |a| ==> a[j] != c
    ensures IndexOf(a + [c] + b, c) == Some(|a|)
    decreases |a|
  {
    if |a| > 0 {
      assert (a + [c] + b)[1..] == a[1..] + [c] + b;
      IndexOfJoin(a[1..], c, b);
    }
  }

  lemma FirstPieceOfJoin(a: string, c: char, b: string)
    requires forall j :: 0 <= j < |a| ==> a[j] != c
    ensures FirstPiece(a + [c] + b, c) == a
    ensures AfterFirst(a + [c] + b, c) == Some(b)
  {
    IndexOfJoin(a, c, b);
  }

  lemma {:induction false} IndexOfDigits(s: string, c: char)
    requires AllDigits(s) && !IsDigit(c)
    ensures IndexOf(s, c) == None
    decreases |s|
  {
    if |s| > 0 {
      IndexOfDigits(s[1..], c);
    }
  }

  lemma FirstPieceOfDigits(s: string, c: char)
    requires AllDigits(s) && !IsDigit(c)
    ensures FirstPiece(s, c) == s
    ensures AfterFirst(s, c) == None
  {
    IndexOfDigits(s, c);
  }

  /** The longest run of digits at the start of `s`. */
  function LeadingDigits(s: string): (d: string)
    ensures d <= s && AllDigits(d)
    ensures |d| < |s| ==> !IsDigit(s[|d|])
    decreases |s|
  {
    if |s| > 0 && IsDigit(s[0]) then [s[0]] + LeadingDigits(s[1..]) else ""
  }

  lemma {:induction false} LeadingDigitsOfDigits(s: string)
    requires AllDigits(s)
    ensures LeadingDigits(s) == s
    decreases |s|
  {
    if |s| > 0 {
      LeadingDigitsOfDigits(s[1..]);
    }
  }

  /** `parseInt(s)` in base ten: an optional sign followed by at least one
      digit, reading as far as the digits go; None stands for NaN. */
  function ParseInt(s: string): (r: Option<int>)
    ensures AllDigits(s) && |s| > 0 ==> r == Some(ParseDigits(s))
  {
    var negative := |s| > 0 && s[0] == '-';
    var body := if |s| > 0 && (s[0] == '-' || s[0] == '+') then s[1..] else s;
    var digits := LeadingDigits(body);
    assert AllDigits(s) && |s| > 0 ==> digits == s by {
      if AllDigits(s) && |s| > 0 {
        LeadingDigitsOfDigits(s);
      }
    }
    if |digits| == 0 then None
    else
      var v: int := ParseDigits(digits);
      Some(if negative then -v else v)
  }

  /** A minus sign followed by the digits `t` of `n` reads as `-n`. */
  lemma ParseIntNegative(s: string, t: string, n: nat)
    requires |s| > 1 && s[0] == '-' && s[1..] == t
    requires AllDigits(t) && ParseDigits(t) == n
    ensures ParseInt(s) == Some(-(n as int))
  {
    LeadingDigitsOfDigits(t);
  }

  lemma ParseIntOfNat(n: nat)
    ensures ParseInt(NatToString(n)) == Some(n)
  {
    ParseNatToString(n);
  }

  lemma ParseIntOfNegative(i: int)
    requires i < 0
    ensures ParseInt(IntToString(i)) == Some(i)
  {
    ParseNatToString(-i);
    ParseIntNegative(IntToString(i), NatToString(-i), -i);
  }

  /** `parseInt` reads back what `String(i)` wrote. */
  lemma ParseIntToString(i: int)
    ensures ParseInt(IntToString(i)) == Some(i)
  {
    if i < 0 {
      ParseIntOfNegative(i);
    } else {
      ParseIntOfNat(i);
    }
  }

  /** A number's text holds only digits and a leading minus sign. */
  lemma IntToStringChars(i: int)
    ensures forall j :: 0 <= j < |IntToString(i)| ==> IsDigit(IntToString(i)[j]) || IntToString(i)[j] == '-'
  {
    var s := IntToString(i);
    if i < 0 {
      forall j | 1 <= j < |s|
        ensures IsDigit(s[j])
      {
        assert s[j] == s[1..][j - 1];
      }
    }
  }

  /** ASCII case folding, the part of `toLowerCase` the prayer names need. */
  function LowerChar(c: char): char {
    if 'A' <= c <= 'Z' then (c as int + 32) as char else c
  }

  function Lower(s: string): (r: string)
    ensures |r| == |s|
    ensures forall i :: 0 <= i < |s| ==> r[i] == LowerChar(s[i])
    decreases |s|
  {
    if |s| == 0 then "" else [LowerChar(s[0])] + Lower(s[1..])
  }

  lemma LowerIdempotent(s: string)
    ensures Lower(Lower(s)) == Lower(s)
  {
    var l := Lower(s);
    assert forall i :: 0 <= i < |l| ==> Lower(l)[i] == l[i];
  }

  /** `t` occurs in `s` starting at position `i`. */
  ghost predicate OccursAt(s: string, t: string, i: int) {
    0 <= i && i + |t| <= |s| && s[i..i + |t|] == t
  }

  lemma OccursShift(s: string, t: string, i: int)
    requires |s| > 0 && 0 <= i
    ensures OccursAt(s[1..], t, i) <==> OccursAt(s, t, i + 1)
  {
    if i + |t| <= |s| - 1 {
      assert s[1..][i..i + |t|] == s[i + 1..i + 1 + |t|];
    }
  }

  /** `s.includes(t)`, by scanning the suffixes of `s`. */
  function Contains(s: string, t: string): bool
    decreases |s|
  {
    t <= s || (|s| > 0 && Contains(s[1..], t))
  }

  lemma {:induction false} ContainsIff(s: string, t: string)
    ensures Contains(s, t) <==> exists i :: OccursAt(s, t, i)
    decreases |s|
  {
    if Contains(s, t) {
      if t <= s {
        assert OccursAt(s, t, 0);
      } else {
        ContainsIff(s[1..], t);
        var i :| OccursAt(s[1..], t, i);
        OccursShift(s, t, i);
      }
    }
    if exists i :: OccursAt(s, t, i) {
      var i :| OccursAt(s, t, i);
      if i == 0 {
        assert t <= s;
      } else {
        OccursShift(s, t, i - 1);
        ContainsIff(s[1..], t);
      }
    }
  }
}
