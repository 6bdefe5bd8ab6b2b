/** Decimal text of integers as JavaScript's `String(n)` / template literals
    print them, `padStart(2, '0')`, and `Array.prototype.join`. The parsing
    functions are the inverse used to state that the text loses nothing. */
module NumText {

  predicate IsDigit(c: char) { '0' <= c <= '9' }

  predicate AllDigits(s: string) { forall i :: 0 <= i < |s| ==> IsDigit(s[i]) }

  function DigitChar(d: nat): (c: char)
    requires d < 10
    ensures IsDigit(c)
  {
    ['0', '1', '2', '3', '4', '5', '6', '7', '8', '9'][d]
  }

  function DigitValue(c: char): (d: nat)
    requires IsDigit(c)
    ensures d < 10
  {
    (c as int - '0' as int) as nat
  }

  lemma DigitRoundTrip(d: nat)
    requires d < 10
    ensures DigitValue(DigitChar(d)) == d
  {
  }

  /** Decimal digits of `n`, most significant first, without leading zeros. */
  function NatToString(n: nat): (s: string)
    ensures |s| >= 1 && AllDigits(s)
    ensures n >= 10 ==> s[0] != '0'
  {
    if n < 10 then [DigitChar(n)] else NatToString(n / 10) + [DigitChar(n % 10)]
  }

  /** `String(i)` for an integer: a minus sign, then the digits of `|i|`. */
  function IntToString(i: int): (s: string)
    ensures |s| >= 1
    ensures i >= 0 ==> AllDigits(s)
    ensures i < 0 ==> s[0] == '-' && AllDigits(s[1..])
  {
    if i < 0 then "-" + NatToString(-i) else NatToString(i)
  }

  function ParseNat(s: string): nat
    requires AllDigits(s)
  {
    if s == [] then 0 else ParseNat(s[..|s| - 1]) * 10 + DigitValue(s[|s| - 1])
  }

  function ParseInt(s: string): int
    requires |s| >= 1
    requires s[0] == '-' ==> AllDigits(s[1..])
    requires s[0] != '-' ==> AllDigits(s)
  {
    if s[0] == '-' then -(ParseNat(s[1..]) as int) else ParseNat(s)
  }

  lemma {:induction false} ParseNatToString(n: nat)
    ensures ParseNat(NatToString(n)) == n
  {
    if n >= 10 {
      var s := NatToString(n);
      assert s[..|s| - 1] == NatToString(n / 10);
      ParseNatToString(n / 10);
      DigitRoundTrip(n % 10);
    } else {
      DigitRoundTrip(n);
    }
  }

  /** The decimal text of an integer reads back as the same integer. */
  lemma IntToStringRoundTrip(i: int)
    ensures ParseInt(IntToString(i)) == i
  {
    if i < 0 {
      SignedRoundTrip(-i);
    } else {
      UnsignedRoundTrip(i);
    }
  }

  lemma SignedRoundTrip(n: nat)
    requires n > 0
    ensures ParseInt(IntToString(-(n as int))) == -(n as int)
  {
    var digits := NatToString(n);
    assert IntToString(-(n as int)) == "-" + digits;
    assert ("-" + digits)[0] == '-' && ("-" + digits)[1..] == digits;
    ParseNatToString(n);
  }

  lemma UnsignedRoundTrip(n: nat)
    ensures ParseInt(IntToString(n)) == n
  {
    var digits := NatToString(n);
    assert IntToString(n) == digits;
    assert IsDigit(digits[0]);
    ParseNatToString(n);
  }

  /** Different integers print differently. */
  lemma IntToStringInjective(i: int, j: int)
    requires IntToString(i) == IntToString(j)
    ensures i == j
  {
    IntToStringRoundTrip(i);
    IntToStringRoundTrip(j);
  }

  /** `s.padStart(2, '0')`. */
  function Pad2(s: string): (r: string)
    ensures |r| == if |s| >= 2 then |s| else 2
    ensures |s| >= 2 ==> r == s
    ensures |s| < 2 ==> r[2 - |s|..] == s && forall i :: 0 <= i < 2 - |s| ==> r[i] == '0'
  {
    if |s| >= 2 then s else seq(2 - |s|, _ => '0') + s
  }

  /** `parts.join(sep)`. */
  function Join(parts: seq<string>, sep: string): string
  {
    if parts == [] then ""
    else if |parts| == 1 then parts[0]
    else Join(parts[..|parts| - 1], sep) + sep + parts[|parts| - 1]
  }

  /** Occurrences of `c` in `s`. */
  function CharCount(s: string, c: char): nat
  {
    if s == [] then 0 else CharCount(s[..|s| - 1], c) + (if s[|s| - 1] == c then 1 else 0)
  }

  lemma {:induction false} CharCountConcat(s: string, t: string, c: char)
    ensures CharCount(s + t, c) == CharCount(s, c) + CharCount(t, c)
  {
    if t != [] {
      assert (s + t)[..|s + t| - 1] == s + t[..|t| - 1];
      CharCountConcat(s, t[..|t| - 1], c);
    } else {
      assert s + t == s;
    }
  }

  lemma {:induction false} CharCountAbsent(s: string, c: char)
    requires forall i :: 0 <= i < |s| ==> s[i] != c
    ensures CharCount(s, c) == 0
  {
    if s != [] {
      CharCountAbsent(s[..|s| - 1], c);
    }
  }

  /** Joining parts that do not contain `c` with a one-character separator
      `c` puts exactly `|parts| - 1` copies of `c` in the text. */
  lemma {:induction false} JoinCharCount(parts: seq<string>, c: char)
    requires parts != []
    requires forall k :: 0 <= k < |parts| ==> CharCount(parts[k], c) == 0
    ensures CharCount(Join(parts, [c]), c) == |parts| - 1
  {
    if |parts| > 1 {
      var init := parts[..|parts| - 1];
      JoinCharCount(init, c);
      CharCountConcat(Join(init, [c]), [c], c);
      CharCountConcat(Join(init, [c]) + [c], parts[|parts| - 1], c);
      assert CharCount([c], c) == 1 by {
        assert [c][..0] == [];
      }
    }
  }

  /** Joining parts that lack `c` with a separator that lacks `c` gives a text that lacks `c`. */
  lemma {:induction false} JoinCharAbsent(parts: seq<string>, sep: string, c: char)
    requires forall k :: 0 <= k < |parts| ==> CharCount(parts[k], c) == 0
    requires CharCount(sep, c) == 0
    ensures CharCount(Join(parts, sep), c) == 0
  {
    if |parts| > 1 {
      var init := parts[..|parts| - 1];
      JoinCharAbsent(init, sep, c);
      CharCountConcat(Join(init, sep), sep, c);
      CharCountConcat(Join(init, sep) + sep, parts[|parts| - 1], c);
    } else if |parts| == 0 {
      assert Join(parts, sep) == [];
    }
  }

  /** Decimal text holds no character other than digits and a leading minus. */
  lemma IntToStringHasNo(i: int, c: char)
    requires c != '-' && !IsDigit(c)
    ensures CharCount(IntToString(i), c) == 0
  {
    var s := IntToString(i);
    forall k | 0 <= k < |s| ensures s[k] != c {
      if i < 0 && k > 0 {
        assert s[k] == s[1..][k - 1];
      }
    }
    CharCountAbsent(s, c);
  }
}
