/**
  The string operations the menu planner relies on: rendering a non-negative
  integer in decimal (`str(n)`), zero-padding it to two digits (the `02d`
  format), and splitting or joining on a separator character (`str.split`,
  `str.join`). Each comes with the inverse that proves it loses nothing.
 */
module Text {

  predicate IsDigit(c: char) {
    '0' <= c <= '9'
  }

  predicate AllDigits(s: string) {
    forall i :: 0 <= i < |s| ==> IsDigit(s[i])
  }

  function DigitChar(d: nat): (c: char)
    requires d < 10
    ensures IsDigit(c) && c as int - '0' as int == d
  {
    (d + '0' as int) as char
  }

  function DigitValue(c: char): nat
    requires IsDigit(c)
  {
    c as int - '0' as int
  }

  /** `str(n)`: the shortest decimal numeral of `n` (no leading zero). */
  function Decimal(n: nat): (s: string)
    ensures |s| >= 1 && AllDigits(s)
    ensures n >= 10 ==> |s| >= 2
    ensures s[0] == '0' ==> n == 0
  {
    if n < 10 then [DigitChar(n)] else Decimal(n / 10) + [DigitChar(n % 10)]
  }

  /** The value of a numeral, most significant digit first. */
  function ParseDecimal(s: string): nat
    requires AllDigits(s)
  {
    if |s| == 0 then 0
    else 10 * ParseDecimal(s[..|s| - 1]) + DigitValue(s[|s| - 1])
  }

  lemma {:induction false} DecimalRoundTrip(n: nat)
    ensures ParseDecimal(Decimal(n)) == n
  {
    var s := Decimal(n);
    if n >= 10 {
      assert s[..|s| - 1] == Decimal(n / 10);
      DecimalRoundTrip(n / 10);
    } else {
      assert s[..|s| - 1] == [];
    }
  }

  /** Leading zeros do not change the value of a numeral. */
  lemma {:induction false} LeadingZero(s: string)
    requires AllDigits(s)
    ensures AllDigits("0" + s) && ParseDecimal("0" + s) == ParseDecimal(s)
  {
    var t := "0" + s;
    if |s| > 0 {
      assert t[..|t| - 1] == "0" + s[..|s| - 1];
      LeadingZero(s[..|s| - 1]);
    } else {
      assert t[..|t| - 1] == "";
    }
  }

  /** `f"{n:02d}"`: the decimal numeral of `n`, padded on the left with
      zeros to at least two characters. */
  function ZeroPad2(n: nat): string
  {
    var d := Decimal(n);
    if |d| < 2 then "0" + d else d
  }

  /** The padded numeral is all digits, at least two of them (exactly two
      below 100), and reads back as `n`. */
  lemma ZeroPad2RoundTrip(n: nat)
    ensures |ZeroPad2(n)| >= 2 && AllDigits(ZeroPad2(n))
    ensures n < 100 ==> |ZeroPad2(n)| == 2
    ensures ParseDecimal(ZeroPad2(n)) == n
  {
    DecimalRoundTrip(n);
    if n < 10 {
      LeadingZero(Decimal(n));
    } else if n < 100 {
      assert Decimal(n) == Decimal(n / 10) + [DigitChar(n % 10)];
    }
  }

  /** The index of the last occurrence of `sep` in `s`. */
  function LastIndexOf(s: string, sep: char): (i: nat)
    requires sep in s
    ensures i < |s| && s[i] == sep && sep !in s[i + 1..]
  {
    if s[|s| - 1] == sep then |s| - 1
    else
      assert sep in s[..|s| - 1] by {
        var k :| 0 <= k < |s| && s[k] == sep;
        assert s[..|s| - 1][k] == sep;
      }
      var i := LastIndexOf(s[..|s| - 1], sep);
      assert s[i + 1..] == s[..|s| - 1][i + 1..] + [s[|s| - 1]];
      i
  }

  /** `s.split(sep)`: the maximal separator-free pieces of `s`, in order;
      a string with k separators has k + 1 pieces, some possibly empty.
      Defined by peeling off the last piece, which is what the slot-key
      decoding drops. */
  function Split(s: string, sep: char): (pieces: seq<string>)
    ensures |pieces| >= 1
    decreases |s|
  {
    if sep !in s then [s]
    else
      var i := LastIndexOf(s, sep);
      Split(s[..i], sep) + [s[i + 1..]]
  }

  /** `sep.join(pieces)`. */
  function Join(pieces: seq<string>, sep: char): string
  {
    if |pieces| == 0 then ""
    else if |pieces| == 1 then pieces[0]
    else Join(pieces[..|pieces| - 1], sep) + [sep] + pieces[|pieces| - 1]
  }

  /** Joining the pieces of a split restores the string. */
  lemma {:induction false} JoinSplit(s: string, sep: char)
    ensures Join(Split(s, sep), sep) == s
    decreases |s|
  {
    if sep in s {
      var i := LastIndexOf(s, sep);
      var front := Split(s[..i], sep);
      JoinSplit(s[..i], sep);
      assert (front + [s[i + 1..]])[..|front|] == front;
      assert s == s[..i] + [sep] + s[i + 1..];
    }
  }

  /** A separator followed by a separator-free tail splits off exactly that
      tail as the last piece. */
  lemma SplitLast(a: string, sep: char, d: string)
    requires sep !in d
    ensures Split(a + [sep] + d, sep) == Split(a, sep) + [d]
  {
    var s := a + [sep] + d;
    assert s[|a|] == sep;
    var i := LastIndexOf(s, sep);
    assert i == |a|;
    assert s[..i] == a && s[i + 1..] == d;
  }
}
