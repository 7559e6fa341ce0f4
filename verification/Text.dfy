/** Strings as Go and TypeScript compare and print them. */
module Text {

  function Digit(d: nat): (c: char)
    requires d < 10
    ensures '0' <= c <= '9'
  {
    '0' + d as char
  }

  /** The `%d` rendering of a natural number. */
  function Decimal(n: nat): (s: string)
    ensures |s| > 0
    ensures forall i :: 0 <= i < |s| ==> '0' <= s[i] <= '9'
  {
    if n < 10 then [Digit(n)] else Decimal(n / 10) + [Digit(n % 10)]
  }

  lemma {:induction false} DecimalInjective(m: nat, n: nat)
    requires Decimal(m) == Decimal(n)
    ensures m == n
  {
    assert Decimal(m)[|Decimal(m)| - 1] == Digit(m % 10);
    assert Decimal(n)[|Decimal(n)| - 1] == Digit(n % 10);
    if m >= 10 && n >= 10 {
      assert Decimal(m)[..|Decimal(m)| - 1] == Decimal(m / 10);
      assert Decimal(n)[..|Decimal(n)| - 1] == Decimal(n / 10);
      DecimalInjective(m / 10, n / 10);
    }
  }

  /** A text of decimal digits. */
  type Numeral = s: string | forall i :: 0 <= i < |s| ==> '0' <= s[i] <= '9' witness ""

  /** The number a numeral stands for. */
  function NumberOf(s: Numeral): nat {
    if s == [] then 0 else NumberOf(s[..|s| - 1]) * 10 + (s[|s| - 1] - '0') as int
  }

  lemma DigitIs(d: nat)
    requires d < 10
    ensures (Digit(d) - '0') as int == d
  {
  }

  /** Printing and reading. */
  lemma {:induction false} NumberOfDecimal(n: nat)
    ensures NumberOf(Decimal(n)) == n
  {
    DigitIs(n % 10);
    if n < 10 {
      assert Decimal(n) == [Digit(n)] && Decimal(n)[..0] == [];
    } else {
      NumberOfDecimal(n / 10);
      assert Decimal(n)[..|Decimal(n)| - 1] == Decimal(n / 10);
    }
  }

  lemma LastDigit(s: Numeral)
    requires s != []
    ensures var d := (s[|s| - 1] - '0') as int;
      0 <= d < 10 && Digit(d) == s[|s| - 1] && NumberOf(s) == NumberOf(s[..|s| - 1]) * 10 + d
  {
  }

  lemma DecimalStep(m: nat, d: nat)
    requires d < 10
    ensures Decimal(m * 10 + d) == if m == 0 then [Digit(d)] else Decimal(m) + [Digit(d)]
  {
    assert (m * 10 + d) / 10 == m && (m * 10 + d) % 10 == d;
  }

  /** Reading and printing, without leading zeros. */
  lemma {:induction false} DecimalOfNumber(s: Numeral)
    requires s != [] && (|s| == 1 || s[0] != '0')
    ensures Decimal(NumberOf(s)) == s
    ensures s[0] != '0' ==> NumberOf(s) > 0
  {
    var front := s[..|s| - 1];
    LastDigit(s);
    DecimalStep(NumberOf(front), (s[|s| - 1] - '0') as int);
    if front != [] {
      DecimalOfNumber(front);
    } else {
      assert NumberOf([]) == 0;
    }
  }

  lemma {:induction false} DecimalLength(n: nat, k: nat)
    requires n < Power(k) && k > 0
    ensures |Decimal(n)| <= k
  {
    if n >= 10 {
      assert k > 1 && n / 10 < Power(k - 1);
      DecimalLength(n / 10, k - 1);
    }
  }

  function Power(k: nat): nat { if k == 0 then 1 else 10 * Power(k - 1) }

  /** Two ways to cut a text at a mark: what does not hold the mark ends before it, */
  lemma MarkIsOutside(a: string, b: string, c: string, d: string, mark: char)
    requires mark !in c && a + [mark] + b == c + [mark] + d
    ensures |a| >= |c|
  {
    assert (a + [mark] + b)[|a|] == mark;
    assert forall i :: 0 <= i < |c| ==> (c + [mark] + d)[i] != mark;
  }

  /** or begins after it. */
  lemma MarkIsBefore(a: string, b: string, c: string, d: string, mark: char)
    requires mark !in d && a + [mark] + b == c + [mark] + d
    ensures |a| <= |c|
  {
    var s := c + [mark] + d;
    assert s[|a|] == mark;
    if |a| > |c| {
      assert s[|a|] == d[|a| - |c| - 1];
    }
  }

  lemma SamePlace(a: string, b: string, c: string, d: string, mark: char)
    requires |a| == |c| && a + [mark] + b == c + [mark] + d
    ensures a == c && b == d
  {
    assert a == (a + [mark] + b)[..|a|] && c == (c + [mark] + d)[..|a|];
    assert b == (a + [mark] + b)[|a| + 1..] && d == (c + [mark] + d)[|a| + 1..];
  }

  /** A text is cut in one way only at the first mark. */
  lemma CutAtFirst(a: string, b: string, c: string, d: string, mark: char)
    requires a + [mark] + b == c + [mark] + d && mark !in a && mark !in c
    ensures a == c && b == d
  {
    MarkIsOutside(a, b, c, d, mark);
    MarkIsOutside(c, d, a, b, mark);
    SamePlace(a, b, c, d, mark);
  }

  /** And at the last. */
  lemma CutAtLast(a: string, b: string, c: string, d: string, mark: char)
    requires a + [mark] + b == c + [mark] + d && mark !in b && mark !in d
    ensures a == c && b == d
  {
    MarkIsBefore(a, b, c, d, mark);
    MarkIsBefore(c, d, a, b, mark);
    SamePlace(a, b, c, d, mark);
  }

  /** Go's `<` on strings. */
  predicate Less(a: string, b: string) {
    |b| > 0 && (|a| == 0 || a[0] < b[0] || (a[0] == b[0] && Less(a[1..], b[1..])))
  }

  lemma {:induction false} LessTransitive(a: string, b: string, c: string)
    requires Less(a, b) && Less(b, c)
    ensures Less(a, c)
  {
    if |a| > 0 && a[0] == b[0] == c[0] {
      LessTransitive(a[1..], b[1..], c[1..]);
    }
  }

  lemma {:induction false} LessTotal(a: string, b: string)
    ensures a == b <==> !Less(a, b) && !Less(b, a)
    ensures !(Less(a, b) && Less(b, a))
  {
    if |a| > 0 && |b| > 0 && a[0] == b[0] {
      LessTotal(a[1..], b[1..]);
      assert a == [a[0]] + a[1..] && b == [b[0]] + b[1..];
    }
  }

  lemma NotLessTransitive(x: string, y: string, z: string)
    ensures !Less(y, x) && !Less(z, y) ==> !Less(z, x)
  {
    LessTotal(x, y);
    LessTotal(y, z);
    LessTotal(x, z);
    if Less(x, y) && Less(y, z) {
      LessTransitive(x, y, z);
    }
  }

  /** White space as `strings.TrimSpace` sees it. */
  predicate IsSpace(c: char) {
    || '\t' <= c <= '\r' || c == ' ' || c == '\U{0085}' || c == '\U{00A0}' || c == '\U{1680}'
    || '\U{2000}' <= c <= '\U{200A}' || c in {'\U{2028}', '\U{2029}', '\U{202F}', '\U{205F}', '\U{3000}'}
  }

  function TrimLeft(s: string, space: char -> bool): (t: string)
    ensures t == [] || !space(t[0])
  {
    if s != [] && space(s[0]) then TrimLeft(s[1..], space) else s
  }

  function TrimRight(s: string, space: char -> bool): (t: string)
    ensures t <= s && (t == [] || !space(t[|t| - 1]))
  {
    if s != [] && space(s[|s| - 1]) then TrimRight(s[..|s| - 1], space) else s
  }

  function Trim(s: string, space: char -> bool): string {
    TrimRight(TrimLeft(s, space), space)
  }

  lemma {:induction false} TrimKeepsOut(s: string, space: char -> bool, c: char)
    requires c !in s
    ensures c !in Trim(s, space)
  {
    TrimLeftEnds(s, space);
    assert TrimRight(TrimLeft(s, space), space) <= TrimLeft(s, space);
  }

  lemma {:induction false} TrimLeftEnds(s: string, space: char -> bool)
    ensures |TrimLeft(s, space)| <= |s| && TrimLeft(s, space) == s[|s| - |TrimLeft(s, space)|..]
  {
    if s != [] && space(s[0]) {
      TrimLeftEnds(s[1..], space);
    }
  }

  function Lower(c: char): char {
    if 'A' <= c <= 'Z' then c + 32 as char else c
  }

  function ToLower(s: string): (t: string)
    ensures |t| == |s| && forall i :: 0 <= i < |s| ==> t[i] == Lower(s[i])
  {
    seq(|s|, i requires 0 <= i < |s| => Lower(s[i]))
  }
}
