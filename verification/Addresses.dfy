/** IPv4 addresses in a text: what the scrubber takes for one, and that every one is masked. */
module Addresses {
  import Text
  import opened Patterns
  import opened Expressions

  // ---- Four groups ------------------------------------------------------------------------------------

  /** One to three digits. */
  predicate ShortNumeral(s: string) { 1 <= |s| <= 3 && AllDigits(s) }

  function Quad(a: string, b: string, c: string, d: string): string {
    a + "." + b + "." + c + "." + d
  }

  /** Four short numerals joined by dots. */
  ghost predicate IsQuad(t: string) {
    exists a, b, c, d ::
      ShortNumeral(a) && ShortNumeral(b) && ShortNumeral(c) && ShortNumeral(d) && t == Quad(a, b, c, d)
  }

  /** `part` stands in `s` from `i` on. */
  ghost predicate PartAt(s: string, i: nat, part: string) {
    i + |part| <= |s| && s[i..i + |part|] == part
  }

  lemma OctetOf(s: string, i: nat, part: string)
    requires PartAt(s, i, part) && ShortNumeral(part)
    requires i + |part| < |s| ==> !IsDigit(s[i + |part|])
    ensures Octet(s, i) == i + |part|
  {
    var e := i + |part|;
    assert forall j :: i <= j < e ==> s[j] == s[i..e][j - i];
    RunFrom(s, i, e, IsDigit);
  }

  lemma PartSum(s: string, i: nat, a: string, b: string)
    requires PartAt(s, i, a + b)
    ensures PartAt(s, i, a) && PartAt(s, i + |a|, b)
  {
    var n, m := i + |a|, i + |a + b|;
    assert s[i..m][..|a|] == s[i..n] && (a + b)[..|a|] == a;
    assert s[i..m][|a|..] == s[n..m] && (a + b)[|a|..] == b;
  }

  lemma DotAfter(s: string, i: nat, a: string)
    requires PartAt(s, i, a + ".")
    ensures PartAt(s, i, a) && i + |a| < |s| && s[i + |a|] == '.'
  {
    PartSum(s, i, a, ".");
    var j := i + |a|;
    assert s[j] == s[j..j + 1][0];
  }

  /** The four parts from `i` on, with dots after the first three. */
  ghost predicate PartsAt(s: string, i: nat, a: string, b: string, c: string, d: string) {
    var j, k, m := i + |a|, i + |a| + 1 + |b|, i + |a| + 1 + |b| + 1 + |c|;
    && PartAt(s, i, a) && PartAt(s, j + 1, b) && PartAt(s, k + 1, c) && PartAt(s, m + 1, d)
    && s[j] == '.' && s[k] == '.' && s[m] == '.'
  }

  lemma QuadParts(s: string, i: nat, a: string, b: string, c: string, d: string)
    requires PartAt(s, i, Quad(a, b, c, d))
    ensures PartsAt(s, i, a, b, c, d)
    ensures |Quad(a, b, c, d)| == |a| + 1 + |b| + 1 + |c| + 1 + |d|
  {
    var ab := a + "." + b;
    var abc := ab + "." + c;
    PartSum(s, i, abc + ".", d);
    DotAfter(s, i, abc);
    PartSum(s, i, ab + ".", c);
    DotAfter(s, i, ab);
    PartSum(s, i, a + ".", b);
    DotAfter(s, i, a);
  }

  lemma GroupsOfParts(s: string, i: nat, a: string, b: string, c: string, d: string)
    requires ShortNumeral(a) && ShortNumeral(b) && ShortNumeral(c) && ShortNumeral(d)
    requires PartsAt(s, i, a, b, c, d)
    requires var e := i + |a| + 1 + |b| + 1 + |c| + 1 + |d|; e < |s| ==> !IsDigit(s[e])
    ensures var j, k, m := i + |a|, i + |a| + 1 + |b|, i + |a| + 1 + |b| + 1 + |c|;
      Groups(s, i) == [j, k, m, m + 1 + |d|]
  {
    var j, k, m := i + |a|, i + |a| + 1 + |b|, i + |a| + 1 + |b| + 1 + |c|;
    OctetOf(s, i, a);
    OctetOf(s, j + 1, b);
    OctetOf(s, k + 1, c);
    OctetOf(s, m + 1, d);
    GroupsFrom(s, i, j, k, m, m + 1 + |d|);
  }

  lemma GroupsFrom(s: string, i: nat, j: nat, k: nat, m: nat, e: nat)
    requires i < j && j + 1 < k && k + 1 < m && m + 1 < e <= |s| && s[j] == '.' && s[k] == '.' && s[m] == '.'
    requires Octet(s, i) == j && Octet(s, j + 1) == k && Octet(s, k + 1) == m && Octet(s, m + 1) == e
    ensures Groups(s, i) == [j, k, m, e]
  {
  }

  lemma OctetIsShort(s: string, i: nat)
    requires i <= |s| && Octet(s, i) > i
    ensures ShortNumeral(s[i..Octet(s, i)])
  {
  }

  lemma Joint(s: string, i: nat, j: nat, k: nat)
    requires i <= j < k <= |s| && s[j] == '.'
    ensures s[i..k] == s[i..j] + "." + s[j + 1..k]
  {
  }

  lemma GroupsAreQuad(s: string, i: nat)
    requires i < |s| && Groups(s, i) != []
    ensures var g := Groups(s, i);
      var a, b, c, d := s[i..g[0]], s[g[0] + 1..g[1]], s[g[1] + 1..g[2]], s[g[2] + 1..g[3]];
      && ShortNumeral(a) && ShortNumeral(b) && ShortNumeral(c) && ShortNumeral(d)
      && s[i..g[3]] == Quad(a, b, c, d)
  {
    var g := Groups(s, i);
    OctetIsShort(s, i);
    OctetIsShort(s, g[0] + 1);
    OctetIsShort(s, g[1] + 1);
    OctetIsShort(s, g[2] + 1);
    Joint(s, i, g[0], g[1]);
    Joint(s, i, g[1], g[2]);
    Joint(s, i, g[2], g[3]);
  }

  lemma MatchIsQuad(s: string, i: nat, e: nat)
    requires i < e <= |s| && IP(s, i) == e
    ensures Boundary(s, i) && Boundary(s, e) && IsQuad(s[i..e])
  {
    GroupsAreQuad(s, i);
  }

  lemma QuadMatches(s: string, i: nat, e: nat, a: string, b: string, c: string, d: string)
    requires ShortNumeral(a) && ShortNumeral(b) && ShortNumeral(c) && ShortNumeral(d)
    requires PartAt(s, i, Quad(a, b, c, d)) && e == i + |Quad(a, b, c, d)|
    requires Boundary(s, i) && Boundary(s, e)
    ensures IP(s, i) == e
  {
    QuadParts(s, i, a, b, c, d);
    assert s[e - 1] == s[e - |d|..e][|d| - 1] == d[|d| - 1];
    assert e < |s| ==> !IsDigit(s[e]);
    GroupsOfParts(s, i, a, b, c, d);
  }

  /** A stretch is matched exactly when it is four groups of one to three digits between word boundaries. */
  lemma {:induction false} IPIff(s: string, i: nat, e: nat)
    requires i < e <= |s|
    ensures IP(s, i) == e <==> Boundary(s, i) && Boundary(s, e) && IsQuad(s[i..e])
  {
    if IP(s, i) == e {
      MatchIsQuad(s, i, e);
    } else if Boundary(s, i) && Boundary(s, e) && IsQuad(s[i..e]) {
      var a, b, c, d :|
        ShortNumeral(a) && ShortNumeral(b) && ShortNumeral(c) && ShortNumeral(d) && s[i..e] == Quad(a, b, c, d);
      QuadMatches(s, i, e, a, b, c, d);
    }
  }

  // ---- Addresses ---------------------------------------------------------------------------------------

  /** The address with these four numbers. */
  function Dotted(a: nat, b: nat, c: nat, d: nat): string {
    Quad(Text.Decimal(a), Text.Decimal(b), Text.Decimal(c), Text.Decimal(d))
  }

  ghost predicate IsAddress(ip: string) {
    exists a, b, c, d :: a <= 255 && b <= 255 && c <= 255 && d <= 255 && ip == Dotted(a, b, c, d)
  }

  lemma DecimalIsShort(n: nat)
    requires n <= 255
    ensures ShortNumeral(Text.Decimal(n))
  {
    assert Text.Power(1) == 10 && Text.Power(2) == 100 && Text.Power(3) == 1000;
    Text.DecimalLength(n, 3);
  }

  lemma {:induction false} NoLeadingZero(n: nat)
    ensures n > 0 ==> Text.Decimal(n)[0] != '0'
    ensures n < 10 ==> |Text.Decimal(n)| == 1
  {
    if n >= 10 {
      NoLeadingZero(n / 10);
    } else if n > 0 {
      Text.DigitIs(n);
    }
  }

  /** The groups Go's parser accepts are the numbers to 255 as they are printed. */
  lemma ValidIff(s: string)
    ensures ValidOctet(s) <==> exists n :: n <= 255 && s == Text.Decimal(n)
  {
    if ValidOctet(s) {
      Text.DecimalOfNumber(s);
    }
    if n :| n <= 255 && s == Text.Decimal(n) {
      Text.NumberOfDecimal(n);
      NoLeadingZero(n);
    }
  }

  lemma QuadParses(a: string, b: string, c: string, d: string, ip: string)
    requires ShortNumeral(a) && ShortNumeral(b) && ShortNumeral(c) && ShortNumeral(d) && ip == Quad(a, b, c, d)
    requires ValidOctet(a) && ValidOctet(b) && ValidOctet(c) && ValidOctet(d)
    ensures ParsesAsIP(ip)
  {
    assert ip[0..|ip|] == ip;
    QuadParts(ip, 0, a, b, c, d);
    PartsParse(a, b, c, d, ip);
  }

  lemma PartsParse(a: string, b: string, c: string, d: string, ip: string)
    requires ShortNumeral(a) && ShortNumeral(b) && ShortNumeral(c) && ShortNumeral(d)
    requires PartsAt(ip, 0, a, b, c, d) && |ip| == |a| + 1 + |b| + 1 + |c| + 1 + |d|
    requires ValidOctet(a) && ValidOctet(b) && ValidOctet(c) && ValidOctet(d)
    ensures ParsesAsIP(ip)
  {
    GroupsOfParts(ip, 0, a, b, c, d);
    var g := Groups(ip, 0);
    assert ip[0..g[0]] == a && ip[g[0] + 1..g[1]] == b;
    assert ip[g[1] + 1..g[2]] == c && ip[g[2] + 1..g[3]] == d;
  }

  lemma DecimalIsValid(n: nat)
    requires n <= 255
    ensures ShortNumeral(Text.Decimal(n)) && ValidOctet(Text.Decimal(n))
  {
    DecimalIsShort(n);
    ValidIff(Text.Decimal(n));
  }

  lemma DottedParses(a: nat, b: nat, c: nat, d: nat, ip: string)
    requires a <= 255 && b <= 255 && c <= 255 && d <= 255 && ip == Dotted(a, b, c, d)
    ensures ParsesAsIP(ip)
  {
    DecimalIsValid(a);
    DecimalIsValid(b);
    DecimalIsValid(c);
    DecimalIsValid(d);
    QuadParses(Text.Decimal(a), Text.Decimal(b), Text.Decimal(c), Text.Decimal(d), ip);
  }

  /** The number of a group. */
  lemma ValidNumber(s: string) returns (n: nat)
    requires ValidOctet(s)
    ensures n <= 255 && s == Text.Decimal(n)
  {
    ValidIff(s);
    n :| n <= 255 && s == Text.Decimal(n);
  }

  lemma QuadIsAddress(p: string, q: string, r: string, t: string, ip: string)
    requires ValidOctet(p) && ValidOctet(q) && ValidOctet(r) && ValidOctet(t) && ip == Quad(p, q, r, t)
    ensures IsAddress(ip)
  {
    var a := ValidNumber(p);
    var b := ValidNumber(q);
    var c := ValidNumber(r);
    var d := ValidNumber(t);
    assert ip == Dotted(a, b, c, d);
  }

  /** The parts of a text that parses. */
  lemma ParsedParts(ip: string) returns (p: string, q: string, r: string, t: string)
    requires ParsesAsIP(ip)
    ensures ValidOctet(p) && ValidOctet(q) && ValidOctet(r) && ValidOctet(t)
    ensures Groups(ip, 0) != [] && IsParted(ip, Groups(ip, 0), p, q, r, t)
  {
    var g := Groups(ip, 0);
    p, q, r, t := ip[0..g[0]], ip[g[0] + 1..g[1]], ip[g[1] + 1..g[2]], ip[g[2] + 1..g[3]];
  }

  ghost predicate IsParted(ip: string, g: seq<nat>, p: string, q: string, r: string, t: string) {
    && |g| == 4 && g[0] < g[1] < g[2] < g[3] == |ip|
    && p == ip[0..g[0]] && q == ip[g[0] + 1..g[1]] && r == ip[g[1] + 1..g[2]] && t == ip[g[2] + 1..g[3]]
  }

  lemma WholeIsQuad(ip: string, p: string, q: string, r: string, t: string)
    requires ip != [] && Groups(ip, 0) != [] && IsParted(ip, Groups(ip, 0), p, q, r, t)
    ensures ip == Quad(p, q, r, t)
  {
    var _, _, _, _ := QuadOfGroups(ip, 0);
    AllOfIt(ip, Groups(ip, 0)[3]);
  }

  lemma ParsedIsAddress(ip: string)
    requires ParsesAsIP(ip)
    ensures IsAddress(ip)
  {
    var p, q, r, t := ParsedParts(ip);
    WholeIsQuad(ip, p, q, r, t);
    QuadIsAddress(p, q, r, t, ip);
  }

  lemma QuadOfGroups(s: string, i: nat) returns (p: string, q: string, r: string, t: string)
    requires i < |s| && Groups(s, i) != []
    ensures var g := Groups(s, i);
      p == s[i..g[0]] && q == s[g[0] + 1..g[1]] && r == s[g[1] + 1..g[2]] && t == s[g[2] + 1..g[3]]
    ensures s[i..Groups(s, i)[3]] == Quad(p, q, r, t)
  {
    GroupsAreQuad(s, i);
    var g := Groups(s, i);
    p, q, r, t := s[i..g[0]], s[g[0] + 1..g[1]], s[g[1] + 1..g[2]], s[g[2] + 1..g[3]];
  }

  lemma AllOfIt(s: string, n: nat)
    requires n == |s|
    ensures s[0..n] == s
  {
  }

  /** What is taken for an address is exactly four numbers to 255, printed and joined by dots. */
  lemma {:induction false} ParsesIff(ip: string)
    ensures ParsesAsIP(ip) <==> IsAddress(ip)
  {
    if ParsesAsIP(ip) {
      ParsedIsAddress(ip);
    } else if IsAddress(ip) {
      var a, b, c, d :| a <= 255 && b <= 255 && c <= 255 && d <= 255 && ip == Dotted(a, b, c, d);
      DottedParses(a, b, c, d, ip);
    }
  }
}
