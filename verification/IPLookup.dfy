/** The country of an address: CIDR tests and binary search over ranges. */
module IPLookup {
  import opened Bits
  import opened IPAddress
  import opened Text
  import opened Wrappers

  // ---- CIDR ----------------------------------------------------------------------------------------

  const WORD := 0x1_0000_0000

  /** JavaScript's shift count is taken modulo 32. */
  function HostBits(maskLen: int): nat { (32 - maskLen) % 32 }

  function Mask(maskLen: int): nat {
    if maskLen == 0 then 0 else 0xffff_ffff * Pow2(HostBits(maskLen)) % WORD
  }

  lemma WordSize()
    ensures Pow2(32) == WORD
  {
    assert Pow2(8) == 0x100;
    Pow2Sum(8, 8);
    Pow2Sum(16, 16);
  }

  lemma {:induction false} Pow2Sum(j: nat, k: nat)
    ensures Pow2(j + k) == Pow2(j) * Pow2(k)
  {
    if j > 0 {
      Pow2Sum(j - 1, k);
      assert 2 * (Pow2(j - 1) * Pow2(k)) == Pow2(j) * Pow2(k);
    }
  }

  lemma {:induction false} MaskBits(maskLen: int)
    requires maskLen != 0
    ensures Mask(maskLen) == (Pow2(32 - HostBits(maskLen)) - 1) * Pow2(HostBits(maskLen))
  {
    var k := HostBits(maskLen);
    Pow2Sum(32 - k, k);
    WordSize();
    LessOne(Pow2(32 - k), Pow2(k));
    ShiftedOnes(Pow2(k));
  }

  lemma LessOne(q: nat, p: nat)
    requires q > 0 && q * p == WORD
    ensures (q - 1) * p == WORD - p && p <= WORD
  {
    assert (q - 1) * p == q * p - p;
  }

  /** What is left of 32 ones in a 32-bit word. */
  lemma ShiftedOnes(p: nat)
    requires 0 < p <= WORD
    ensures 0xffff_ffff * p % WORD == WORD - p
  {
    assert 0xffff_ffff * p == WORD * (p - 1) + (WORD - p);
  }

  /** `cidrContains` on parsed addresses; a missing base or a mask length that is not a number contains nothing. */
  method CidrContains(ip: nat, base: Option<nat>, maskLen: Option<int>) returns (r: bool)
    requires ip < WORD && (base.Some? ==> base.value < WORD)
    ensures r <==> base.Some? && maskLen.Some? && SamePrefix(ip, base.value, maskLen.value)
  {
    if base.None? || maskLen.None? { return false; }
    var mask := Mask(maskLen.value);
    MaskedEqual(ip, base.value, maskLen.value);
    r := And(ip, mask) == And(base.value, mask);
  }

  /** Equal up to the host bits. */
  ghost predicate SamePrefix(x: nat, y: nat, maskLen: int) {
    maskLen == 0 || ShiftRight(x, HostBits(maskLen)) == ShiftRight(y, HostBits(maskLen))
  }

  lemma {:induction false} AndZero(x: nat)
    ensures And(x, 0) == 0
    decreases x
  {
    if x > 0 {
      AndZero(x / 2);
    }
  }

  lemma MaskedEqual(x: nat, y: nat, maskLen: int)
    requires x < WORD && y < WORD
    ensures And(x, Mask(maskLen)) == And(y, Mask(maskLen)) <==> SamePrefix(x, y, maskLen)
  {
    if maskLen == 0 {
      AndZero(x);
      AndZero(y);
    } else {
      var k := HostBits(maskLen);
      WordSize();
      MaskBits(maskLen);
      AndMask(x, 32 - k, k, Mask(maskLen));
      AndMask(y, 32 - k, k, Mask(maskLen));
      Cancel(ShiftRight(x, k), ShiftRight(y, k), Pow2(k));
    }
  }

  lemma Cancel(a: nat, b: nat, p: nat)
    requires p > 0
    ensures a * p == b * p <==> a == b
  {
    if a < b {
      assert (b - a) * p > 0;
    } else if b < a {
      assert (a - b) * p > 0;
    }
  }

  /** For the mask lengths 0 to 32: equal after division by two to the number of host bits. */
  lemma PrefixIsQuotient(x: nat, y: nat, maskLen: nat)
    requires x < WORD && y < WORD && maskLen <= 32
    ensures SamePrefix(x, y, maskLen) <==> x / Pow2(32 - maskLen) == y / Pow2(32 - maskLen)
  {
    var k: nat := 32 - maskLen;
    WordSize();
    ShiftQuotient(x, k);
    ShiftQuotient(y, k);
    if maskLen == 0 {
      SmallQuotient(x, WORD);
      SmallQuotient(y, WORD);
    } else if maskLen < 32 {
      assert HostBits(maskLen) == k;
    }
  }

  lemma SmallQuotient(n: nat, d: nat)
    requires n < d
    ensures n / d == 0
  {
  }

  lemma ShiftQuotient(n: nat, k: nat)
    ensures n / Pow2(k) == ShiftRight(n, k)
  {
    ShiftDivides(n, k);
    QuotientIs(n, Pow2(k), ShiftRight(n, k));
  }

  lemma QuotientIs(n: nat, d: nat, q: nat)
    requires d > 0 && 0 <= n - q * d < d
    ensures n / d == q
  {
    Monotonic(q + 1, n / d, d);
    Monotonic(n / d + 1, q, d);
  }

  lemma Monotonic(a: nat, b: nat, d: nat)
    ensures a <= b ==> a * d <= b * d
  {
  }

  // ---- Ranges --------------------------------------------------------------------------------------

  datatype Range = Range(start: nat, end: nat, cc: string) {
    predicate Contains(n: nat) { start <= n <= end }
  }

  /** Non-empty ranges in order, none meeting the next. */
  ghost predicate SortedDisjoint(ranges: seq<Range>) {
    && (forall i :: 0 <= i < |ranges| ==> ranges[i].start <= ranges[i].end)
    && forall i, j :: 0 <= i < j < |ranges| ==> ranges[i].end < ranges[j].start
  }

  /** The linear scan. */
  function Scan(ranges: seq<Range>, n: nat): (r: Option<string>)
    ensures r.None? <==> forall x :: x in ranges ==> !x.Contains(n)
  {
    if ranges == [] then None
    else if ranges[0].Contains(n) then Some(ranges[0].cc)
    else Scan(ranges[1..], n)
  }

  /** Disjoint ranges: the code is that of the one range with the address. */
  lemma {:induction false} ScanFinds(ranges: seq<Range>, n: nat, i: nat)
    requires SortedDisjoint(ranges) && i < |ranges| && ranges[i].Contains(n)
    ensures Scan(ranges, n) == Some(ranges[i].cc)
  {
    if i > 0 {
      assert ranges[0].end < ranges[i].start;
      ScanFinds(ranges[1..], n, i - 1);
    }
  }

  lemma AllBelow(ranges: seq<Range>, mid: nat, n: nat)
    requires mid < |ranges| && ranges[mid].end < n
    ensures SortedDisjoint(ranges) ==> forall i :: 0 <= i <= mid ==> ranges[i].end < n
  {
  }

  lemma AllAbove(ranges: seq<Range>, mid: nat, n: nat)
    requires mid < |ranges| && n < ranges[mid].start
    ensures SortedDisjoint(ranges) ==> forall i :: mid <= i < |ranges| ==> n < ranges[i].start
  {
  }

  method LookupCompactV4(ipNum: nat, ranges: seq<Range>) returns (r: Option<string>)
    ensures r.Some? ==> exists x :: x in ranges && x.Contains(ipNum) && x.cc == r.value
    ensures SortedDisjoint(ranges) ==> r == Scan(ranges, ipNum)
  {
    var lo, hi := 0, |ranges| - 1;
    while lo <= hi
      invariant 0 <= lo <= hi + 1 <= |ranges|
      invariant SortedDisjoint(ranges) ==> forall i :: 0 <= i < lo ==> ranges[i].end < ipNum
      invariant SortedDisjoint(ranges) ==> forall i :: hi < i < |ranges| ==> ipNum < ranges[i].start
    {
      var mid := (lo + hi) / 2;
      var x := ranges[mid];
      if ipNum < x.start {
        hi := mid - 1;
      } else if ipNum > x.end {
        lo := mid + 1;
      } else {
        if SortedDisjoint(ranges) {
          ScanFinds(ranges, ipNum, mid);
        }
        return Some(x.cc);
      }
    }
    return None;
  }

  /** The bounds of IPv6 ranges are decimal texts in the data file, read by `BigInt`. */
  datatype Range6 = Range6(start: Numeral, end: Numeral, cc: string) {
    function Bounds(): Range { Range(NumberOf(start), NumberOf(end), cc) }
  }

  ghost function Parsed(ranges: seq<Range6>): (r: seq<Range>)
    ensures |r| == |ranges|
  {
    seq(|ranges|, i requires 0 <= i < |ranges| => ranges[i].Bounds())
  }

  method LookupCompactV6(ipNum: nat, ranges: seq<Range6>) returns (r: Option<string>)
    ensures r.Some? ==> exists x :: x in Parsed(ranges) && x.Contains(ipNum) && x.cc == r.value
    ensures SortedDisjoint(Parsed(ranges)) ==> r == Scan(Parsed(ranges), ipNum)
  {
    ghost var parsed := Parsed(ranges);
    var lo, hi := 0, |ranges| - 1;
    while lo <= hi
      invariant 0 <= lo <= hi + 1 <= |ranges|
      invariant SortedDisjoint(parsed) ==> forall i :: 0 <= i < lo ==> parsed[i].end < ipNum
      invariant SortedDisjoint(parsed) ==> forall i :: hi < i < |ranges| ==> ipNum < parsed[i].start
    {
      var mid := (lo + hi) / 2;
      var x := ranges[mid];
      var s, e := NumberOf(x.start), NumberOf(x.end);
      assert parsed[mid] == Range(s, e, x.cc);
      if ipNum < s {
        AllAbove(parsed, mid, ipNum);
        hi := mid - 1;
      } else if ipNum > e {
        AllBelow(parsed, mid, ipNum);
        lo := mid + 1;
      } else {
        if SortedDisjoint(parsed) {
          ScanFinds(parsed, ipNum, mid);
        }
        assert parsed[mid] in parsed;
        return Some(x.cc);
      }
    }
    return None;
  }

  /** The lookup of a text with a colon: found by its value, whatever its spelling. */
  method LookupCountryV6(ip: string, ranges: seq<Range6>) returns (r: Option<string>)
    requires ':' in ip
    ensures !Accepted(ip) ==> r == None
    ensures Accepted(ip) && SortedDisjoint(Parsed(ranges)) ==> r == Scan(Parsed(ranges), Value(ip))
  {
    var norm := NormalizeIP(ip);
    if Accepted(ip) {
      NormalKeepsValue(ip);
    } else {
      CleanedTwice(ip);
    }
    var n := ParseIPv6BigInt(norm);
    if n.None? { return None; }
    r := LookupCompactV6(n.value, ranges);
  }
}
