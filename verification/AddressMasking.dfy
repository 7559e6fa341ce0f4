/** An address among characters no expression can make anything of is masked, and nothing else is touched. */
module AddressMasking {
  import Text
  import opened Patterns
  import opened Expressions
  import opened Addresses
  import opened Scrubbing
  import Cutting

  /** No letter, and nothing emails, UUIDs and hardware addresses are made with. */
  predicate Plain(c: char) {
    !IsLetter(c) && c != '_' && c != '@' && c != '-' && c != ':'
  }

  predicate AllPlain(s: string) { forall i :: 0 <= i < |s| ==> Plain(s[i]) }

  predicate NoDigits(s: string) { forall i :: 0 <= i < |s| ==> !IsDigit(s[i]) }

  lemma NothingToCut(o: OneWay, s: string, i: nat)
    requires i < |s| && AllPlain(s)
    ensures RedactionAt(o, s, i) == NoMatch
  {
    FoldedStep("bearer", s, i);
    FoldedStep("account", s, i);
    FoldedStep("org", s, i);
    assert Fold(s[i]) != 'b' && Fold(s[i]) != 'a' && Fold(s[i]) != 'o';
  }

  lemma {:induction false} NoCuts(o: OneWay, s: string, i: nat)
    requires i <= |s| && AllPlain(s)
    ensures Redactions(o, s, i) == 0
    decreases |s| - i
  {
    if i < |s| {
      NothingToCut(o, s, i);
      NoCuts(o, s, i + 1);
    }
  }

  lemma RedactsNothing(o: OneWay, s: string)
    requires AllPlain(s)
    ensures Redact(o, s, 0) == s
  {
    NoCuts(o, s, 0);
    NothingRedacted(o, s, 0);
  }

  lemma OnlyAddresses(k: Mask, s: string, i: nat)
    requires i < |s| && AllPlain(s) && k != IPMask
    ensures MatchEnd(k, s, i) == i
  {
    DashAndColon(s, i);
  }

  lemma DashAndColon(s: string, i: nat)
    requires i < |s|
    ensures UUID(s, i) > i ==> i + 8 < |s| && s[i + 8] == '-'
    ensures MAC(s, i) > i ==> i + 2 < |s| && s[i + 2] == ':'
  {
    if UUID(s, i) > i {
      assert UUIDChar(s[i + 8], 8);
    }
    if MAC(s, i) > i {
      assert MACChar(s[i + 2], 2);
    }
  }

  lemma {:induction false} SwapPasses(k: Mask, s: string, i: nat, n: nat, m: map<string, string>)
    requires i <= n <= |s| && forall j :: i <= j < n ==> MatchEnd(k, s, j) == j
    ensures Swap(k, s, i, m) == s[i..n] + Swap(k, s, n, m)
    ensures Covered(k, s, i, m) <==> Covered(k, s, n, m)
    decreases n - i
  {
    if i < n {
      SwapPasses(k, s, i + 1, n, m);
      Cutting.SwapOutside(k, s, i, m);
      Cutting.StretchFrom(s, i, n, Swap(k, s, n, m));
    }
  }

  lemma SwapsNothing(k: Mask, s: string, m: map<string, string>)
    requires AllPlain(s) && k != IPMask
    ensures Swap(k, s, 0, m) == s
  {
    forall j | 0 <= j < |s|
      ensures MatchEnd(k, s, j) == j
    {
      OnlyAddresses(k, s, j);
    }
    SwapPasses(k, s, 0, |s|, m);
    assert s[0..|s|] == s;
  }

  lemma NoDigitNoAddress(s: string, i: nat)
    requires i < |s| && !IsDigit(s[i])
    ensures IP(s, i) == i
  {
  }

  lemma SwapMatch(k: Mask, s: string, i: nat, e: nat, m: map<string, string>)
    requires i < e <= |s| && MatchEnd(k, s, i) == e && Masks(k, s[i..e]) && Covered(k, s, i, m)
    ensures s[i..e] in m && Swap(k, s, i, m) == m[s[i..e]] + Swap(k, s, e, m)
  {
    assert Next(k, s, i) == e;
  }

  lemma Apart(pre: string, ip: string, post: string, s: string)
    requires s == pre + ip + post && NoDigits(pre) && NoDigits(post)
    ensures forall j :: 0 <= j < |pre| ==> MatchEnd(IPMask, s, j) == j
    ensures forall j :: |pre| + |ip| <= j < |s| ==> MatchEnd(IPMask, s, j) == j
  {
    forall j | 0 <= j < |pre|
      ensures MatchEnd(IPMask, s, j) == j
    {
      assert s[j] == pre[j];
      NoDigitNoAddress(s, j);
    }
    forall j | |pre| + |ip| <= j < |s|
      ensures MatchEnd(IPMask, s, j) == j
    {
      assert s[j] == post[j - |pre| - |ip|];
      NoDigitNoAddress(s, j);
    }
  }

  /** The address pass on an address between other characters. */
  lemma AddressSwapped(pre: string, ip: string, post: string, s: string, m: map<string, string>)
    requires s == pre + ip + post && IsAddress(ip) && NoDigits(pre) && NoDigits(post)
    requires AllPlain(pre) && AllPlain(post) && Covered(IPMask, s, 0, m)
    ensures ip in m && Swap(IPMask, s, 0, m) == pre + m[ip] + post
  {
    var i, e := |pre|, |pre| + |ip|;
    assert s[0..i] == pre && s[i..e] == ip && s[e..|s|] == post;
    AddressMatched(pre, ip, post, s);
    Apart(pre, ip, post, s);
    SwapPasses(IPMask, s, 0, i, m);
    SwapPasses(IPMask, s, e, |s|, m);
    ParsesIff(ip);
    SwapMatch(IPMask, s, i, e, m);
    EndOfSwap(IPMask, s, m);
    ThreeParts(pre, m[ip], post);
  }

  lemma EndOfSwap(k: Mask, s: string, m: map<string, string>)
    ensures Swap(k, s, |s|, m) == []
  {
  }

  lemma ThreeParts(a: string, b: string, c: string)
    ensures a + (b + (c + [])) == a + b + c
  {
  }

  lemma AddressMatched(pre: string, ip: string, post: string, s: string)
    requires s == pre + ip + post && IsAddress(ip)
    requires pre != [] ==> !IsWord(pre[|pre| - 1])
    requires post != [] ==> !IsWord(post[0])
    ensures IP(s, |pre|) == |pre| + |ip| && |ip| > 0
  {
    var a, b, c, d :| a <= 255 && b <= 255 && c <= 255 && d <= 255 && ip == Dotted(a, b, c, d);
    DecimalIsShort(a);
    DecimalIsShort(b);
    DecimalIsShort(c);
    DecimalIsShort(d);
    QuadAmong(pre, Text.Decimal(a), Text.Decimal(b), Text.Decimal(c), Text.Decimal(d), ip, post, s);
  }

  lemma QuadAmong(pre: string, a: string, b: string, c: string, d: string, ip: string, post: string, s: string)
    requires ShortNumeral(a) && ShortNumeral(b) && ShortNumeral(c) && ShortNumeral(d)
    requires ip == Quad(a, b, c, d) && s == pre + ip + post
    requires pre != [] ==> !IsWord(pre[|pre| - 1])
    requires post != [] ==> !IsWord(post[0])
    ensures IP(s, |pre|) == |pre| + |ip| && |ip| > 0
  {
    QuadEnds(a, b, c, d, ip);
    EdgesOf(pre, ip, post, s);
    QuadMatches(s, |pre|, |pre| + |ip|, a, b, c, d);
  }

  lemma QuadEnds(a: string, b: string, c: string, d: string, ip: string)
    requires ShortNumeral(a) && ShortNumeral(b) && ShortNumeral(c) && ShortNumeral(d) && ip == Quad(a, b, c, d)
    ensures |ip| > 0 && IsDigit(ip[0]) && IsDigit(ip[|ip| - 1])
  {
    assert ip[0] == a[0] && ip[|ip| - 1] == d[|d| - 1];
  }

  lemma EdgesOf(pre: string, ip: string, post: string, s: string)
    requires s == pre + ip + post && |ip| > 0 && IsDigit(ip[0]) && IsDigit(ip[|ip| - 1])
    requires pre != [] ==> !IsWord(pre[|pre| - 1])
    requires post != [] ==> !IsWord(post[0])
    ensures s[|pre|..|pre| + |ip|] == ip && Boundary(s, |pre|) && Boundary(s, |pre| + |ip|)
  {
    var i, e := |pre|, |pre| + |ip|;
    assert s[i] == ip[0] && s[e - 1] == ip[|ip| - 1];
    assert i > 0 ==> s[i - 1] == pre[i - 1];
    assert e < |s| ==> s[e] == post[0];
  }

  lemma {:induction false} AddressIsMasked(pre: string, ip: string, post: string, t: Tables)
    requires IsAddress(ip) && NoDigits(pre) && NoDigits(post) && AllPlain(pre) && AllPlain(post)
    requires AllCovered(pre + ip + post, t.ids, t.macs, t.ips)
    ensures ip in t.ips
    ensures Scrubbed(pre + ip + post, t.ids, t.macs, t.ips) == pre + t.ips[ip] + post
  {
    var s := pre + ip + post;
    AddressIsPlain(ip);
    assert AllPlain(s);
    RedactsNothing(BearerValue, s);
    SwapsNothing(EmailMask, s, t.ids);
    SwapsNothing(UUIDMask, s, t.ids);
    RedactsNothing(AccountValue, s);
    SwapsNothing(MACMask, s, t.macs);
    AddressSwapped(pre, ip, post, s, t.ips);
  }

  lemma PlainSum(a: string, b: string)
    requires AllPlain(a) && AllPlain(b)
    ensures AllPlain(a + b)
  {
  }

  lemma QuadIsPlain(a: string, b: string, c: string, d: string)
    requires AllDigits(a) && AllDigits(b) && AllDigits(c) && AllDigits(d)
    ensures AllPlain(Quad(a, b, c, d))
  {
    PlainSum(a, ".");
    PlainSum(a + ".", b);
    PlainSum(a + "." + b, ".");
    PlainSum(a + "." + b + ".", c);
    PlainSum(a + "." + b + "." + c, ".");
    PlainSum(a + "." + b + "." + c + ".", d);
  }

  lemma AddressIsPlain(ip: string)
    requires IsAddress(ip)
    ensures AllPlain(ip)
  {
    var a, b, c, d :| a <= 255 && b <= 255 && c <= 255 && d <= 255 && ip == Dotted(a, b, c, d);
    QuadIsPlain(Text.Decimal(a), Text.Decimal(b), Text.Decimal(c), Text.Decimal(d));
  }

  /** Any scrubber puts an address's tag in its place, the tag it has in the table by then. */
  method ScrubAddress(s: Scrubber, pre: string, ip: string, post: string) returns (out: string)
    requires s.Valid() && IsAddress(ip)
    requires NoDigits(pre) && NoDigits(post) && AllPlain(pre) && AllPlain(post)
    modifies s
    ensures s.Valid() && ip in s.ipMap && out == pre + s.ipMap[ip] + post
    ensures ip in old(s.ipMap) ==> s.ipMap[ip] == old(s.ipMap[ip])
  {
    out := s.Scrub(pre + ip + post);
    AddressIsMasked(pre, ip, post, s.AllTables());
  }
}
