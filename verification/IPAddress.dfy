/** IPv6 texts: expansion to eight groups, value, canonical form, and the public-address test. */
module IPAddress {
  import opened Bits
  import opened Wrappers
  import Text

  // ---- Splitting and joining ----------------------------------------------------------------------

  predicate OccursAt(s: string, sep: string, i: nat) {
    i + |sep| <= |s| && s[i..i + |sep|] == sep
  }

  /** Where `sep` first occurs in `s`, from position `n` on. */
  function IndexOf(s: string, sep: string, n: nat): (r: Option<nat>)
    ensures r.None? ==> forall i :: n <= i ==> !OccursAt(s, sep, i)
    ensures r.Some? ==> n <= r.value && OccursAt(s, sep, r.value)
    ensures r.Some? ==> forall i :: n <= i < r.value ==> !OccursAt(s, sep, i)
    decreases |s| - n
  {
    if n + |sep| > |s| then None
    else if OccursAt(s, sep, n) then Some(n)
    else IndexOf(s, sep, n + 1)
  }

  /** JavaScript's `split`. */
  function Split(s: string, sep: string): (parts: seq<string>)
    requires sep != []
    ensures parts != []
    decreases |s|
  {
    var at := IndexOf(s, sep, 0);
    if at.None? then [s] else [s[..at.value]] + Split(s[at.value + |sep|..], sep)
  }

  function Join(parts: seq<string>, sep: string): string
    requires parts != []
  {
    if |parts| == 1 then parts[0] else parts[0] + sep + Join(parts[1..], sep)
  }

  lemma CharOccurs(s: string, c: char)
    ensures forall i: nat :: OccursAt(s, [c], i) <==> i < |s| && s[i] == c
  {
    forall i: nat | i < |s|
      ensures s[i..i + 1] == [s[i]]
    {
    }
  }

  lemma NoPair(s: string, c: char)
    requires c !in s
    ensures forall i: nat :: !OccursAt(s, [c, c], i)
  {
    forall i: nat
      ensures !OccursAt(s, [c, c], i)
    {
      if i + 2 <= |s| {
        assert s[i..i + 2][0] == s[i] && s[i] in s;
      }
    }
  }

  lemma NotSplit(s: string, sep: string)
    requires sep != [] && forall i: nat :: !OccursAt(s, sep, i)
    ensures Split(s, sep) == [s]
  {
  }

  lemma SplitAtFirst(s: string, sep: string, i: nat)
    requires sep != [] && OccursAt(s, sep, i) && forall j :: 0 <= j < i ==> !OccursAt(s, sep, j)
    ensures Split(s, sep) == [s[..i]] + Split(s[i + |sep|..], sep)
  {
  }

  lemma {:induction false} SplitOfJoin(parts: seq<string>, c: char)
    requires parts != [] && forall p :: p in parts ==> c !in p
    ensures Split(Join(parts, [c]), [c]) == parts
  {
    var s := Join(parts, [c]);
    CharOccurs(s, c);
    assert parts[0] in parts;
    if |parts| == 1 {
      assert s == parts[0];
      NotSplit(s, [c]);
    } else {
      var i := |parts[0]|;
      assert s == parts[0] + [c] + Join(parts[1..], [c]);
      assert forall j :: 0 <= j < i ==> s[j] == parts[0][j] != c;
      SplitAtFirst(s, [c], i);
      assert s[..i] == parts[0] && s[i + 1..] == Join(parts[1..], [c]);
      SplitOfJoin(parts[1..], c);
      assert parts == [parts[0]] + parts[1..];
    }
  }

  // ---- Hexadecimal ---------------------------------------------------------------------------------

  predicate IsHexDigit(c: char) { '0' <= c <= '9' || 'a' <= c <= 'f' }

  /** One to four lower-case hexadecimal digits. */
  predicate IsHextet(h: string) { 1 <= |h| <= 4 && forall c :: c in h ==> IsHexDigit(c) }

  function DigitValue(c: char): (d: nat)
    requires IsHexDigit(c)
    ensures d < 16
  {
    if c <= '9' then (c - '0') as int else (c - 'a') as int + 10
  }

  function HexDigit(d: nat): (c: char)
    requires d < 16
    ensures IsHexDigit(c) && DigitValue(c) == d
  {
    if d < 10 then '0' + d as char else 'a' + (d - 10) as char
  }

  /** `parseInt(h, 16)`. */
  function ParseHex(h: string): nat
    requires forall c :: c in h ==> IsHexDigit(c)
  {
    if h == [] then 0 else ParseHex(h[..|h| - 1]) * 16 + DigitValue(h[|h| - 1])
  }

  /** `n.toString(16)`. */
  function Hex(n: nat): (h: string)
    ensures h != [] && forall c :: c in h ==> IsHexDigit(c)
  {
    if n < 16 then [HexDigit(n)] else Hex(n / 16) + [HexDigit(n % 16)]
  }

  lemma {:induction false} ParseOfHex(n: nat)
    ensures ParseHex(Hex(n)) == n
  {
    if n >= 16 {
      ParseOfHex(n / 16);
      assert Hex(n)[..|Hex(n)| - 1] == Hex(n / 16);
    } else {
      assert Hex(n)[..0] == [];
    }
  }

  function Pow16(k: nat): (p: nat)
    ensures p > 0
  {
    if k == 0 then 1 else 16 * Pow16(k - 1)
  }

  lemma {:induction false} HexLength(n: nat, k: nat)
    requires k > 0 && n < Pow16(k)
    ensures |Hex(n)| <= k
  {
    if n >= 16 {
      HexLength(n / 16, k - 1);
    }
  }

  lemma {:induction false} HexBound(h: string)
    requires forall c :: c in h ==> IsHexDigit(c)
    ensures ParseHex(h) < Pow16(|h|)
  {
    if h != [] {
      HexBound(h[..|h| - 1]);
    }
  }

  lemma {:induction false} Pow16Monotonic(j: nat, k: nat)
    requires j <= k
    ensures Pow16(j) <= Pow16(k)
    decreases k
  {
    if j < k {
      Pow16Monotonic(j, k - 1);
    }
  }

  lemma HextetBound(h: string)
    requires IsHextet(h)
    ensures ParseHex(h) < 0x1_0000
  {
    HexBound(h);
    Pow16Monotonic(|h|, 4);
    assert Pow16(4) == 0x1_0000;
  }

  lemma HexIsHextet(n: nat)
    requires n < 0x1_0000
    ensures IsHextet(Hex(n))
  {
    assert Pow16(4) == 0x1_0000;
    HexLength(n, 4);
  }

  // ---- Expansion -----------------------------------------------------------------------------------

  /** White space as `String.prototype.trim` sees it. */
  predicate IsSpace(c: char) {
    (Text.IsSpace(c) && c != '\U{0085}') || c == '\U{FEFF}'
  }

  function Trimmed(s: string): string { Text.Trim(s, c => IsSpace(c)) }

  type Groups = g: seq<string> | forall h :: h in g ==> IsHextet(h)

  function ParsePart(part: string): Option<Groups> {
    if part == [] then Some([])
    else if forall h :: h in Split(part, ":") ==> IsHextet(h) then Some(Split(part, ":"))
    else None
  }

  function Zeros(n: nat): (g: Groups)
    ensures |g| == n
  {
    seq(n, i => "0")
  }

  function Clean(ip: string): string { Split(Text.ToLower(Trimmed(ip)), "%")[0] }

  /** The eight groups of an IPv6 text, or nothing when it is not one. */
  function ExpandIPv6(ip: string): (r: Option<Groups>)
    ensures r.Some? ==> |r.value| == 8
  {
    Expand(Clean(ip))
  }

  function Expand(s: string): (r: Option<Groups>)
    ensures r.Some? ==> |r.value| == 8
  {
    var halves := Split(s, "::");
    if ':' !in s || |halves| > 2 then None
    else
      var left := ParsePart(halves[0]);
      var right := if |halves| == 2 then ParsePart(halves[1]) else Some([]);
      if left.None? || right.None? then None
      else if |halves| == 2 then
        var fill := 8 - |left.value| - |right.value|;
        if fill < 1 then None else Some(left.value + Zeros(fill) + right.value)
      else if |left.value| != 8 then None
      else left
  }

  predicate Accepted(ip: string) { ExpandIPv6(ip).Some? }

  // ---- Value ---------------------------------------------------------------------------------------

  ghost function ValueOf(g: Groups): nat {
    if g == [] then 0 else ValueOf(g[..|g| - 1]) * 0x1_0000 + ParseHex(g[|g| - 1])
  }

  /** The 128-bit value of an accepted text. */
  ghost function Value(ip: string): nat
    requires Accepted(ip)
  {
    ValueOf(ExpandIPv6(ip).value)
  }

  method ParseIPv6BigInt(ip: string) returns (r: Option<nat>)
    ensures r == if Accepted(ip) then Some(Value(ip)) else None
  {
    var hextets := ExpandIPv6(ip);
    if hextets.None? { return None; }
    var n: nat := 0;
    for i := 0 to |hextets.value|
      invariant n == ValueOf(hextets.value[..i])
    {
      assert hextets.value[..i + 1][..i] == hextets.value[..i];
      n := n * 0x1_0000 + ParseHex(hextets.value[i]);
    }
    assert hextets.value[..|hextets.value|] == hextets.value;
    r := Some(n);
  }

  ghost function Numbers(g: Groups): seq<nat> {
    seq(|g|, i requires 0 <= i < |g| => ParseHex(g[i]))
  }

  lemma {:induction false} ValueInjective(a: Groups, b: Groups)
    requires |a| == |b| && ValueOf(a) == ValueOf(b)
    ensures Numbers(a) == Numbers(b)
  {
    if a != [] {
      var n := |a| - 1;
      HextetBound(a[n]);
      HextetBound(b[n]);
      ValueInjective(a[..n], b[..n]);
      forall i | 0 <= i <= n
        ensures Numbers(a)[i] == Numbers(b)[i]
      {
        if i < n {
          assert Numbers(a)[i] == Numbers(a[..n])[i] && Numbers(b)[i] == Numbers(b[..n])[i];
        }
      }
    }
  }

  lemma {:induction false} NumbersGiveValue(a: Groups, b: Groups)
    requires Numbers(a) == Numbers(b)
    ensures ValueOf(a) == ValueOf(b)
  {
    assert |a| == |Numbers(a)| == |Numbers(b)| == |b|;
    if a != [] {
      var n := |a| - 1;
      assert Numbers(a)[n] == Numbers(b)[n];
      assert Numbers(a[..n]) == Numbers(a)[..n] && Numbers(b[..n]) == Numbers(b)[..n];
      NumbersGiveValue(a[..n], b[..n]);
    }
  }

  // ---- Normal form -----------------------------------------------------------------------------------

  function Canonical(g: Groups): (r: seq<string>)
    ensures |r| == |g| && forall i :: 0 <= i < |g| ==> r[i] == Hex(ParseHex(g[i]))
  {
    seq(|g|, i requires 0 <= i < |g| => Hex(ParseHex(g[i])))
  }

  function NormalizeIP(ip: string): string {
    if ':' in ip then
      var hextets := ExpandIPv6(ip);
      if hextets.None? then Text.ToLower(Trimmed(ip)) else Join(Canonical(hextets.value), ":")
    else Trimmed(ip)
  }

  /** Groups printed by `NormalizeIP`. */
  ghost predicate IsCanonical(g: Groups) {
    |g| == 8 && forall h :: h in g ==> h == Hex(ParseHex(h))
  }

  lemma CanonicalGroups(g: Groups)
    ensures forall h :: h in Canonical(g) ==> IsHextet(h)
    ensures |g| == 8 ==> IsCanonical(Canonical(g))
    ensures Numbers(Canonical(g)) == Numbers(g)
  {
    forall i | 0 <= i < |g|
      ensures IsHextet(Canonical(g)[i]) && ParseHex(Canonical(g)[i]) == ParseHex(g[i])
    {
      HextetBound(g[i]);
      HexIsHextet(ParseHex(g[i]));
      ParseOfHex(ParseHex(g[i]));
    }
  }

  /** What joining groups can print: digits, and colons that never touch. */
  lemma {:induction false} JoinedText(g: Groups)
    requires g != []
    ensures forall c :: c in Join(g, ":") ==> IsHexDigit(c) || c == ':'
    ensures Join(g, ":")[0] != ':' && Join(g, ":")[|Join(g, ":")| - 1] != ':'
    ensures forall i: nat :: !OccursAt(Join(g, ":"), "::", i)
    ensures |g| > 1 ==> ':' in Join(g, ":")
  {
    var s := Join(g, ":");
    assert g[0] in g && g[0][0] in g[0];
    assert g[0][|g[0]| - 1] in g[0];
    if |g| > 1 {
      var tail := Join(g[1..], ":");
      JoinedText(g[1..]);
      assert s == g[0] + ":" + tail;
      assert s[|s| - 1] == tail[|tail| - 1];
      forall i: nat
        ensures !OccursAt(s, "::", i)
      {
        if OccursAt(s, "::", i) {
          Touching(g[0], tail, s, i);
        }
      }
    } else {
      NoPair(s, ':');
    }
  }

  lemma Touching(h: string, tail: string, s: string, i: nat)
    requires ':' !in h && tail != [] && tail[0] != ':' && forall j: nat :: !OccursAt(tail, "::", j)
    requires s == h + ":" + tail
    ensures !OccursAt(s, "::", i)
  {
    if OccursAt(s, "::", i) {
      assert s[i] == s[i..i + 2][0] && s[i + 1] == s[i..i + 2][1];
      assert i > |h|;
      assert tail[i - |h| - 1..i - |h| + 1] == s[i..i + 2];
      assert OccursAt(tail, "::", i - |h| - 1);
    }
  }

  // ---- Cleaning ------------------------------------------------------------------------------------

  predicate NoSpaceAround(s: string) {
    s == [] || (!IsSpace(s[0]) && !IsSpace(s[|s| - 1]))
  }

  lemma {:induction false} TrimRightKeeps(s: string, c: char)
    requires c in s && !IsSpace(c)
    ensures c in Text.TrimRight(s, c => IsSpace(c))
  {
    if IsSpace(s[|s| - 1]) {
      assert s == s[..|s| - 1] + [s[|s| - 1]];
      TrimRightKeeps(s[..|s| - 1], c);
    }
  }

  lemma {:induction false} TrimLeftMembers(s: string, c: char)
    ensures c in Text.TrimLeft(s, c => IsSpace(c)) ==> c in s
    ensures c in s && !IsSpace(c) ==> c in Text.TrimLeft(s, c => IsSpace(c))
  {
    if s != [] && IsSpace(s[0]) {
      assert s == [s[0]] + s[1..];
      TrimLeftMembers(s[1..], c);
    }
  }

  lemma TrimMembers(s: string, c: char)
    ensures c in Trimmed(s) ==> c in s
    ensures c in s && !IsSpace(c) ==> c in Trimmed(s)
  {
    TrimLeftMembers(s, c);
    if c in s && !IsSpace(c) {
      TrimRightKeeps(Text.TrimLeft(s, c => IsSpace(c)), c);
    }
  }

  lemma TrimIsTrim(s: string)
    ensures NoSpaceAround(Trimmed(s))
    ensures NoSpaceAround(s) ==> Trimmed(s) == s
  {
  }

  lemma LowerMembers(s: string)
    ensures ':' in Text.ToLower(s) <==> ':' in s
    ensures NoSpaceAround(s) ==> NoSpaceAround(Text.ToLower(s))
  {
    var t := Text.ToLower(s);
    if i :| 0 <= i < |s| && s[i] == ':' {
      assert t[i] == ':';
    }
  }

  lemma LowerTwice(s: string)
    ensures Text.ToLower(Text.ToLower(s)) == Text.ToLower(s)
  {
  }

  /** The cleaned form of a text is already trimmed and in lower case. */
  lemma CleanedTwice(ip: string)
    ensures var t := Text.ToLower(Trimmed(ip));
      Trimmed(t) == t && Text.ToLower(Trimmed(t)) == t && Clean(t) == Clean(ip)
  {
    var t := Text.ToLower(Trimmed(ip));
    TrimIsTrim(ip);
    LowerMembers(Trimmed(ip));
    TrimIsTrim(t);
    LowerTwice(Trimmed(ip));
  }

  lemma CleanColon(ip: string)
    requires ':' in Clean(ip)
    ensures ':' in ip
  {
    LowerMembers(Trimmed(ip));
    TrimMembers(ip, ':');
  }

  predicate AllSpace(s: string) { forall i :: 0 <= i < |s| ==> IsSpace(s[i]) }

  lemma {:induction false} SpaceInFront(pre: string, s: string)
    requires AllSpace(pre) && s != [] && !IsSpace(s[0])
    ensures Text.TrimLeft(pre + s, c => IsSpace(c)) == s
  {
    if pre == [] {
      assert pre + s == s;
    } else {
      assert (pre + s)[1..] == pre[1..] + s;
      SpaceInFront(pre[1..], s);
    }
  }

  lemma {:induction false} SpaceBehind(s: string, post: string)
    requires AllSpace(post) && s != [] && !IsSpace(s[|s| - 1])
    ensures Text.TrimRight(s + post, c => IsSpace(c)) == s
  {
    if post == [] {
      assert s + post == s;
    } else {
      assert (s + post)[..|s + post| - 1] == s + post[..|post| - 1];
      SpaceBehind(s, post[..|post| - 1]);
    }
  }

  lemma SpaceAround(pre: string, s: string, post: string)
    requires AllSpace(pre) && AllSpace(post) && s != [] && NoSpaceAround(s)
    ensures Trimmed(pre + s + post) == s
  {
    assert pre + s + post == pre + (s + post);
    SpaceInFront(pre, s + post);
    SpaceBehind(s, post);
  }

  lemma {:induction false} FirstPart(a: string, b: string, c: char)
    requires c !in a
    ensures Split(a + [c] + b, [c])[0] == a
  {
    var s := a + [c] + b;
    CharOccurs(s, c);
    assert s[|a|] == c && forall i :: 0 <= i < |a| ==> s[i] == a[i] && a[i] in a;
    assert IndexOf(s, [c], 0) == Some(|a|);
    assert s[..|a|] == a;
  }

  /** What cleaning comes to: no space around the text, no zone, lower case. */
  lemma {:induction false} CleanIs(pre: string, t: string, zone: string, post: string)
    requires AllSpace(pre) && AllSpace(post) && NoSpaceAround(t) && t != [] && '%' !in t
    requires zone == [] || !IsSpace(zone[|zone| - 1])
    ensures Clean(pre + t + post) == Text.ToLower(t)
    ensures Clean(pre + (t + ['%'] + zone) + post) == Text.ToLower(t)
  {
    var zoned, low := t + ['%'] + zone, Text.ToLower(t);
    SpaceAround(pre, t, post);
    SpaceAround(pre, zoned, post);
    assert Text.ToLower(zoned) == low + ['%'] + Text.ToLower(zone);
    NoPercent(t);
    FirstPart(low, Text.ToLower(zone), '%');
    CharOccurs(low, '%');
    NotSplit(low, ['%']);
  }

  lemma NoPercent(t: string)
    requires '%' !in t
    ensures '%' !in Text.ToLower(t)
  {
    var low := Text.ToLower(t);
    forall i | 0 <= i < |low|
      ensures low[i] != '%'
    {
      assert t[i] in t;
    }
  }

  lemma PlainText(s: string)
    requires s != [] && (forall c :: c in s ==> IsHexDigit(c) || c == ':')
    ensures Clean(s) == s
  {
    assert s[0] in s && s[|s| - 1] in s;
    TrimIsTrim(s);
    assert forall i :: 0 <= i < |s| ==> s[i] in s;
    assert Text.ToLower(s) == s;
    CharOccurs(s, '%');
    NotSplit(s, "%");
  }

  // ---- Results -------------------------------------------------------------------------------------

  lemma GroupsExpand(g: Groups)
    requires |g| == 8
    ensures ExpandIPv6(Join(g, ":")) == Some(g)
  {
    JoinedText(g);
    PlainText(Join(g, ":"));
    FullExpands(Join(g, ":"), g);
  }

  lemma {:induction false} NormalForm(ip: string)
    requires Accepted(ip)
    ensures var g := ExpandIPv6(ip).value;
      && NormalizeIP(ip) == Join(Canonical(g), ":")
      && ExpandIPv6(NormalizeIP(ip)) == Some(Canonical(g))
  {
    CleanColon(ip);
    var g := ExpandIPv6(ip).value;
    CanonicalGroups(g);
    GroupsExpand(Canonical(g));
  }

  /** Normalising keeps the value. */
  lemma {:induction false} NormalKeepsValue(ip: string)
    requires Accepted(ip)
    ensures Accepted(NormalizeIP(ip)) && Value(NormalizeIP(ip)) == Value(ip)
  {
    NormalForm(ip);
    var g := ExpandIPv6(ip).value;
    CanonicalGroups(g);
    NumbersGiveValue(Canonical(g), g);
  }

  lemma AcceptedIsStable(ip: string)
    requires Accepted(ip)
    ensures NormalizeIP(NormalizeIP(ip)) == NormalizeIP(ip)
  {
    NormalForm(ip);
    NormalForm(NormalizeIP(ip));
    var g := ExpandIPv6(ip).value;
    CanonicalGroups(g);
    assert Canonical(Canonical(g)) == Canonical(g);
  }

  lemma RefusedIsStable(ip: string)
    requires !Accepted(ip)
    ensures NormalizeIP(NormalizeIP(ip)) == NormalizeIP(ip)
  {
    TrimMembers(ip, ':');
    if ':' in ip {
      CleanedTwice(ip);
      LowerMembers(Trimmed(ip));
    } else {
      TrimIsTrim(ip);
      TrimIsTrim(Trimmed(ip));
    }
  }

  /** Normalising twice is normalising once, for any text. */
  lemma {:induction false} NormalIsStable(ip: string)
    ensures NormalizeIP(NormalizeIP(ip)) == NormalizeIP(ip)
  {
    if Accepted(ip) {
      AcceptedIsStable(ip);
    } else {
      RefusedIsStable(ip);
    }
  }

  lemma SameNumbersSameForm(g: Groups, h: Groups)
    requires Numbers(g) == Numbers(h)
    ensures Canonical(g) == Canonical(h)
  {
    assert |g| == |Numbers(g)| == |Numbers(h)| == |h|;
    forall i | 0 <= i < |g|
      ensures Canonical(g)[i] == Canonical(h)[i]
    {
      assert Numbers(g)[i] == Numbers(h)[i];
    }
  }

  /** Two texts of an address have one normal form, and only they do. */
  lemma {:induction false} NormalIsCanonical(a: string, b: string)
    requires Accepted(a) && Accepted(b)
    ensures NormalizeIP(a) == NormalizeIP(b) <==> Value(a) == Value(b)
  {
    NormalForm(a);
    NormalForm(b);
    NormalKeepsValue(a);
    NormalKeepsValue(b);
    if Value(a) == Value(b) {
      var g, h := ExpandIPv6(a).value, ExpandIPv6(b).value;
      ValueInjective(g, h);
      SameNumbersSameForm(g, h);
    }
  }

  // ---- The texts that are accepted -------------------------------------------------------------------

  function TextOf(g: Groups): string { if g == [] then "" else Join(g, ":") }

  /** Section 2.2 of RFC 4291: eight groups, or fewer around one `::` that stands for the zeros. */
  ghost predicate Denotes(s: string, g: Groups) {
    |g| == 8 && (s == Join(g, ":") || exists l, r :: Compressed(s, g, l, r))
  }

  ghost predicate Compressed(s: string, g: Groups, l: Groups, r: Groups) {
    |l| + |r| < 8 && g == l + Zeros(8 - |l| - |r|) + r && s == TextOf(l) + "::" + TextOf(r)
  }

  lemma {:induction false} JoinOfSplit(s: string, sep: string)
    requires sep != []
    ensures Join(Split(s, sep), sep) == s
    decreases |s|
  {
    var at := IndexOf(s, sep, 0);
    if at.Some? {
      JoinOfSplit(s[at.value + |sep|..], sep);
      assert Split(s, sep)[1..] == Split(s[at.value + |sep|..], sep);
      assert s == s[..at.value] + s[at.value..at.value + |sep|] + s[at.value + |sep|..];
    }
  }

  lemma ParsedPart(part: string)
    requires ParsePart(part).Some?
    ensures TextOf(ParsePart(part).value) == part
  {
    if part != [] {
      JoinOfSplit(part, ":");
    }
  }

  lemma PartOf(g: Groups)
    ensures ParsePart(TextOf(g)) == Some(g)
  {
    if g != [] {
      JoinedText(g);
      assert forall h :: h in g ==> ':' !in h;
      SplitOfJoin(g, ':');
      assert g[0] in g && TextOf(g) != [];
    }
  }

  lemma FullDenotes(s: string)
    requires Expand(s).Some? && |Split(s, "::")| == 1
    ensures Denotes(s, Expand(s).value)
  {
    JoinOfSplit(s, "::");
    ParsedPart(s);
  }

  lemma CompressedDenotes(s: string)
    requires Expand(s).Some? && |Split(s, "::")| == 2
    ensures Denotes(s, Expand(s).value)
  {
    var halves := Split(s, "::");
    JoinOfSplit(s, "::");
    assert Join(halves[1..], "::") == halves[1];
    ParsedPart(halves[0]);
    ParsedPart(halves[1]);
    assert Compressed(s, Expand(s).value, ParsePart(halves[0]).value, ParsePart(halves[1]).value);
  }

  lemma NoPairBefore(a: string, b: string, j: nat)
    requires j < |a| && !OccursAt(a, "::", j) && a[|a| - 1] != ':'
    ensures !OccursAt(a + "::" + b, "::", j)
  {
    var s := a + "::" + b;
    if j + 1 < |a| {
      assert s[j..j + 2] == a[j..j + 2];
    } else {
      assert s[j..j + 2][0] == a[j];
    }
  }

  lemma SplitPair(a: string, b: string)
    requires a == [] || a[|a| - 1] != ':'
    requires forall j: nat :: !OccursAt(a, "::", j) && !OccursAt(b, "::", j)
    ensures Split(a + "::" + b, "::") == [a, b]
  {
    var s := a + "::" + b;
    forall j: nat | j < |a|
      ensures !OccursAt(s, "::", j)
    {
      assert !OccursAt(a, "::", j);
      NoPairBefore(a, b, j);
    }
    assert s[|a|..|a| + 2] == "::";
    SplitAtFirst(s, "::", |a|);
    assert s[..|a|] == a && s[|a| + 2..] == b;
    assert forall j: nat :: !OccursAt(b, "::", j);
    NotSplit(b, "::");
  }

  lemma TextHasNoPair(g: Groups)
    ensures TextOf(g) == [] || TextOf(g)[|TextOf(g)| - 1] != ':'
    ensures forall j: nat :: !OccursAt(TextOf(g), "::", j)
  {
    if g != [] {
      JoinedText(g);
    }
  }

  /** The only `::` of a compressed text is the one in the middle. */
  lemma OnePair(l: Groups, r: Groups)
    ensures Split(TextOf(l) + "::" + TextOf(r), "::") == [TextOf(l), TextOf(r)]
  {
    TextHasNoPair(l);
    TextHasNoPair(r);
    SplitPair(TextOf(l), TextOf(r));
  }

  lemma HalvesExpand(s: string, a: string, b: string, l: Groups, r: Groups)
    requires ':' in s && Split(s, "::") == [a, b] && |l| + |r| < 8
    requires ParsePart(a) == Some(l) && ParsePart(b) == Some(r)
    ensures Expand(s) == Some(l + Zeros(8 - |l| - |r|) + r)
  {
  }

  lemma CompressedExpands(s: string, g: Groups, l: Groups, r: Groups)
    requires |g| == 8 && Compressed(s, g, l, r)
    ensures Expand(s) == Some(g)
  {
    var a, b := TextOf(l), TextOf(r);
    OnePair(l, r);
    PartOf(l);
    PartOf(r);
    assert (a + "::" + b)[|a|] == ':';
    HalvesExpand(s, a, b, l, r);
  }

  lemma FullExpands(s: string, g: Groups)
    requires |g| == 8 && s == Join(g, ":")
    ensures Expand(s) == Some(g)
  {
    JoinedText(g);
    NotSplit(s, "::");
    PartOf(g);
  }

  /** The texts that are accepted, and the groups they stand for. */
  lemma ExpandsIff(ip: string, g: Groups)
    ensures ExpandIPv6(ip) == Some(g) <==> Denotes(Clean(ip), g)
  {
    var s := Clean(ip);
    if Expand(s) == Some(g) {
      if |Split(s, "::")| == 1 {
        FullDenotes(s);
      } else {
        CompressedDenotes(s);
      }
    }
    if Denotes(s, g) {
      if s == Join(g, ":") {
        FullExpands(s, g);
      } else {
        var l, r :| Compressed(s, g, l, r);
        CompressedExpands(s, g, l, r);
      }
    }
  }

  // ---- Public addresses ------------------------------------------------------------------------------

  method IsPublicIPv6(ip: string) returns (public: bool)
    ensures public <==> Accepted(ip) && PublicNumbers(Numbers(ExpandIPv6(ip).value))
  {
    var n := ParseIPv6BigInt(ip);
    if n.None? { return false; }
    ghost var g := ExpandIPv6(ip).value;
    UnspecifiedAndLoopback(g);
    Prefixes(g);
    if n.value == 0 { return false; }
    if n.value == 1 { return false; }
    if ShiftRight(n.value, 118) == 0x3fa { return false; }
    if ShiftRight(n.value, 121) == 0x7e { return false; }
    if ShiftRight(n.value, 120) == 0xff { return false; }
    if ShiftRight(n.value, 96) == 0x20010db8 { return false; }
    public := true;
  }

  /** `::` and `::1` (sections 2.5.2 and 2.5.3 of RFC 4291). */
  ghost predicate Unspecified(n: seq<nat>) { |n| == 8 && forall i :: 0 <= i < 8 ==> n[i] == 0 }
  ghost predicate Loopback(n: seq<nat>) { |n| == 8 && n[7] == 1 && forall i :: 0 <= i < 7 ==> n[i] == 0 }

  /** Multicast and link-local addresses (section 2.4 of RFC 4291), as ranges of the first group. */
  ghost predicate Multicast(n: seq<nat>) { |n| == 8 && 0xff00 <= n[0] <= 0xffff }
  ghost predicate LinkLocal(n: seq<nat>) { |n| == 8 && 0xfe80 <= n[0] <= 0xfebf }

  /** Unique local addresses (section 3.1 of RFC 4193), documentation addresses (section 2 of RFC 3849). */
  ghost predicate UniqueLocal(n: seq<nat>) { |n| == 8 && 0xfc00 <= n[0] <= 0xfdff }
  ghost predicate Documentation(n: seq<nat>) { |n| == 8 && n[0] == 0x2001 && n[1] == 0xdb8 }

  ghost predicate PublicNumbers(n: seq<nat>) {
    !Unspecified(n) && !Loopback(n) && !Multicast(n) && !LinkLocal(n) && !UniqueLocal(n) && !Documentation(n)
  }

  lemma {:induction false} ZerosAreZero(n: nat)
    ensures ValueOf(Zeros(n)) == 0
  {
    if n > 0 {
      assert Zeros(n)[..n - 1] == Zeros(n - 1);
      ZerosAreZero(n - 1);
      ZeroDigit();
    }
  }

  lemma ZeroDigit()
    ensures ParseHex("0") == 0 && ParseHex("1") == 1
  {
    assert "0"[..0] == [] && "1"[..0] == [];
  }

  lemma UnspecifiedAndLoopback(g: Groups)
    requires |g| == 8
    ensures ValueOf(g) == 0 <==> Unspecified(Numbers(g))
    ensures ValueOf(g) == 1 <==> Loopback(Numbers(g))
  {
    SameAs(g, Zeros(8));
    SameAs(g, Zeros(7) + ["1"]);
    ZerosAreZero(7);
    ZerosAreZero(8);
    ZeroDigit();
    assert (Zeros(7) + ["1"])[..7] == Zeros(7);
  }

  lemma SameAs(g: Groups, h: Groups)
    requires |g| == |h|
    ensures ValueOf(g) == ValueOf(h) <==> forall i :: 0 <= i < |g| ==> Numbers(g)[i] == Numbers(h)[i]
  {
    if ValueOf(g) == ValueOf(h) {
      ValueInjective(g, h);
    }
    if forall i :: 0 <= i < |g| ==> Numbers(g)[i] == Numbers(h)[i] {
      assert Numbers(g) == Numbers(h);
      NumbersGiveValue(g, h);
    }
  }

  /** Shifting away the last groups leaves the value of the first ones. */
  lemma {:induction false} HighGroups(g: Groups, k: nat)
    requires k <= |g|
    ensures ShiftRight(ValueOf(g), 16 * (|g| - k)) == ValueOf(g[..k])
    decreases |g|
  {
    if k == |g| {
      assert g[..k] == g;
    } else {
      var n := |g| - 1;
      HighGroups(g[..n], k);
      HextetBound(g[n]);
      ShiftBy16(ValueOf(g));
      ShiftTwice(ValueOf(g), 16, 16 * (n - k));
      assert g[..n][..k] == g[..k];
    }
  }

  lemma FirstGroups(g: Groups)
    requires |g| == 8
    ensures ShiftRight(ValueOf(g), 112) == Numbers(g)[0] < 0x1_0000
    ensures ShiftRight(ValueOf(g), 96) == Numbers(g)[0] * 0x1_0000 + Numbers(g)[1]
    ensures Numbers(g)[1] < 0x1_0000
  {
    HighGroups(g, 1);
    HighGroups(g, 2);
    HextetBound(g[0]);
    HextetBound(g[1]);
    assert g[..1][..0] == [] && g[..2][..1] == g[..1];
  }

  /** The shift tests are the prefix ranges. */
  lemma Prefixes(g: Groups)
    requires |g| == 8
    ensures ShiftRight(ValueOf(g), 118) == 0x3fa <==> LinkLocal(Numbers(g))
    ensures ShiftRight(ValueOf(g), 121) == 0x7e <==> UniqueLocal(Numbers(g))
    ensures ShiftRight(ValueOf(g), 120) == 0xff <==> Multicast(Numbers(g))
    ensures ShiftRight(ValueOf(g), 96) == 0x20010db8 <==> Documentation(Numbers(g))
  {
    var first := Numbers(g)[0];
    FirstGroups(g);
    ShiftTwice(ValueOf(g), 112, 6);
    ShiftTwice(ValueOf(g), 112, 8);
    ShiftTwice(ValueOf(g), 112, 9);
    ShiftedGroup(first);
  }

  lemma ShiftedGroup(n: nat)
    ensures ShiftRight(n, 6) == n / 64 && ShiftRight(n, 8) == n / 256 && ShiftRight(n, 9) == n / 512
  {
    ShiftTwice(n, 4, 2);
    ShiftTwice(n, 4, 4);
    ShiftTwice(n, 8, 1);
    ShiftBy4(n);
    ShiftBy4(n / 16);
    ShiftBy1And2(n / 16);
    ShiftBy1And2(n / 256);
  }

  /** Another spelling of an address is public exactly when the first one is. */
  lemma {:induction false} PublicByValue(a: string, b: string)
    requires Accepted(a) && Accepted(b) && Value(a) == Value(b)
    ensures PublicNumbers(Numbers(ExpandIPv6(a).value)) <==> PublicNumbers(Numbers(ExpandIPv6(b).value))
  {
    ValueInjective(ExpandIPv6(a).value, ExpandIPv6(b).value);
  }
}
