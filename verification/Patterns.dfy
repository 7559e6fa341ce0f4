/**
 The scrubber's regular expressions, as functions from a position to the end of the match
 that begins there (or back to the position itself when none does). Every expression is
 deterministic from its starting point, so this is what leftmost-first matching finds.
 Whatever is matched contains no angle bracket and cannot be part of a tag.
 */
module Patterns {
  import Text
  import opened Tags

  predicate IsDigit(c: char) { '0' <= c <= '9' }
  predicate IsLetter(c: char) { 'a' <= c <= 'z' || 'A' <= c <= 'Z' }
  predicate IsHex(c: char) { IsDigit(c) || 'a' <= c <= 'f' || 'A' <= c <= 'F' }
  predicate IsWord(c: char) { IsDigit(c) || IsLetter(c) || c == '_' }
  predicate IsBlank(c: char) { c in {' ', '\t', '\n', '\U{000C}', '\r'} }
  predicate IsLocal(c: char) { IsDigit(c) || IsLetter(c) || c in {'.', '_', '%', '+', '-'} }
  predicate IsDomain(c: char) { IsDigit(c) || IsLetter(c) || c in {'.', '-'} }

  /** A letter under case folding, which adds the long s and the Kelvin sign. */
  predicate IsFoldedLetter(c: char) { IsLetter(c) || c in {'\U{017F}', '\U{212A}'} }
  predicate IsBearer(c: char) { IsDigit(c) || IsFoldedLetter(c) || c in {'-', '.', '_', '~', '+', '/'} }
  predicate IsAccount(c: char) { IsDigit(c) || IsFoldedLetter(c) || c in {'-', '_'} }
  predicate IsQuote(c: char) { c == '"' || c == '\'' }

  function Fold(c: char): char { if 'A' <= c <= 'Z' then c + 32 as char else c }

  /** `s` continues at `i` with `word`, ignoring case. */
  predicate FoldedAt(s: string, i: nat, word: string) {
    i + |word| <= |s| && forall k :: 0 <= k < |word| ==> Fold(s[i + k]) == word[k]
  }

  lemma FoldedIsLetters(s: string, i: nat, word: string)
    requires FoldedAt(s, i, word) && forall k :: 0 <= k < |word| ==> 'a' <= word[k] <= 'z'
    ensures forall j :: i <= j < i + |word| ==> IsLetter(s[j])
  {
    forall j | i <= j < i + |word|
      ensures IsLetter(s[j])
    {
      assert Fold(s[i + (j - i)]) == word[j - i];
    }
  }

  /** The end of the longest run of `p` from `i`. */
  function RunEnd(s: string, i: nat, p: char -> bool): (r: nat)
    requires i <= |s|
    ensures i <= r <= |s|
    decreases |s| - i
  {
    if i < |s| && p(s[i]) then RunEnd(s, i + 1, p) else i
  }

  lemma {:induction false} RunHolds(s: string, i: nat, p: char -> bool)
    requires i <= |s|
    ensures forall k :: i <= k < RunEnd(s, i, p) ==> p(s[k])
    decreases |s| - i
  {
    if i < |s| && p(s[i]) {
      RunHolds(s, i + 1, p);
    }
  }

  predicate NoBrackets(m: string) {
    forall i :: 0 <= i < |m| ==> m[i] != '<' && m[i] != '>'
  }

  /** A match from `i` to `e` is either empty or a barrier. */
  ghost predicate Matched(s: string, i: nat, e: nat) {
    i <= e <= |s| && (e > i ==> Barrier(s[i..e]))
  }

  lemma SpanIsBarrier(s: string, i: nat, e: nat, k: nat)
    requires i <= k < e <= |s| && Stopper(s[k])
    requires forall j :: i <= j < e ==> s[j] != '<' && s[j] != '>'
    ensures Matched(s, i, e)
  {
    assert s[i..e][k - i] == s[k];
  }

  // ---- Reversible expressions -----------------------------------------------------------------

  /** A dot at `p`, and two letters after it before `hi`. */
  predicate DotAt(s: string, p: nat, hi: nat)
    requires hi <= |s|
  {
    p + 3 <= hi && s[p] == '.' && IsLetter(s[p + 1]) && IsLetter(s[p + 2])
  }

  /** The last such dot from `lo` up to `p`; `lo` when there is none. */
  function LastDot(s: string, lo: nat, p: nat, hi: nat): (r: nat)
    requires lo <= p && hi <= |s|
    ensures lo <= r <= p && (r > lo ==> DotAt(s, r, hi))
    decreases p
  {
    if p == lo then lo
    else if DotAt(s, p, hi) then p
    else LastDot(s, lo, p - 1, hi)
  }

  /** The end of `.+\.[a-zA-Z]{2,}` from `lo`, with the dot before `hi`, or `lo`. */
  function LabelEnd(s: string, lo: nat, hi: nat): (e: nat)
    requires lo < hi <= |s|
    ensures lo <= e <= |s|
  {
    var dot := LastDot(s, lo, hi - 1, hi);
    if dot == lo then lo else RunEnd(s, dot + 1, IsLetter)
  }

  /** The end of `[a-zA-Z0-9.\-]+\.[a-zA-Z]{2,}` after the character at `at`, or `at`. */
  function DomainEnd(s: string, at: nat): (e: nat)
    requires at < |s|
    ensures at <= e <= |s|
  {
    var hi := RunEnd(s, at + 1, IsDomain);
    if hi == at + 1 || LabelEnd(s, at + 1, hi) == at + 1 then at else LabelEnd(s, at + 1, hi)
  }

  lemma DomainHolds(s: string, at: nat)
    requires at < |s|
    ensures forall j :: at < j < DomainEnd(s, at) ==> IsDomain(s[j])
  {
    var hi := RunEnd(s, at + 1, IsDomain);
    RunHolds(s, at + 1, IsDomain);
    if hi > at + 1 {
      var dot := LastDot(s, at + 1, hi - 1, hi);
      RunHolds(s, dot + 1, IsLetter);
    }
  }

  /** `[a-zA-Z0-9._%+\-]+@[a-zA-Z0-9.\-]+\.[a-zA-Z]{2,}` */
  function Email(s: string, i: nat): (e: nat)
    requires i < |s|
    ensures Matched(s, i, e)
  {
    var at := RunEnd(s, i, IsLocal);
    if at == i || at == |s| || s[at] != '@' then i
    else
      var e := DomainEnd(s, at);
      if e == at then i
      else
        RunHolds(s, i, IsLocal);
        DomainHolds(s, at);
        SpanIsBarrier(s, i, e, at);
        e
  }

  predicate UUIDChar(c: char, k: int) {
    if k in {8, 13, 18, 23} then c == '-' else IsHex(c)
  }

  /** Eight, four, four, four and twelve hexadecimal digits joined by dashes. */
  function UUID(s: string, i: nat): (e: nat)
    requires i < |s|
    ensures Matched(s, i, e)
  {
    if i + 36 <= |s| && forall j :: i <= j < i + 36 ==> UUIDChar(s[j], j - i) then
      assert UUIDChar(s[i + 8], 8);
      SpanIsBarrier(s, i, i + 36, i + 8);
      i + 36
    else i
  }

  /** `\b` at position `i`, where a word character stands before or after but not both. */
  predicate Boundary(s: string, i: nat)
    requires i <= |s|
  {
    (i > 0 && IsWord(s[i - 1])) != (i < |s| && IsWord(s[i]))
  }

  predicate MACChar(c: char, k: int) {
    if k in {2, 5, 8, 11, 14} then c == ':' else IsHex(c)
  }

  /** Six pairs of hexadecimal digits joined by colons, standing alone. */
  function MAC(s: string, i: nat): (e: nat)
    requires i < |s|
    ensures Matched(s, i, e)
  {
    if i + 17 <= |s| && Boundary(s, i) && Boundary(s, i + 17) && (forall j :: i <= j < i + 17 ==> MACChar(s[j], j - i))
    then
      assert MACChar(s[i + 2], 2);
      SpanIsBarrier(s, i, i + 17, i + 2);
      i + 17
    else i
  }

  /** One to three digits from `i`, and not more; `i` when there are none or too many. */
  function Octet(s: string, i: nat): (e: nat)
    requires i <= |s|
    ensures i <= e <= |s| && forall k :: i <= k < e ==> IsDigit(s[k])
  {
    var e := RunEnd(s, i, IsDigit);
    RunHolds(s, i, IsDigit);
    if e - i <= 3 then e else i
  }

  /** The ends of the four groups of digits, when they are there, separated by dots. */
  function Groups(s: string, i: nat): (g: seq<nat>)
    requires i < |s|
    ensures g == [] || (|g| == 4 && i < g[0] && g[0] + 1 < g[1] && g[1] + 1 < g[2] && g[2] + 1 < g[3] <= |s|)
    ensures g != [] ==> s[g[0]] == '.' && s[g[1]] == '.' && s[g[2]] == '.'
    ensures g != [] ==> forall j :: i <= j < g[3] ==> IsDigit(s[j]) || s[j] == '.'
  {
    var a := Octet(s, i);
    if a == i || a == |s| || s[a] != '.' then []
    else
      var b := Octet(s, a + 1);
      if b == a + 1 || b == |s| || s[b] != '.' then []
      else
        var c := Octet(s, b + 1);
        if c == b + 1 || c == |s| || s[c] != '.' then []
        else
          var d := Octet(s, c + 1);
          if d == c + 1 then [] else [a, b, c, d]
  }

  /** `\b(?:\d{1,3}\.){3}\d{1,3}\b` */
  function IP(s: string, i: nat): (e: nat)
    requires i < |s|
    ensures Matched(s, i, e)
  {
    var g := Groups(s, i);
    if g != [] && Boundary(s, i) && Boundary(s, g[3]) then
      SpanIsBarrier(s, i, g[3], g[0]);
      g[3]
    else i
  }

  predicate AllDigits(s: string) { forall k :: 0 <= k < |s| ==> IsDigit(s[k]) }

  /** A group Go's address parser accepts: at most 255 and without leading zeros. */
  predicate ValidOctet(s: string) {
    && AllDigits(s) && |s| > 0 && (|s| == 1 || s[0] != '0')
    && Text.NumberOf(s) <= 255
  }

  /** The match is an address and not just four numbers. */
  predicate ParsesAsIP(ip: string) {
    |ip| > 0 && var g := Groups(ip, 0);
      && g != [] && g[3] == |ip|
      && ValidOctet(ip[0..g[0]]) && ValidOctet(ip[g[0] + 1..g[1]])
      && ValidOctet(ip[g[1] + 1..g[2]]) && ValidOctet(ip[g[2] + 1..g[3]])
  }

  // ---- One-way redactions --------------------------------------------------------------------------

  /** Where the kept part of a redaction ends, and the match itself. */
  datatype Redaction = NoMatch | Redaction(kept: nat, end: nat)

  ghost predicate Redacted(s: string, i: nat, r: Redaction) {
    r.Redaction? ==> i < r.kept < r.end <= |s| && NoBrackets(s[i..r.kept]) && Barrier(s[i..r.end])
  }

  /** `(bearer\s+)[a-zA-Z0-9\-._~+/]+=*`, ignoring case; the group is kept. */
  function Bearer(s: string, i: nat): (r: Redaction)
    requires i < |s|
    ensures Redacted(s, i, r)
  {
    if !FoldedAt(s, i, "bearer") then NoMatch
    else
      var kept := RunEnd(s, i + 6, IsBlank);
      var value := RunEnd(s, kept, IsBearer);
      if kept == i + 6 || value == kept then NoMatch
      else
        var end := RunEnd(s, value, (c: char) => c == '=');
        FoldedIsLetters(s, i, "bearer");
        RunHolds(s, i + 6, IsBlank);
        RunHolds(s, kept, IsBearer);
        RunHolds(s, value, (c: char) => c == '=');
        SpanIsBarrier(s, i, end, i + 6);
        Redaction(kept, end)
  }

  /** The end of `word` from `i`, ignoring case, or `i`. */
  function Word(s: string, i: nat, word: string): (e: nat)
    requires i <= |s| && word != [] && forall k :: 0 <= k < |word| ==> 'a' <= word[k] <= 'z'
    ensures e == i || e == i + |word| <= |s|
  {
    if FoldedAt(s, i, word) then i + |word| else i
  }

  lemma WordHolds(s: string, i: nat, word: string)
    requires i <= |s| && word != [] && forall k :: 0 <= k < |word| ==> 'a' <= word[k] <= 'z'
    ensures forall j :: i <= j < Word(s, i, word) ==> IsLetter(s[j])
  {
    if FoldedAt(s, i, word) {
      FoldedIsLetters(s, i, word);
    }
  }

  /** The end of `[_-]?id` from `n`, or `n`. */
  function IDEnd(s: string, n: nat): (e: nat)
    requires n <= |s|
    ensures n <= e <= |s|
  {
    var m := if n < |s| && (s[n] == '_' || s[n] == '-') then n + 1 else n;
    var e := Word(s, m, "id");
    if e == m then n else e
  }

  /** The end of `account_id`, `org-id` and the like from `i`. */
  function AccountName(s: string, i: nat): (e: nat)
    requires i < |s|
    ensures i <= e <= |s|
  {
    var n := if Word(s, i, "account") > i then Word(s, i, "account") else Word(s, i, "org");
    if n == i || IDEnd(s, n) == n then i else IDEnd(s, n)
  }

  lemma NameHolds(s: string, i: nat)
    requires i < |s|
    ensures forall j :: i <= j < AccountName(s, i) ==> IsLetter(s[j]) || s[j] == '_' || s[j] == '-'
  {
    var n := if Word(s, i, "account") > i then Word(s, i, "account") else Word(s, i, "org");
    WordHolds(s, i, "account");
    WordHolds(s, i, "org");
    WordHolds(s, n, "id");
    if n < |s| {
      WordHolds(s, n + 1, "id");
    }
  }

  /** The end of `\s*[:=]` from `n`, or `n`. */
  function SeparatorEnd(s: string, n: nat): (e: nat)
    requires n <= |s|
    ensures n <= e <= |s| && (e > n ==> s[e - 1] == ':' || s[e - 1] == '=')
  {
    var sep := RunEnd(s, n, IsBlank);
    if sep == |s| || (s[sep] != ':' && s[sep] != '=') then n else sep + 1
  }

  function AfterQuote(s: string, q: nat): (r: nat)
    requires q <= |s|
    ensures q <= r <= |s|
  {
    if q < |s| && IsQuote(s[q]) then q + 1 else q
  }

  /** The end of `\s*["']?([a-zA-Z0-9\-_]{6,})["']?` from `n`, or `n`. */
  function ValueEnd(s: string, n: nat): (e: nat)
    requires n <= |s|
    ensures n <= e <= |s|
  {
    var value := AfterQuote(s, RunEnd(s, n, IsBlank));
    var last := RunEnd(s, value, IsAccount);
    if last - value < 6 then n else AfterQuote(s, last)
  }

  lemma ValueHolds(s: string, n: nat)
    requires n <= |s|
    ensures forall j :: n <= j < ValueEnd(s, n) ==> s[j] != '<' && s[j] != '>'
  {
    var q := RunEnd(s, n, IsBlank);
    RunHolds(s, n, IsBlank);
    RunHolds(s, AfterQuote(s, q), IsAccount);
  }

  /** `(account[_-]?id|org[_-]?id)\s*[:=]\s*["']?([a-zA-Z0-9\-_]{6,})["']?`, ignoring case; the name is kept. */
  function Account(s: string, i: nat): (r: Redaction)
    requires i < |s|
    ensures Redacted(s, i, r)
  {
    var kept := AccountName(s, i);
    if kept == i then NoMatch
    else
      var sep := SeparatorEnd(s, kept);
      if sep == kept then NoMatch
      else
        var end := ValueEnd(s, sep);
        if end == sep then NoMatch
        else
          AccountHolds(s, i, kept, sep, end);
          Redaction(kept, end)
  }

  lemma AccountHolds(s: string, i: nat, kept: nat, sep: nat, end: nat)
    requires i < |s| && kept == AccountName(s, i) && kept > i
    requires sep == SeparatorEnd(s, kept) && sep > kept && end == ValueEnd(s, sep) && end > sep
    ensures Redacted(s, i, Redaction(kept, end))
  {
    NameHolds(s, i);
    RunHolds(s, kept, IsBlank);
    ValueHolds(s, sep);
    assert forall j :: i <= j < kept ==> s[i..kept][j - i] == s[j];
    assert forall j :: i <= j < end ==> s[j] != '<' && s[j] != '>';
    SpanIsBarrier(s, i, end, sep - 1);
  }
}
