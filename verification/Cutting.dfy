/**
 Whether scrubbing cuts something off a text for good depends on the text alone: not on which
 tags stand for its emails and UUIDs.
 */
module Cutting {
  import opened Tags
  import opened Patterns
  import opened Locality
  import opened Scrubbing

  // ---- Tags in a text --------------------------------------------------------------------------------

  lemma {:induction false} InsideChars(s: string)
    ensures forall q :: 0 <= q < Inside(s) - 1 ==> Inner(s[q])
  {
    if s != [] && Inside(s) > 1 {
      InsideChars(s[1..]);
      assert forall q :: 0 < q < Inside(s) - 1 ==> s[q] == s[1..][q - 1];
    }
  }

  lemma TagChars(t: string)
    requires IsTag(t)
    ensures |t| >= 2 && t[0] == '<' && t[|t| - 1] == '>' && forall q :: 0 < q < |t| - 1 ==> Inner(t[q])
  {
    InsideChars(t[1..]);
    assert forall q :: 0 < q < |t| - 1 ==> t[q] == t[1..][q - 1];
    assert t[|t| - 1] == t[1..][|t| - 2];
  }

  /** The rest of a tag, up to its closing bracket. */
  ghost predicate TagRest(s: string, i: nat, e: nat)
    decreases e - i
  {
    i == e || (i < e <= |s| && (if i + 1 == e then s[i] == '>' else s[i] == '<' || Inner(s[i])) && TagRest(s, i + 1, e))
  }

  ghost predicate TagAt(s: string, i: nat, e: nat) {
    i < e <= |s| && s[i] == '<' && TagRest(s, i, e)
  }

  lemma {:induction false} RestChars(s: string, i: nat, e: nat)
    requires i < e <= |s| && TagRest(s, i, e)
    ensures s[e - 1] == '>' && forall q :: i <= q < e - 1 ==> s[q] == '<' || Inner(s[q])
    decreases e - i
  {
    if i + 1 < e {
      RestChars(s, i + 1, e);
    }
  }

  lemma {:induction false} RestOf(s: string, i: nat, e: nat)
    requires i < e <= |s| && s[e - 1] == '>' && forall q :: i <= q < e - 1 ==> s[q] == '<' || Inner(s[q])
    ensures TagRest(s, i, e)
    decreases e - i
  {
    if i + 1 < e {
      RestOf(s, i + 1, e);
    }
  }

  lemma TagIsTagged(a: string)
    requires IsTag(a)
    ensures TagAt(a, 0, |a|)
  {
    TagChars(a);
    RestOf(a, 0, |a|);
  }

  lemma TagCopied(s: string, i: nat, e: nat)
    requires TagAt(s, i, e)
    ensures TagAt(s[i..e], 0, |s[i..e]|)
  {
    RestChars(s, i, e);
    assert forall q :: 0 <= q < e - i ==> s[i..e][q] == s[i + q];
    RestOf(s[i..e], 0, e - i);
  }

  lemma TagInFront(a: string, rest: string)
    requires TagAt(a, 0, |a|)
    ensures TagAt(a + rest, 0, |a|)
  {
    RestChars(a, 0, |a|);
    RestOf(a + rest, 0, |a|);
  }

  /** No match begins within a tag. */
  lemma NothingInside(s: string, i: nat, e: nat, x: nat)
    requires i < e <= |s| && TagRest(s, i, e) && i < x <= |s|
    ensures !Barrier(s[i..x])
  {
    RestChars(s, i, e);
    if x >= e {
      assert s[i..x][e - 1 - i] == '>';
    } else {
      assert forall q :: 0 <= q < x - i ==> s[i..x][q] == s[i + q];
    }
  }

  lemma NoMatchInside(k: Mask, s: string, i: nat, e: nat)
    requires i < e <= |s| && TagRest(s, i, e)
    ensures MatchEnd(k, s, i) == i
  {
    if MatchEnd(k, s, i) > i {
      NothingInside(s, i, e, MatchEnd(k, s, i));
    }
  }

  lemma StretchFrom(s: string, i: nat, e: nat, rest: string)
    requires i < e <= |s|
    ensures s[i..i + 1] + (s[i + 1..e] + rest) == s[i..e] + rest
  {
    assert s[i..e] == s[i..i + 1] + s[i + 1..e];
  }

  lemma SwapOutside(k: Mask, s: string, i: nat, m: map<string, string>)
    requires i < |s| && MatchEnd(k, s, i) == i
    ensures Swap(k, s, i, m) == s[i..i + 1] + Swap(k, s, i + 1, m) == [s[i]] + Swap(k, s, i + 1, m)
    ensures Covered(k, s, i, m) <==> Covered(k, s, i + 1, m)
  {
    assert s[i..i + 1] == [s[i]];
  }

  lemma {:induction false} SwapSkips(k: Mask, s: string, i: nat, e: nat, m: map<string, string>)
    requires i <= e <= |s| && TagRest(s, i, e)
    ensures Swap(k, s, i, m) == s[i..e] + Swap(k, s, e, m)
    ensures Covered(k, s, i, m) <==> Covered(k, s, e, m)
    decreases e - i
  {
    if i < e {
      NoMatchInside(k, s, i, e);
      SwapOutside(k, s, i, m);
      SwapSkips(k, s, i + 1, e, m);
      StretchFrom(s, i, e, Swap(k, s, e, m));
    }
  }

  lemma {:induction false} RedactionsSkip(o: OneWay, s: string, i: nat, e: nat)
    requires i <= e <= |s| && TagRest(s, i, e)
    ensures Redactions(o, s, i) == Redactions(o, s, e)
    decreases e - i
  {
    if i < e {
      if RedactionAt(o, s, i).Redaction? {
        NothingInside(s, i, e, RedactionAt(o, s, i).end);
      }
      RedactionsSkip(o, s, i + 1, e);
    }
  }

  // ---- Texts that differ in their tags ---------------------------------------------------------------

  /** How two texts run side by side: the same character in both, or a tag in each. */
  datatype Twins = End | Char(c: char, rest: Twins) | Tag(a: string, b: string, rest: Twins)

  ghost function Left(w: Twins): string {
    match w
    case End => []
    case Char(c, r) => [c] + Left(r)
    case Tag(a, b, r) => a + Left(r)
  }

  ghost function Right(w: Twins): string {
    match w
    case End => []
    case Char(c, r) => [c] + Right(r)
    case Tag(a, b, r) => b + Right(r)
  }

  ghost predicate TagsOnly(w: Twins) {
    match w
    case End => true
    case Char(c, r) => TagsOnly(r)
    case Tag(a, b, r) => TagAt(a, 0, |a|) && TagAt(b, 0, |b|) && TagsOnly(r)
  }

  ghost predicate Alike(s: string, i: nat, t: string, j: nat, w: Twins)
    decreases w
  {
    match w
    case End => i == |s| && j == |t|
    case Char(c, r) => i < |s| && j < |t| && s[i] == t[j] && Alike(s, i + 1, t, j + 1, r)
    case Tag(a, b, r) => TagAt(s, i, i + |a|) && TagAt(t, j, j + |b|) && Alike(s, i + |a|, t, j + |b|, r)
  }

  /** How many equal characters come before the next bracket. */
  ghost function PlainRun(s: string, i: nat, w: Twins): nat
    decreases w
  {
    if w.Char? && i < |s| && !IsBracket(s[i]) then 1 + PlainRun(s, i + 1, w.rest) else 0
  }

  ghost function Past(w: Twins, d: nat): Twins
    decreases w
  {
    if d == 0 || w.End? then w else Past(w.rest, d - 1)
  }

  lemma OneMoreAgrees(s: string, i: nat, t: string, j: nat, n: nat)
    requires i < |s| && j < |t| && s[i] == t[j] && !IsBracket(s[i]) && Agree(s, i + 1, t, j + 1, n)
    ensures Agree(s, i, t, j, n + 1)
  {
    assert s[i..i + n + 1] == [s[i]] + s[i + 1..i + 1 + n] && t[j..j + n + 1] == [t[j]] + t[j + 1..j + 1 + n];
  }

  lemma {:induction false} RunAgrees(s: string, i: nat, t: string, j: nat, w: Twins)
    requires Alike(s, i, t, j, w)
    ensures Agree(s, i, t, j, PlainRun(s, i, w))
    decreases w
  {
    if PlainRun(s, i, w) > 0 {
      RunAgrees(s, i + 1, t, j + 1, w.rest);
      OneMoreAgrees(s, i, t, j, PlainRun(s, i + 1, w.rest));
    }
  }

  /** Past equal characters the texts are still alike. */
  lemma {:induction false} PastRun(s: string, i: nat, t: string, j: nat, w: Twins, d: nat)
    requires Alike(s, i, t, j, w) && d <= PlainRun(s, i, w)
    ensures Alike(s, i + d, t, j + d, Past(w, d)) && (d > 0 ==> Past(w, d) < w)
    decreases d
  {
    if d > 0 {
      PastRun(s, i + 1, t, j + 1, w.rest, d - 1);
    }
  }

  /** Putting something in front of both texts. */
  lemma {:induction false} Shifted(x: string, s: string, i: nat, y: string, t: string, j: nat, w: Twins)
    requires Alike(s, i, t, j, w)
    ensures Alike(x + s, |x| + i, y + t, |y| + j, w)
    decreases w
  {
    match w
    case End =>
    case Char(c, r) =>
      Shifted(x, s, i + 1, y, t, j + 1, r);
    case Tag(a, b, r) =>
      TagShifted(x, s, i, i + |a|);
      TagShifted(y, t, j, j + |b|);
      Shifted(x, s, i + |a|, y, t, j + |b|, r);
  }

  lemma TagShifted(x: string, s: string, i: nat, e: nat)
    requires TagAt(s, i, e)
    ensures TagAt(x + s, |x| + i, |x| + e)
  {
    RestChars(s, i, e);
    assert forall q :: |x| + i <= q < |x| + e ==> (x + s)[q] == s[q - |x|];
    RestOf(x + s, |x| + i, |x| + e);
  }

  /** The texts that `w` spells are alike. */
  lemma {:induction false} SidesAlike(w: Twins)
    requires TagsOnly(w)
    ensures Alike(Left(w), 0, Right(w), 0, w)
  {
    match w
    case End =>
    case Char(c, r) =>
      SidesAlike(r);
      Shifted([c], Left(r), 0, [c], Right(r), 0, r);
    case Tag(a, b, r) =>
      SidesAlike(r);
      Shifted(a, Left(r), 0, b, Right(r), 0, r);
      TagInFront(a, Left(r));
      TagInFront(b, Right(r));
  }

  // ---- Passes over texts that are alike --------------------------------------------------------------

  ghost predicate TagValues(m: map<string, string>) {
    forall x :: x in m ==> IsTag(m[x])
  }

  lemma MatchesAlike(k: Mask, s: string, i: nat, t: string, j: nat, n: nat)
    requires Agree(s, i, t, j, n) && i < |s| && j < |t| && k in {EmailMask, UUIDMask}
    ensures MatchEnd(k, s, i) - i == MatchEnd(k, t, j) - j <= n
  {
    if k == EmailMask {
      EmailsAlike(s, i, t, j, n);
    } else {
      UUIDsAlike(s, i, t, j, n);
    }
  }

  /** The match at a character that is the same in both texts: none, or stretches of the same length. */
  lemma MatchHere(k: Mask, s: string, i: nat, t: string, j: nat, w: Twins) returns (d: nat, rest: Twins)
    requires Alike(s, i, t, j, w) && w.Char? && k in {EmailMask, UUIDMask}
    ensures MatchEnd(k, s, i) == i + d && MatchEnd(k, t, j) == j + d
    ensures d > 0 ==> rest < w && Alike(s, i + d, t, j + d, rest)
  {
    RunAgrees(s, i, t, j, w);
    MatchesAlike(k, s, i, t, j, PlainRun(s, i, w));
    d := MatchEnd(k, s, i) - i;
    rest := Past(w, d);
    PastRun(s, i, t, j, w, d);
  }

  /** One step of a pass at a match, and at none. */
  lemma SwapMatch(k: Mask, s: string, i: nat, e: nat, m: map<string, string>)
    requires i < |s| && MatchEnd(k, s, i) == e > i && k != IPMask && Covered(k, s, i, m)
    requires TagValues(m)
    ensures s[i..e] in m && IsTag(m[s[i..e]])
    ensures Swap(k, s, i, m) == m[s[i..e]] + Swap(k, s, e, m) && Covered(k, s, e, m)
  {
  }

  /** `r` spells what the pass makes of each text. */
  ghost predicate Spells(r: Twins, k: Mask, s: string, i: nat, t: string, j: nat, m: map<string, string>,
                         n: map<string, string>)
    requires i <= |s| && j <= |t|
  {
    TagsOnly(r) && Left(r) == Swap(k, s, i, m) && Right(r) == Swap(k, t, j, n)
  }

  /** The same pass, with any two tables of tags, leaves alike what was alike. */
  lemma {:induction false} SwapsAlike(k: Mask, s: string, i: nat, t: string, j: nat, w: Twins,
                                      m: map<string, string>, n: map<string, string>) returns (r: Twins)
    requires Alike(s, i, t, j, w) && k in {EmailMask, UUIDMask} && TagValues(m) && TagValues(n)
    requires i <= |s| && j <= |t| && Covered(k, s, i, m) && Covered(k, t, j, n)
    ensures Spells(r, k, s, i, t, j, m, n)
    decreases w, 1
  {
    match w {
      case End =>
        r := End;
      case Tag(a, b, rest) =>
        r := SwapTags(k, s, i, i + |a|, t, j, j + |b|, rest, m, n);
      case Char(c, rest) =>
        r := SwapChars(k, s, i, t, j, w, m, n);
    }
  }

  lemma {:induction false} SwapTags(k: Mask, s: string, i: nat, e: nat, t: string, j: nat, f: nat, rest: Twins,
                                    m: map<string, string>, n: map<string, string>) returns (r: Twins)
    requires k in {EmailMask, UUIDMask} && TagValues(m) && TagValues(n)
    requires TagAt(s, i, e) && TagAt(t, j, f) && Alike(s, e, t, f, rest)
    requires Covered(k, s, i, m) && Covered(k, t, j, n)
    ensures Spells(r, k, s, i, t, j, m, n)
    decreases rest, 2
  {
    SwapSkips(k, s, i, e, m);
    SwapSkips(k, t, j, f, n);
    TagCopied(s, i, e);
    TagCopied(t, j, f);
    var v := SwapsAlike(k, s, e, t, f, rest, m, n);
    r := Tag(s[i..e], t[j..f], v);
  }

  lemma {:induction false} SwapChars(k: Mask, s: string, i: nat, t: string, j: nat, w: Twins,
                                     m: map<string, string>, n: map<string, string>) returns (r: Twins)
    requires k in {EmailMask, UUIDMask} && TagValues(m) && TagValues(n) && w.Char? && Alike(s, i, t, j, w)
    requires Covered(k, s, i, m) && Covered(k, t, j, n)
    ensures Spells(r, k, s, i, t, j, m, n)
    decreases w, 0
  {
    var d, rest := MatchHere(k, s, i, t, j, w);
    if d == 0 {
      r := SwapChar(k, s, i, t, j, w.rest, m, n);
    } else {
      r := SwapMatches(k, s, i, i + d, t, j, j + d, w, rest, m, n);
    }
  }

  lemma {:induction false} SwapChar(k: Mask, s: string, i: nat, t: string, j: nat, rest: Twins,
                                    m: map<string, string>, n: map<string, string>) returns (r: Twins)
    requires k in {EmailMask, UUIDMask} && TagValues(m) && TagValues(n)
    requires i < |s| && MatchEnd(k, s, i) == i && Covered(k, s, i, m)
    requires j < |t| && MatchEnd(k, t, j) == j && Covered(k, t, j, n)
    requires s[i] == t[j] && Alike(s, i + 1, t, j + 1, rest)
    ensures Spells(r, k, s, i, t, j, m, n)
    decreases rest, 2
  {
    SwapOutside(k, s, i, m);
    SwapOutside(k, t, j, n);
    var v := SwapsAlike(k, s, i + 1, t, j + 1, rest, m, n);
    r := Char(s[i], v);
  }

  lemma {:induction false} SwapMatches(k: Mask, s: string, i: nat, e: nat, t: string, j: nat, f: nat, w: Twins,
                                       rest: Twins,
                                       m: map<string, string>, n: map<string, string>) returns (r: Twins)
    requires k in {EmailMask, UUIDMask} && TagValues(m) && TagValues(n) && rest < w
    requires i < |s| && MatchEnd(k, s, i) == e > i && Covered(k, s, i, m)
    requires j < |t| && MatchEnd(k, t, j) == f > j && Covered(k, t, j, n)
    requires Alike(s, e, t, f, rest)
    ensures Spells(r, k, s, i, t, j, m, n)
    decreases rest, 2
  {
    SwapMatch(k, s, i, e, m);
    SwapMatch(k, t, j, f, n);
    TagIsTagged(m[s[i..e]]);
    TagIsTagged(n[t[j..f]]);
    var v := SwapsAlike(k, s, e, t, f, rest, m, n);
    r := Tag(m[s[i..e]], n[t[j..f]], v);
  }

  /** As many account numbers are cut off from texts that are alike. */
  lemma {:induction false} RedactionsAlike(s: string, i: nat, t: string, j: nat, w: Twins)
    requires Alike(s, i, t, j, w) && i <= |s| && j <= |t|
    ensures Redactions(AccountValue, s, i) == Redactions(AccountValue, t, j)
    decreases w, 1
  {
    match w {
      case End =>
      case Tag(a, b, rest) =>
        RedactionsAtTags(s, i, i + |a|, t, j, j + |b|, rest);
      case Char(_, _) =>
        RedactionsAtChars(s, i, t, j, w);
    }
  }

  lemma {:induction false} RedactionsAtChars(s: string, i: nat, t: string, j: nat, w: Twins)
    requires Alike(s, i, t, j, w) && w.Char?
    ensures Redactions(AccountValue, s, i) == Redactions(AccountValue, t, j)
    decreases w, 0
  {
    var d, past := AccountHere(s, i, t, j, w);
    if d == 0 {
      NoRedactions(s, i, t, j, w.rest);
    } else {
      RedactionsAtMatches(s, i, i + d, t, j, j + d, past);
    }
  }

  lemma {:induction false} RedactionsAtTags(s: string, i: nat, e: nat, t: string, j: nat, f: nat, rest: Twins)
    requires TagAt(s, i, e) && TagAt(t, j, f) && Alike(s, e, t, f, rest)
    ensures Redactions(AccountValue, s, i) == Redactions(AccountValue, t, j)
    decreases rest, 2
  {
    RedactionsSkip(AccountValue, s, i, e);
    RedactionsSkip(AccountValue, t, j, f);
    RedactionsAlike(s, e, t, f, rest);
  }

  lemma {:induction false} NoRedactions(s: string, i: nat, t: string, j: nat, rest: Twins)
    requires i < |s| && Account(s, i).NoMatch? && j < |t| && Account(t, j).NoMatch?
    requires Alike(s, i + 1, t, j + 1, rest)
    ensures Redactions(AccountValue, s, i) == Redactions(AccountValue, t, j)
    decreases rest, 2
  {
    NotRedacted(s, i);
    NotRedacted(t, j);
    RedactionsAlike(s, i + 1, t, j + 1, rest);
  }

  lemma {:induction false} RedactionsAtMatches(s: string, i: nat, e: nat, t: string, j: nat, f: nat, rest: Twins)
    requires i < |s| && Account(s, i).Redaction? && Account(s, i).end == e
    requires j < |t| && Account(t, j).Redaction? && Account(t, j).end == f
    requires Alike(s, e, t, f, rest)
    ensures Redactions(AccountValue, s, i) == Redactions(AccountValue, t, j)
    decreases rest, 2
  {
    OneRedacted(s, i, e);
    OneRedacted(t, j, f);
    RedactionsAlike(s, e, t, f, rest);
  }

  lemma NotRedacted(s: string, i: nat)
    requires i < |s| && Account(s, i).NoMatch?
    ensures Redactions(AccountValue, s, i) == Redactions(AccountValue, s, i + 1)
  {
  }

  lemma OneRedacted(s: string, i: nat, e: nat)
    requires i < |s| && Account(s, i).Redaction? && Account(s, i).end == e
    ensures e <= |s| && Redactions(AccountValue, s, i) == 1 + Redactions(AccountValue, s, e)
  {
  }

  lemma AccountHere(s: string, i: nat, t: string, j: nat, w: Twins) returns (d: nat, rest: Twins)
    requires Alike(s, i, t, j, w) && w.Char?
    ensures d == 0 ==> Account(s, i).NoMatch? && Account(t, j).NoMatch?
    ensures d > 0 ==> Account(s, i).Redaction? && Account(s, i).end == i + d
    ensures d > 0 ==> Account(t, j).Redaction? && Account(t, j).end == j + d
    ensures d > 0 ==> rest < w && Alike(s, i + d, t, j + d, rest)
  {
    RunAgrees(s, i, t, j, w);
    AccountsAlike(s, i, t, j, PlainRun(s, i, w));
    d := if Account(s, i).NoMatch? then 0 else Account(s, i).end - i;
    rest := Past(w, d);
    PastRun(s, i, t, j, w, d);
  }

  ghost function Copies(s: string): Twins {
    if s == [] then End else Char(s[0], Copies(s[1..]))
  }

  lemma {:induction false} CopiesSpell(s: string)
    ensures TagsOnly(Copies(s)) && Left(Copies(s)) == s && Right(Copies(s)) == s
  {
    if s != [] {
      CopiesSpell(s[1..]);
      assert s == [s[0]] + s[1..];
    }
  }

  /** Whichever tags stand for the emails and UUIDs, the same is cut off. */
  lemma {:induction false} CutsAgree(x: string, m: map<string, string>, n: map<string, string>)
    requires IDsCovered(x, m) && IDsCovered(x, n) && TagValues(m) && TagValues(n)
    ensures Cuts(x, m) <==> Cuts(x, n)
  {
    var s := Redact(BearerValue, x, 0);
    CopiesSpell(s);
    SidesAlike(Copies(s));
    var u := SwapsAlike(EmailMask, s, 0, s, 0, Copies(s), m, n);
    SidesAlike(u);
    var v := SwapsAlike(UUIDMask, Left(u), 0, Right(u), 0, u, m, n);
    SidesAlike(v);
    RedactionsAlike(Left(v), 0, Right(v), 0, v);
  }

  // ---- A condition on the text -----------------------------------------------------------------------

  ghost function Stretches(s: string): set<string> {
    set i, j | 0 <= i <= j <= |s| :: s[i..j]
  }

  /** One tag for every stretch of the text. */
  ghost function OneTag(s: string): (m: map<string, string>)
    ensures TagValues(m)
  {
    TagOfIsTag(IDKind, 1);
    map text | text in Stretches(s) :: TagOf(IDKind, 1)
  }

  lemma {:induction false} OneTagCovers(k: Mask, s: string, i: nat)
    requires i <= |s|
    ensures Covered(k, s, i, OneTag(s))
    decreases |s| - i
  {
    if i < |s| {
      assert s[i..Next(k, s, i)] in Stretches(s);
      OneTagCovers(k, s, Next(k, s, i));
    }
  }

  /** A table for the text, made from the text alone. */
  ghost function OwnTable(x: string): (m: map<string, string>)
    ensures TagValues(m)
  {
    var s := Redact(BearerValue, x, 0);
    OneTag(s) + OneTag(Swap(EmailMask, s, 0, OneTag(s)))
  }

  lemma OwnTableCovers(x: string)
    ensures IDsCovered(x, OwnTable(x))
  {
    var s := Redact(BearerValue, x, 0);
    var m := OneTag(s);
    var a := Swap(EmailMask, s, 0, m);
    OneTagCovers(EmailMask, s, 0);
    OneTagCovers(UUIDMask, a, 0);
    assert Extends(m, OwnTable(x)) && Extends(OneTag(a), OwnTable(x));
    SwapStable(EmailMask, s, 0, m, OwnTable(x));
    SwapStable(UUIDMask, a, 0, OneTag(a), OwnTable(x));
  }

  /** Scrubbing the text cuts a bearer value or an account number off it. */
  ghost predicate Loses(x: string) {
    Cuts(x, OwnTable(x))
  }

  /** That does not depend on the scrubber. */
  lemma {:induction false} LosesIff(x: string, ids: map<string, string>)
    requires IDsCovered(x, ids) && TagValues(ids)
    ensures Cuts(x, ids) <==> Loses(x)
  {
    OwnTableCovers(x);
    CutsAgree(x, ids, OwnTable(x));
  }
}
