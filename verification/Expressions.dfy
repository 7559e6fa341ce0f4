/** The matchers find what the six regular expressions find. */
module Expressions {
  import opened Wrappers
  import opened Regexes
  import opened Patterns

  // ---- Chains -----------------------------------------------------------------------------------------

  /** The positions from `hi` down to `lo`. */
  function Down(hi: nat, lo: nat): Positions {
    if hi < lo then Nil else if hi == 0 then Only(0) else Cons(hi, Down(hi - 1, lo))
  }

  lemma {:induction false} DownThenOne(hi: nat, lo: nat)
    requires lo <= hi
    ensures Append(Down(hi, lo + 1), Only(lo)) == Down(hi, lo)
  {
    if lo < hi {
      DownThenOne(hi - 1, lo);
    }
  }

  lemma {:induction false} AppendNil(a: Positions)
    ensures Append(a, Nil) == a
  {
    if a.Cons? {
      AppendNil(a.tail);
    }
  }

  lemma ThroughOne(e: nat, r: Regex, s: string)
    ensures Through(Only(e), r, s) == Ends(r, s, e)
  {
    AppendNil(Ends(r, s, e));
  }

  ghost predicate Fails(r: Regex, s: string, e: nat) { Ends(r, s, e) == Nil }

  ghost predicate FailsBetween(r: Regex, s: string, lo: nat, hi: nat) {
    forall e :: lo <= e < hi ==> Fails(r, s, e)
  }

  lemma {:induction false} AllFail(r: Regex, s: string, hi: nat, lo: nat)
    requires FailsBetween(r, s, lo, hi + 1)
    ensures Through(Down(hi, lo), r, s) == Nil
  {
    if lo <= hi {
      assert Fails(r, s, hi);
      if hi > 0 {
        AllFail(r, s, hi - 1, lo);
      }
    }
  }

  /** What fails after a shorter run need be tried after the longest only. */
  lemma LongestOnly(r: Regex, s: string, hi: nat, lo: nat)
    requires lo <= hi && FailsBetween(r, s, lo, hi)
    ensures Through(Down(hi, lo), r, s) == Ends(r, s, hi)
  {
    if hi > 0 {
      AllFail(r, s, hi - 1, lo);
    }
    AppendNil(Ends(r, s, hi));
  }

  /** What is found from the highest position down to `lo` from which anything is. */
  ghost function Highest(r: Regex, s: string, hi: nat, lo: nat): Option<nat>
    requires 0 < lo
  {
    if hi < lo then None else if First(r, s, hi).Some? then First(r, s, hi) else Highest(r, s, hi - 1, lo)
  }

  lemma HeadOfSum(a: Positions, b: Positions)
    ensures Head(Append(a, b)) == if Head(a).Some? then Head(a) else Head(b)
  {
  }

  lemma {:induction false} HighestFirst(r: Regex, s: string, hi: nat, lo: nat)
    requires 0 < lo
    ensures Head(Through(Down(hi, lo), r, s)) == Highest(r, s, hi, lo)
  {
    if lo <= hi {
      HeadOfSum(Ends(r, s, hi), Through(Down(hi - 1, lo), r, s));
      HighestFirst(r, s, hi - 1, lo);
    }
  }

  /** After something that matches in one way only. */
  lemma CatOne(a: Regex, r: Regex, s: string, i: nat, e: nat)
    requires Ends(a, s, i) == Only(e)
    ensures Ends(Cat(a, r), s, i) == Ends(r, s, e)
  {
    ThroughOne(e, r, s);
  }

  lemma CatEnds(a: Regex, r: Regex, s: string, i: nat)
    ensures Ends(Cat(a, r), s, i) == Through(Ends(a, s, i), r, s)
  {
  }

  lemma CatNone(a: Regex, r: Regex, s: string, i: nat)
    requires Ends(a, s, i) == Nil
    ensures Ends(Cat(a, r), s, i) == Nil
  {
  }

  /** After one character. */
  lemma CatChar(p: char -> bool, r: Regex, s: string, i: nat)
    ensures Ends(Cat(One(p), r), s, i) == if i < |s| && p(s[i]) then Ends(r, s, i + 1) else Nil
  {
    if i < |s| && p(s[i]) {
      CatOne(One(p), r, s, i, i + 1);
    } else {
      CatNone(One(p), r, s, i);
    }
  }

  /** After a character that may be missing. */
  lemma CatMaybe(p: char -> bool, r: Regex, s: string, i: nat)
    ensures Ends(Cat(Maybe(One(p)), r), s, i) ==
            if i < |s| && p(s[i]) then Append(Ends(r, s, i + 1), Ends(r, s, i)) else Ends(r, s, i)
  {
    MaybeEnds(One(p), s, i);
    CatEnds(Maybe(One(p)), r, s, i);
    ThroughOne(i, r, s);
  }

  lemma MaybeEnds(r: Regex, s: string, i: nat)
    ensures Ends(Maybe(r), s, i) == Append(Ends(r, s, i), Only(i))
  {
  }

  /** Expressions that begin with a character fail where there is none of its kind. */
  lemma CharFails(p: char -> bool, r: Regex, s: string, i: nat)
    requires i < |s| ==> !p(s[i])
    ensures Fails(Cat(One(p), r), s, i)
  {
    CatChar(p, r, s, i);
  }

  ghost predicate AllIn(s: string, i: nat, e: nat, p: char -> bool) {
    i <= e <= |s| && forall j :: i <= j < e ==> p(s[j])
  }

  lemma {:induction false} RunIsLongest(s: string, i: nat, p: char -> bool, e: nat)
    requires i <= e <= |s|
    ensures e <= RunEnd(s, i, p) <==> AllIn(s, i, e, p)
    decreases |s| - i
  {
    RunHolds(s, i, p);
    if i < e && p(s[i]) {
      RunIsLongest(s, i + 1, p, e);
    }
  }

  lemma {:induction false} RunStops(s: string, i: nat, p: char -> bool)
    requires i <= |s|
    ensures RunEnd(s, i, p) < |s| ==> !p(s[RunEnd(s, i, p)])
    decreases |s| - i
  {
    if i < |s| && p(s[i]) {
      RunStops(s, i + 1, p);
    }
  }

  ghost predicate Same(p: char -> bool, q: char -> bool) {
    forall c :: p(c) == q(c)
  }

  lemma {:induction false} RunsSame(s: string, i: nat, p: char -> bool, q: char -> bool)
    requires i <= |s| && Same(p, q)
    ensures RunEnd(s, i, p) == RunEnd(s, i, q)
    decreases |s| - i
  {
    if i < |s| {
      RunsSame(s, i + 1, p, q);
    }
  }

  lemma {:induction false} RunIsDown(p: char -> bool, s: string, i: nat)
    requires i <= |s|
    ensures Run(s, p, i) == Down(RunEnd(s, i, p), i)
    decreases |s| - i
  {
    if i < |s| && p(s[i]) {
      RunIsDown(p, s, i + 1);
      DownThenOne(RunEnd(s, i, p), i);
    } else {
      assert Down(i, i) == Only(i);
    }
  }

  lemma ManyEnds(p: char -> bool, s: string, i: nat)
    requires i <= |s|
    ensures Ends(Many(p), s, i) == Down(RunEnd(s, i, p), i)
  {
    RunIsDown(p, s, i);
  }

  lemma {:induction false} TimesEnds(p: char -> bool, n: nat, s: string, i: nat)
    requires i <= |s|
    ensures Ends(Times(One(p), n), s, i) == if AllIn(s, i, i + n, p) then Only(i + n) else Nil
  {
    if n > 0 {
      CatChar(p, Times(One(p), n - 1), s, i);
      if i < |s| && p(s[i]) {
        TimesEnds(p, n - 1, s, i + 1);
      }
    }
  }

  lemma CatTimes(p: char -> bool, n: nat, r: Regex, s: string, i: nat)
    requires i <= |s|
    ensures Ends(Cat(Times(One(p), n), r), s, i) == if AllIn(s, i, i + n, p) then Ends(r, s, i + n) else Nil
  {
    TimesEnds(p, n, s, i);
    if AllIn(s, i, i + n, p) {
      CatOne(Times(One(p), n), r, s, i, i + n);
    }
  }

  lemma {:induction false} RunFrom(s: string, i: nat, e: nat, p: char -> bool)
    requires AllIn(s, i, e, p)
    ensures RunEnd(s, e, p) == RunEnd(s, i, p)
    decreases e - i
  {
    if i < e {
      RunFrom(s, i + 1, e, p);
    }
  }

  lemma AtLeastEnds(p: char -> bool, n: nat, s: string, i: nat)
    requires i <= |s|
    ensures Ends(AtLeast(p, n), s, i) == if i + n <= RunEnd(s, i, p) then Down(RunEnd(s, i, p), i + n) else Nil
  {
    CatTimes(p, n, Many(p), s, i);
    if i + n <= |s| {
      RunIsLongest(s, i, p, i + n);
      if AllIn(s, i, i + n, p) {
        RunFrom(s, i, i + n, p);
        ManyEnds(p, s, i + n);
      }
    }
  }

  /** Something that cannot begin within the run, after a run of at least `n`. */
  lemma AfterRun(p: char -> bool, n: nat, r: Regex, s: string, i: nat)
    requires i <= |s| && FailsBetween(r, s, i, RunEnd(s, i, p))
    ensures var run := RunEnd(s, i, p);
      Ends(Cat(AtLeast(p, n), r), s, i) == if i + n <= run then Ends(r, s, run) else Nil
  {
    var run := RunEnd(s, i, p);
    AtLeastEnds(p, n, s, i);
    CatEnds(AtLeast(p, n), r, s, i);
    if i + n <= run {
      LongestOnly(r, s, run, i + n);
    }
  }

  /** After a run of at least `n` the longest is tried first. */
  lemma CatDown(p: char -> bool, n: nat, r: Regex, s: string, i: nat)
    requires i <= |s| && 0 < n
    ensures var run := RunEnd(s, i, p);
      First(Cat(AtLeast(p, n), r), s, i) == if i + n <= run then Highest(r, s, run, i + n) else None
  {
    var run := RunEnd(s, i, p);
    AtLeastEnds(p, n, s, i);
    CatEnds(AtLeast(p, n), r, s, i);
    HighestFirst(r, s, run, i + n);
  }

  /** The end of the match that a matcher reports at `i`, which is `i` itself when there is none. */
  ghost function Reported(i: nat, e: nat): Option<nat> {
    if e > i then Some(e) else None
  }

  // ---- Emails ------------------------------------------------------------------------------------------

  const TOP_LEVEL := Cat(One(Is('.')), AtLeast(LETTER, 2))

  lemma EmailClasses()
    ensures Same(EMAIL_LOCAL, IsLocal) && Same(EMAIL_LABEL, IsDomain) && Same(LETTER, IsLetter)
  {
  }

  lemma TwoLetters(s: string, p: nat)
    requires p <= |s|
    ensures var letters := p + 2 <= |s| && IsLetter(s[p]) && IsLetter(s[p + 1]);
      First(AtLeast(LETTER, 2), s, p) == if letters then Some(RunEnd(s, p, IsLetter)) else None
  {
    EmailClasses();
    RunsSame(s, p, LETTER, IsLetter);
    AtLeastEnds(LETTER, 2, s, p);
    if p + 2 <= |s| {
      RunIsLongest(s, p, IsLetter, p + 2);
      assert AllIn(s, p, p + 2, IsLetter) <==> IsLetter(s[p]) && IsLetter(s[p + 1]);
    }
  }

  /** From `p` on, a dot and letters after it are found. */
  ghost predicate FindsDot(r: Regex, s: string, p: nat, hi: nat) {
    p < hi <= |s| && First(r, s, p) == if DotAt(s, p, hi) then Some(RunEnd(s, p + 1, IsLetter)) else None
  }

  lemma {:induction false} LastDotIsFirst(r: Regex, s: string, lo: nat, p: nat, hi: nat)
    requires lo <= p < hi <= |s| && forall j :: lo < j < hi ==> FindsDot(r, s, j, hi)
    ensures Highest(r, s, p, lo + 1) ==
            var dot := LastDot(s, lo, p, hi); if dot == lo then None else Some(RunEnd(s, dot + 1, IsLetter))
    decreases p
  {
    if p > lo {
      assert FindsDot(r, s, p, hi);
      LastDotIsFirst(r, s, lo, p - 1, hi);
    }
  }

  /** From the end `hi` of the run nothing is found. */
  lemma LabelIsFirst(r: Regex, s: string, lo: nat, hi: nat)
    requires lo < hi <= |s| && Fails(r, s, hi) && forall j :: lo < j < hi ==> FindsDot(r, s, j, hi)
    ensures Highest(r, s, hi, lo + 1) == Reported(lo, LabelEnd(s, lo, hi))
  {
    LastDotIsFirst(r, s, lo, hi - 1, hi);
  }

  lemma TopLevelFinds(s: string, p: nat, hi: nat)
    requires p < hi <= |s| && (hi < |s| ==> !IsDomain(s[hi]))
    requires p + 1 < hi ==> IsDomain(s[p + 1])
    ensures FindsDot(TOP_LEVEL, s, p, hi)
  {
    CatChar(Is('.'), AtLeast(LETTER, 2), s, p);
    TwoLetters(s, p + 1);
  }

  lemma NothingAfterRun(s: string, lo: nat, hi: nat)
    requires lo < hi <= |s| && hi == RunEnd(s, lo, IsDomain)
    ensures Fails(TOP_LEVEL, s, hi)
  {
    RunStops(s, lo, IsDomain);
    CharFails(Is('.'), AtLeast(LETTER, 2), s, hi);
  }

  lemma LabelsFind(s: string, lo: nat, hi: nat, p: nat)
    requires lo < p < hi <= |s| && hi == RunEnd(s, lo, IsDomain)
    ensures FindsDot(TOP_LEVEL, s, p, hi)
  {
    RunHolds(s, lo, IsDomain);
    RunStops(s, lo, IsDomain);
    TopLevelFinds(s, p, hi);
  }

  lemma DomainEnds(s: string, lo: nat)
    requires lo <= |s|
    ensures var hi := RunEnd(s, lo, IsDomain);
      First(EMAIL_DOMAIN, s, lo) == if hi == lo then None else Highest(TOP_LEVEL, s, hi, lo + 1)
  {
    EmailClasses();
    RunsSame(s, lo, EMAIL_LABEL, IsDomain);
    CatDown(EMAIL_LABEL, 1, TOP_LEVEL, s, lo);
  }

  lemma DomainIsFirst(s: string, at: nat)
    requires at < |s|
    ensures First(EMAIL_DOMAIN, s, at + 1) == Reported(at, DomainEnd(s, at))
  {
    var hi := RunEnd(s, at + 1, IsDomain);
    DomainEnds(s, at + 1);
    if hi > at + 1 {
      NothingAfterRun(s, at + 1, hi);
      forall j: nat | at + 1 < j < hi {
        LabelsFind(s, at + 1, hi, j);
      }
      LabelIsFirst(TOP_LEVEL, s, at + 1, hi);
    }
  }

  /** What begins with another character cannot begin within a run. */
  lemma RunThenChar(p: char -> bool, n: nat, q: char -> bool, r: Regex, s: string, i: nat)
    requires i <= |s| && forall c :: p(c) ==> !q(c)
    ensures var run := RunEnd(s, i, p);
      Ends(Cat(AtLeast(p, n), Cat(One(q), r)), s, i) ==
      if i + n <= run && run < |s| && q(s[run]) then Ends(r, s, run + 1) else Nil
  {
    var run := RunEnd(s, i, p);
    RunHolds(s, i, p);
    forall e: nat | i <= e < run
      ensures Fails(Cat(One(q), r), s, e)
    {
      CharFails(q, r, s, e);
    }
    AfterRun(p, n, Cat(One(q), r), s, i);
    CatChar(q, r, s, run);
  }

  lemma EmailEnds(s: string, i: nat)
    requires i <= |s|
    ensures var at := RunEnd(s, i, IsLocal);
      Ends(EMAIL, s, i) == if at > i && at < |s| && s[at] == '@' then Ends(EMAIL_DOMAIN, s, at + 1) else Nil
  {
    EmailClasses();
    RunsSame(s, i, EMAIL_LOCAL, IsLocal);
    RunThenChar(EMAIL_LOCAL, 1, Is('@'), EMAIL_DOMAIN, s, i);
  }

  lemma {:induction false} EmailIsFirst(s: string, i: nat)
    requires i < |s|
    ensures First(EMAIL, s, i) == Reported(i, Email(s, i))
  {
    var at := RunEnd(s, i, IsLocal);
    EmailEnds(s, i);
    if at < |s| {
      DomainIsFirst(s, at);
    }
  }

  // ---- UUIDs --------------------------------------------------------------------------------------------

  ghost predicate DashAfter(s: string, i: nat, n: nat) {
    i + n < |s| && AllIn(s, i, i + n, HEX) && s[i + n] == '-'
  }

  lemma DashedEnds(n: nat, rest: Regex, s: string, i: nat)
    requires i <= |s|
    ensures Ends(Dashed(n, rest), s, i) == if DashAfter(s, i, n) then Ends(rest, s, i + n + 1) else Nil
  {
    CatTimes(HEX, n, Cat(One(Is('-')), rest), s, i);
    if i + n <= |s| {
      CatChar(Is('-'), rest, s, i + n);
    }
  }

  ghost predicate UUIDAt(s: string, i: nat) {
    && DashAfter(s, i, 8) && DashAfter(s, i + 9, 4) && DashAfter(s, i + 14, 4) && DashAfter(s, i + 19, 4)
    && AllIn(s, i + 24, i + 36, HEX)
  }

  lemma UUIDShape(s: string, i: nat)
    requires i < |s|
    ensures UUIDAt(s, i) <==> Patterns.UUID(s, i) > i
  {
    if UUIDAt(s, i) {
      forall j | i <= j < i + 36
        ensures UUIDChar(s[j], j - i)
      {
      }
    }
    if Patterns.UUID(s, i) > i {
      forall j | i <= j < i + 36
        ensures if j - i in {8, 13, 18, 23} then s[j] == '-' else HEX(s[j])
      {
        assert UUIDChar(s[j], j - i);
      }
    }
  }

  lemma {:induction false} UUIDIsFirst(s: string, i: nat)
    requires i < |s|
    ensures First(Regexes.UUID, s, i) == Reported(i, Patterns.UUID(s, i))
  {
    var last := Times(One(HEX), 12);
    UUIDShape(s, i);
    DashedEnds(8, Dashed(4, Dashed(4, Dashed(4, last))), s, i);
    if DashAfter(s, i, 8) {
      DashedEnds(4, Dashed(4, Dashed(4, last)), s, i + 9);
      if DashAfter(s, i + 9, 4) {
        DashedEnds(4, Dashed(4, last), s, i + 14);
        if DashAfter(s, i + 14, 4) {
          DashedEnds(4, last, s, i + 19);
          if DashAfter(s, i + 19, 4) {
            TimesEnds(HEX, 12, s, i + 24);
          }
        }
      }
    }
  }

  // ---- Hardware addresses -------------------------------------------------------------------------------

  lemma HexClasses()
    ensures Same(HEX, IsHex) && Same(AnyCase(LOWER_HEX), IsHex)
  {
  }

  lemma EdgeEnds(s: string, i: nat)
    requires i <= |s|
    ensures Ends(Edge, s, i) == if Boundary(s, i) then Only(i) else Nil
  {
  }

  lemma CatEdge(r: Regex, s: string, i: nat)
    requires i <= |s|
    ensures Ends(Cat(Edge, r), s, i) == if Boundary(s, i) then Ends(r, s, i) else Nil
  {
    EdgeEnds(s, i);
    if Boundary(s, i) {
      CatOne(Edge, r, s, i, i);
    }
  }

  ghost predicate ColonPair(s: string, i: nat) {
    i + 3 <= |s| && s[i] == ':' && AllIn(s, i + 1, i + 3, AnyCase(LOWER_HEX))
  }

  ghost predicate ColonPairs(s: string, i: nat, n: nat)
    decreases n
  {
    n == 0 || (ColonPair(s, i) && ColonPairs(s, i + 3, n - 1))
  }

  const COLON_PAIR := Cat(One(Is(':')), MAC_PAIR)

  lemma ColonPairEnds(s: string, i: nat)
    requires i <= |s|
    ensures Ends(COLON_PAIR, s, i) == if ColonPair(s, i) then Only(i + 3) else Nil
  {
    CatChar(Is(':'), MAC_PAIR, s, i);
    if i < |s| {
      TimesEnds(AnyCase(LOWER_HEX), 2, s, i + 1);
    }
  }

  lemma {:induction false} ColonPairsEnds(n: nat, s: string, i: nat)
    requires i <= |s|
    ensures ColonPairs(s, i, n) ==> i + 3 * n <= |s|
    ensures Ends(Times(COLON_PAIR, n), s, i) == if ColonPairs(s, i, n) then Only(i + 3 * n) else Nil
  {
    if n > 0 {
      ColonPairEnds(s, i);
      if ColonPair(s, i) {
        TimesStep(COLON_PAIR, n, s, i, Some(i + 3));
        ColonPairsEnds(n - 1, s, i + 3);
      } else {
        TimesStep(COLON_PAIR, n, s, i, None);
      }
    }
  }

  ghost predicate MACAt(s: string, i: nat) {
    && i + 17 <= |s| && Boundary(s, i) && Boundary(s, i + 17)
    && AllIn(s, i, i + 2, AnyCase(LOWER_HEX)) && ColonPairs(s, i + 2, 5)
  }

  lemma FivePairs(s: string, i: nat)
    requires i + 17 <= |s|
    ensures ColonPairs(s, i + 2, 5) <==>
            && ColonPair(s, i + 2) && ColonPair(s, i + 5) && ColonPair(s, i + 8) && ColonPair(s, i + 11)
            && ColonPair(s, i + 14)
  {
    assert ColonPairs(s, i + 2, 5) <==> ColonPair(s, i + 2) && ColonPairs(s, i + 5, 4);
    assert ColonPairs(s, i + 5, 4) <==> ColonPair(s, i + 5) && ColonPairs(s, i + 8, 3);
    assert ColonPairs(s, i + 8, 3) <==> ColonPair(s, i + 8) && ColonPairs(s, i + 11, 2);
    assert ColonPairs(s, i + 11, 2) <==> ColonPair(s, i + 11) && ColonPairs(s, i + 14, 1);
    assert ColonPairs(s, i + 14, 1) <==> ColonPair(s, i + 14) && ColonPairs(s, i + 17, 0);
  }

  lemma MACShape(s: string, i: nat)
    requires i < |s|
    ensures MACAt(s, i) <==> Patterns.MAC(s, i) > i
  {
    HexClasses();
    if MACAt(s, i) {
      FivePairs(s, i);
      forall j | i <= j < i + 17
        ensures MACChar(s[j], j - i)
      {
      }
    }
    if Patterns.MAC(s, i) > i {
      forall j | i <= j < i + 17
        ensures if j - i in {2, 5, 8, 11, 14} then s[j] == ':' else IsHex(s[j])
      {
        assert MACChar(s[j], j - i);
      }
      FivePairs(s, i);
    }
  }

  lemma {:induction false} MACIsFirst(s: string, i: nat)
    requires i < |s|
    ensures First(Regexes.MAC, s, i) == Reported(i, Patterns.MAC(s, i))
  {
    var rest := Cat(Times(COLON_PAIR, 5), Edge);
    MACShape(s, i);
    CatEdge(Cat(MAC_PAIR, rest), s, i);
    CatTimes(AnyCase(LOWER_HEX), 2, rest, s, i);
    if i + 2 <= |s| {
      PairsThenEdge(s, i + 2);
    }
  }

  lemma PairsThenEdge(s: string, i: nat)
    requires i <= |s|
    ensures ColonPairs(s, i, 5) ==> i + 15 <= |s|
    ensures Ends(Cat(Times(COLON_PAIR, 5), Edge), s, i) ==
            if ColonPairs(s, i, 5) && Boundary(s, i + 15) then Only(i + 15) else Nil
  {
    var pairs := Times(COLON_PAIR, 5);
    ColonPairsEnds(5, s, i);
    if ColonPairs(s, i, 5) {
      CatOne(pairs, Edge, s, i, i + 15);
      EdgeEnds(s, i + 15);
    } else {
      CatNone(pairs, Edge, s, i);
    }
  }

  // ---- Addresses ----------------------------------------------------------------------------------------

  lemma DigitClass()
    ensures Same(DIGIT, IsDigit)
  {
  }

  /** The end of the digits from `i`, but no further than `top`. */
  ghost function DigitsTo(s: string, i: nat, top: nat): (e: nat)
    requires i <= |s|
  {
    if RunEnd(s, i, IsDigit) > top then top else RunEnd(s, i, IsDigit)
  }

  /** A digit more at most than `r` takes. */
  lemma MaybeDigit(r: Regex, s: string, i: nat, k: nat)
    requires i < |s| ==> Ends(r, s, i + 1) == Down(DigitsTo(s, i + 1, i + 1 + k), i + 1)
    requires i <= |s|
    ensures Ends(Cat(One(DIGIT), r), s, i) == Down(DigitsTo(s, i, i + 1 + k), i + 1)
    ensures Ends(Maybe(Cat(One(DIGIT), r)), s, i) == Down(DigitsTo(s, i, i + 1 + k), i)
  {
    DigitClass();
    CatChar(DIGIT, r, s, i);
    MaybeEnds(Cat(One(DIGIT), r), s, i);
    DownThenOne(DigitsTo(s, i, i + 1 + k), i);
  }

  lemma OneDigit(s: string, i: nat)
    requires i <= |s|
    ensures Ends(Maybe(One(DIGIT)), s, i) == Down(DigitsTo(s, i, i + 1), i)
  {
    DigitClass();
    MaybeEnds(One(DIGIT), s, i);
    DownThenOne(DigitsTo(s, i, i + 1), i);
    assert Down(i + 1, i + 1) == Only(i + 1) by {
      assert Down(i, i + 1) == Nil;
    }
  }

  /** One to three digits, the more the better. */
  lemma OctetEnds(s: string, i: nat)
    requires i <= |s|
    ensures Ends(OCTET, s, i) == Down(DigitsTo(s, i, i + 3), i + 1)
  {
    var two := Maybe(Cat(One(DIGIT), Maybe(One(DIGIT))));
    if i < |s| {
      if i + 1 < |s| {
        OneDigit(s, i + 2);
      }
      MaybeDigit(Maybe(One(DIGIT)), s, i + 1, 1);
    }
    MaybeDigit(two, s, i, 2);
  }

  ghost predicate BetweenDigits(s: string, e: nat) {
    0 < e < |s| && IsDigit(s[e - 1]) && IsDigit(s[e])
  }

  lemma {:induction false} WithinRun(s: string, i: nat, e: nat)
    requires i <= |s| && i < e < RunEnd(s, i, IsDigit)
    ensures BetweenDigits(s, e)
  {
    RunHolds(s, i, IsDigit);
    assert IsDigit(s[e - 1]) && IsDigit(s[e]);
  }

  /** What cannot begin between two digits must come after all of them. */
  lemma AfterOctet(r: Regex, s: string, i: nat)
    requires i <= |s| && forall e :: BetweenDigits(s, e) ==> Fails(r, s, e)
    ensures Ends(Cat(OCTET, r), s, i) == if Octet(s, i) > i then Ends(r, s, Octet(s, i)) else Nil
  {
    var run := RunEnd(s, i, IsDigit);
    OctetEnds(s, i);
    CatEnds(OCTET, r, s, i);
    forall e: nat | i + 1 <= e < run
      ensures Fails(r, s, e)
    {
      WithinRun(s, i, e);
    }
    OctetAlone(r, s, i, run);
  }

  lemma OctetAlone(r: Regex, s: string, i: nat, run: nat)
    requires i <= |s| && run == RunEnd(s, i, IsDigit) && FailsBetween(r, s, i + 1, run)
    ensures Through(Down(DigitsTo(s, i, i + 3), i + 1), r, s) ==
            if i < run <= i + 3 then Ends(r, s, run) else Nil
  {
    var top := DigitsTo(s, i, i + 3);
    if run > i {
      LongestOnly(r, s, top, i + 1);
      assert run > i + 3 ==> Fails(r, s, top);
    }
  }

  /** Three digits at most and a dot. */
  ghost predicate DottedOctet(s: string, i: nat)
    requires i <= |s|
  {
    i < Octet(s, i) < |s| && s[Octet(s, i)] == '.'
  }

  lemma DottedOctetEnds(s: string, i: nat)
    requires i <= |s|
    ensures Ends(Cat(OCTET, One(Is('.'))), s, i) == if DottedOctet(s, i) then Only(Octet(s, i) + 1) else Nil
  {
    forall e | BetweenDigits(s, e)
      ensures Fails(One(Is('.')), s, e)
    {
    }
    AfterOctet(One(Is('.')), s, i);
  }

  /** Where the rest begins after `n` of these. */
  ghost function AfterDots(s: string, i: nat, n: nat): (e: Option<nat>)
    requires i <= |s|
    ensures e.Some? ==> e.value <= |s|
    decreases n
  {
    if n == 0 then Some(i)
    else if DottedOctet(s, i) then AfterDots(s, Octet(s, i) + 1, n - 1)
    else None
  }

  /** One expression after another, of which the first matches in one way at most. */
  lemma TimesStep(r: Regex, n: nat, s: string, i: nat, e: Option<nat>)
    requires n > 0 && Ends(r, s, i) == if e.Some? then Only(e.value) else Nil
    ensures Ends(Times(r, n), s, i) == if e.Some? then Ends(Times(r, n - 1), s, e.value) else Nil
  {
    if e.Some? {
      CatOne(r, Times(r, n - 1), s, i, e.value);
    } else {
      CatNone(r, Times(r, n - 1), s, i);
    }
  }

  lemma {:induction false} DotsEnds(n: nat, s: string, i: nat)
    requires i <= |s|
    ensures Ends(Times(Cat(OCTET, One(Is('.'))), n), s, i) ==
            if AfterDots(s, i, n).Some? then Only(AfterDots(s, i, n).value) else Nil
    decreases n
  {
    if n > 0 {
      DottedOctetEnds(s, i);
      TimesStep(Cat(OCTET, One(Is('.'))), n, s, i, if DottedOctet(s, i) then Some(Octet(s, i) + 1) else None);
      if DottedOctet(s, i) {
        DotsEnds(n - 1, s, Octet(s, i) + 1);
      }
    }
  }

  lemma ThreeDots(s: string, i: nat)
    requires i <= |s|
    ensures AfterDots(s, i, 3) ==
            if !DottedOctet(s, i) then None
            else if !DottedOctet(s, Octet(s, i) + 1) then None
            else
              var b := Octet(s, Octet(s, i) + 1) + 1;
              if !DottedOctet(s, b) then None else Some(Octet(s, b) + 1)
  {
    if DottedOctet(s, i) && DottedOctet(s, Octet(s, i) + 1) {
      var b := Octet(s, Octet(s, i) + 1) + 1;
      assert AfterDots(s, Octet(s, i) + 1, 2) == AfterDots(s, b, 1);
      assert DottedOctet(s, b) ==> AfterDots(s, b, 1) == AfterDots(s, Octet(s, b) + 1, 0);
    }
  }

  lemma GroupsEnd(s: string, i: nat)
    requires i < |s|
    ensures var d := AfterDots(s, i, 3);
      && (Groups(s, i) != [] <==> d.Some? && Octet(s, d.value) > d.value)
      && (Groups(s, i) != [] ==> Groups(s, i)[3] == Octet(s, d.value))
  {
    ThreeDots(s, i);
  }

  lemma {:induction false} IPIsFirst(s: string, i: nat)
    requires i < |s|
    ensures First(Regexes.IP, s, i) == Reported(i, Patterns.IP(s, i))
  {
    var octets := Times(Cat(OCTET, One(Is('.'))), 3);
    var d := AfterDots(s, i, 3);
    GroupsEnd(s, i);
    CatEdge(Cat(octets, Cat(OCTET, Edge)), s, i);
    DotsEnds(3, s, i);
    if d.Some? {
      CatOne(octets, Cat(OCTET, Edge), s, i, d.value);
      LastOctet(s, d.value);
    } else {
      CatNone(octets, Cat(OCTET, Edge), s, i);
    }
  }

  lemma LastOctet(s: string, i: nat)
    requires i <= |s|
    ensures var e := Octet(s, i);
      Ends(Cat(OCTET, Edge), s, i) == if e > i && Boundary(s, e) then Only(e) else Nil
  {
    forall e | BetweenDigits(s, e)
      ensures Fails(Edge, s, e)
    {
      EdgeEnds(s, e);
    }
    AfterOctet(Edge, s, i);
    EdgeEnds(s, Octet(s, i));
  }

  // ---- Bearer values ------------------------------------------------------------------------------------

  /** What the matcher of a redaction reports. */
  ghost function Cut(r: Redaction): Option<(nat, nat)> {
    match r
    case NoMatch => None
    case Redaction(kept, end) => Some((kept, end))
  }

  /** Lower-case letters none of which has a third form. */
  ghost predicate Simple(word: string) {
    forall k :: 0 <= k < |word| ==> 'a' <= word[k] <= 'z' && word[k] != 's' && word[k] != 'k'
  }

  lemma FoldedStep(word: string, s: string, i: nat)
    requires word != []
    ensures FoldedAt(s, i, word) <==> i < |s| && Fold(s[i]) == word[0] && FoldedAt(s, i + 1, word[1..])
  {
    if FoldedAt(s, i, word) {
      assert Fold(s[i + 0]) == word[0];
      forall k | 0 <= k < |word| - 1
        ensures Fold(s[i + 1 + k]) == word[1..][k]
      {
        assert Fold(s[i + (k + 1)]) == word[k + 1];
      }
    }
    if i < |s| && Fold(s[i]) == word[0] && FoldedAt(s, i + 1, word[1..]) {
      forall k | 0 <= k < |word|
        ensures Fold(s[i + k]) == word[k]
      {
        assert k > 0 ==> Fold(s[i + 1 + (k - 1)]) == word[1..][k - 1];
      }
    }
  }

  lemma {:induction false} FoldedEnds(word: string, s: string, i: nat)
    requires i <= |s| && Simple(word)
    ensures Ends(Folded(word), s, i) == if FoldedAt(s, i, word) then Only(i + |word|) else Nil
  {
    if word != [] {
      FoldedStep(word, s, i);
      CatChar(AnyCase(Is(word[0])), Folded(word[1..]), s, i);
      if i < |s| {
        FoldedEnds(word[1..], s, i + 1);
      }
    }
  }

  lemma CatFolded(word: string, r: Regex, s: string, i: nat)
    requires i <= |s| && Simple(word)
    ensures Ends(Cat(Folded(word), r), s, i) == if FoldedAt(s, i, word) then Ends(r, s, i + |word|) else Nil
  {
    FoldedEnds(word, s, i);
    if FoldedAt(s, i, word) {
      CatOne(Folded(word), r, s, i, i + |word|);
    }
  }

  lemma {:induction false} SplitNone(r: Regex, s: string, hi: nat, lo: nat)
    requires FailsBetween(r, s, lo, hi + 1)
    ensures Split(Down(hi, lo), r, s) == None
  {
    if lo <= hi {
      assert Fails(r, s, hi);
      if hi > 0 {
        SplitNone(r, s, hi - 1, lo);
      }
    }
  }

  /** The group takes the longest run when the rest cannot begin within it. */
  lemma SplitLast(r: Regex, s: string, hi: nat, lo: nat)
    requires 0 < lo <= hi && FailsBetween(r, s, lo, hi)
    ensures Split(Down(hi, lo), r, s) == if First(r, s, hi).Some? then Some((hi, First(r, s, hi).value)) else None
  {
    SplitNone(r, s, hi - 1, lo);
  }

  lemma NotIn(p: char -> bool, n: nat, r: Regex, s: string, i: nat)
    requires i <= |s| && n > 0 && (i < |s| ==> !p(s[i]))
    ensures Fails(Cat(AtLeast(p, n), r), s, i)
  {
    AtLeastEnds(p, n, s, i);
    CatNone(AtLeast(p, n), r, s, i);
  }

  lemma ManyFirst(p: char -> bool, s: string, i: nat)
    requires i <= |s|
    ensures First(Many(p), s, i) == Some(RunEnd(s, i, p))
  {
    ManyEnds(p, s, i);
    RunHolds(s, i, p);
  }

  lemma BearerClasses()
    ensures Same(SPACE, IsBlank) && Same(AnyCase(BEARER_CHAR), IsBearer) && Same(Is('='), (c: char) => c == '=')
    ensures forall c :: IsBlank(c) ==> !IsBearer(c)
  {
  }

  lemma BearerValueIsFirst(s: string, kept: nat)
    requires kept <= |s|
    ensures var value := RunEnd(s, kept, IsBearer);
      First(BEARER_VALUE, s, kept) == if value > kept then Some(RunEnd(s, value, (c: char) => c == '=')) else None
  {
    var value := RunEnd(s, kept, IsBearer);
    BearerClasses();
    RunsSame(s, kept, AnyCase(BEARER_CHAR), IsBearer);
    CatDown(AnyCase(BEARER_CHAR), 1, Many(Is('=')), s, kept);
    ManyFirst(Is('='), s, value);
    RunsSame(s, value, Is('='), (c: char) => c == '=');
  }

  lemma BearerNameEnds(s: string, i: nat)
    requires i < |s|
    ensures Ends(BEARER_NAME, s, i) ==
            if FoldedAt(s, i, "bearer") then Down(RunEnd(s, i + 6, IsBlank), i + 7) else Nil
  {
    CatFolded("bearer", Plus(SPACE), s, i);
    if FoldedAt(s, i, "bearer") {
      BearerClasses();
      RunsSame(s, i + 6, SPACE, IsBlank);
      AtLeastEnds(SPACE, 1, s, i + 6);
    }
  }

  lemma {:induction false} BearerIsFirst(s: string, i: nat)
    requires i < |s|
    ensures Grouped(BEARER_NAME, BEARER_VALUE, s, i) == Cut(Bearer(s, i))
  {
    BearerNameEnds(s, i);
    if FoldedAt(s, i, "bearer") {
      var kept := RunEnd(s, i + 6, IsBlank);
      RunHolds(s, i + 6, IsBlank);
      BearerClasses();
      forall e | i + 7 <= e < kept
        ensures Fails(BEARER_VALUE, s, e)
      {
        NotIn(AnyCase(BEARER_CHAR), 1, Many(Is('=')), s, e);
      }
      BearerValueIsFirst(s, kept);
      if kept > i + 6 {
        SplitLast(BEARER_VALUE, s, kept, i + 7);
      }
    }
  }

  // ---- Account numbers ----------------------------------------------------------------------------------

  lemma AccountClasses()
    ensures Same(QUOTE, IsQuote) && Same(AnyCase(ACCOUNT_CHAR), IsAccount) && Same(SPACE, IsBlank)
    ensures forall c :: IsBlank(c) ==> !IsAccount(c) && !IsQuote(c) && !EQUALS(c)
    ensures forall c :: IsQuote(c) ==> !IsAccount(c)
  {
  }

  lemma IDEndIs(s: string, n: nat)
    requires n <= |s|
    ensures IDEnd(s, n) == if n < |s| && JOINT(s[n]) then if FoldedAt(s, n + 1, "id") then n + 3 else n
                           else if FoldedAt(s, n, "id") then n + 2 else n
  {
  }

  lemma NoLetterNoID(s: string, n: nat)
    requires n < |s| && JOINT(s[n])
    ensures Ends(Folded("id"), s, n) == Nil
  {
    FoldedEnds("id", s, n);
    FoldedStep("id", s, n);
  }

  const ID := Cat(Maybe(One(JOINT)), Folded("id"))

  lemma IDEnds(s: string, n: nat)
    requires n <= |s|
    ensures Ends(ID, s, n) == if IDEnd(s, n) > n then Only(IDEnd(s, n)) else Nil
  {
    CatMaybe(JOINT, Folded("id"), s, n);
    IDEndIs(s, n);
    if n < |s| && JOINT(s[n]) {
      NoLetterNoID(s, n);
      FoldedEnds("id", s, n + 1);
    } else {
      FoldedEnds("id", s, n);
    }
  }

  /** No word begins both ways. */
  lemma OneName(s: string, i: nat)
    ensures !(FoldedAt(s, i, "account") && FoldedAt(s, i, "org"))
  {
    FoldedStep("account", s, i);
    FoldedStep("org", s, i);
  }

  /** One of two ways. */
  lemma AltEnds(a: Regex, b: Regex, s: string, i: nat)
    requires Ends(a, s, i) == Nil || Ends(b, s, i) == Nil
    ensures Ends(Alt(a, b), s, i) == if Ends(a, s, i) != Nil then Ends(a, s, i) else Ends(b, s, i)
  {
    AppendNil(Ends(a, s, i));
  }

  /** Where the id begins that the name needs. */
  ghost function IDAt(s: string, i: nat): Option<nat> {
    if FoldedAt(s, i, "account") then Some(i + 7) else if FoldedAt(s, i, "org") then Some(i + 3) else None
  }

  lemma WordThenID(s: string, i: nat)
    requires i <= |s|
    ensures Ends(ACCOUNT_NAME, s, i) == if IDAt(s, i).Some? then Ends(ID, s, IDAt(s, i).value) else Nil
  {
    CatFolded("account", ID, s, i);
    CatFolded("org", ID, s, i);
    OneName(s, i);
    AltEnds(Cat(Folded("account"), ID), Cat(Folded("org"), ID), s, i);
  }

  lemma AccountNameIs(s: string, i: nat)
    requires i < |s|
    ensures IDAt(s, i).Some? ==> IDAt(s, i).value <= |s|
    ensures AccountName(s, i) ==
            if IDAt(s, i).Some? && IDEnd(s, IDAt(s, i).value) > IDAt(s, i).value then IDEnd(s, IDAt(s, i).value) else i
  {
  }

  lemma AccountNameEnds(s: string, i: nat)
    requires i < |s|
    ensures Ends(ACCOUNT_NAME, s, i) == if AccountName(s, i) > i then Only(AccountName(s, i)) else Nil
  {
    WordThenID(s, i);
    AccountNameIs(s, i);
    if IDAt(s, i).Some? {
      IDEnds(s, IDAt(s, i).value);
    }
  }

  const QUOTED := Cat(Maybe(One(QUOTE)), NUMBER)

  lemma QuoteFirst(s: string, i: nat)
    requires i <= |s|
    ensures First(Maybe(One(QUOTE)), s, i) == Some(AfterQuote(s, i))
  {
    AccountClasses();
    MaybeEnds(One(QUOTE), s, i);
  }

  /** Six or more characters, and perhaps a quote. */
  lemma NumberFirst(s: string, v: nat)
    requires v <= |s|
    ensures var last := RunEnd(s, v, IsAccount);
      First(NUMBER, s, v) == if last - v < 6 then None else Some(AfterQuote(s, last))
  {
    var last := RunEnd(s, v, IsAccount);
    AccountClasses();
    RunsSame(s, v, AnyCase(ACCOUNT_CHAR), IsAccount);
    CatDown(AnyCase(ACCOUNT_CHAR), 6, Maybe(One(QUOTE)), s, v);
    QuoteFirst(s, last);
  }

  const NUMBER := Cat(AtLeast(AnyCase(ACCOUNT_CHAR), 6), Maybe(One(QUOTE)))

  lemma NoNumber(s: string, q: nat)
    requires q < |s| && !IsAccount(s[q])
    ensures Ends(NUMBER, s, q) == Nil
  {
    AccountClasses();
    NotIn(AnyCase(ACCOUNT_CHAR), 6, Maybe(One(QUOTE)), s, q);
  }

  lemma QuotedFirst(s: string, q: nat)
    requires q <= |s|
    ensures var v := AfterQuote(s, q);
      var last := RunEnd(s, v, IsAccount);
      First(QUOTED, s, q) == if last - v < 6 then None else Some(AfterQuote(s, last))
  {
    AccountClasses();
    CatMaybe(QUOTE, NUMBER, s, q);
    NumberFirst(s, AfterQuote(s, q));
    if AfterQuote(s, q) > q {
      NoNumber(s, q);
    }
  }

  lemma QuotedFails(s: string, e: nat)
    requires e < |s| && IsBlank(s[e])
    ensures Fails(QUOTED, s, e)
  {
    AccountClasses();
    CatMaybe(QUOTE, NUMBER, s, e);
    NoNumber(s, e);
  }

  lemma AfterBlanks(r: Regex, s: string, i: nat)
    requires i <= |s| && FailsBetween(r, s, i, RunEnd(s, i, IsBlank))
    ensures Ends(Cat(Many(SPACE), r), s, i) == Ends(r, s, RunEnd(s, i, IsBlank))
  {
    AccountClasses();
    ManyEnds(SPACE, s, i);
    CatEnds(Many(SPACE), r, s, i);
    RunsSame(s, i, SPACE, IsBlank);
    LongestOnly(r, s, RunEnd(s, i, IsBlank), i);
  }

  lemma SeparatorEnds(r: Regex, s: string, n: nat)
    requires n <= |s|
    ensures Ends(Cat(Many(SPACE), Cat(One(EQUALS), r)), s, n) ==
            if SeparatorEnd(s, n) > n then Ends(r, s, SeparatorEnd(s, n)) else Nil
  {
    AccountClasses();
    RunHolds(s, n, IsBlank);
    forall e: nat | n <= e < RunEnd(s, n, IsBlank)
      ensures Fails(Cat(One(EQUALS), r), s, e)
    {
      CharFails(EQUALS, r, s, e);
    }
    AfterBlanks(Cat(One(EQUALS), r), s, n);
    CatChar(EQUALS, r, s, RunEnd(s, n, IsBlank));
  }

  lemma BlankQuotedFirst(s: string, sep: nat)
    requires sep <= |s|
    ensures First(Cat(Many(SPACE), QUOTED), s, sep) == Reported(sep, ValueEnd(s, sep))
  {
    RunHolds(s, sep, IsBlank);
    forall e: nat | sep <= e < RunEnd(s, sep, IsBlank)
      ensures Fails(QUOTED, s, e)
    {
      QuotedFails(s, e);
    }
    AfterBlanks(QUOTED, s, sep);
    QuotedFirst(s, RunEnd(s, sep, IsBlank));
  }

  lemma ValueIsFirst(s: string, n: nat)
    requires n <= |s|
    ensures First(ACCOUNT_VALUE, s, n) ==
            var sep := SeparatorEnd(s, n); if sep == n then None else Reported(sep, ValueEnd(s, sep))
  {
    SeparatorEnds(Cat(Many(SPACE), QUOTED), s, n);
    BlankQuotedFirst(s, SeparatorEnd(s, n));
  }

  lemma SplitOne(e: nat, r: Regex, s: string)
    requires e <= |s|
    ensures Split(Only(e), r, s) == if First(r, s, e).Some? then Some((e, First(r, s, e).value)) else None
  {
  }

  lemma {:induction false} AccountIsFirst(s: string, i: nat)
    requires i < |s|
    ensures Grouped(ACCOUNT_NAME, ACCOUNT_VALUE, s, i) == Cut(Account(s, i))
  {
    AccountNameEnds(s, i);
    var kept := AccountName(s, i);
    if kept > i {
      ValueIsFirst(s, kept);
      SplitOne(kept, ACCOUNT_VALUE, s);
    } else {
      assert Account(s, i) == NoMatch;
    }
  }
}
