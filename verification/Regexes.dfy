/**
 The part of Go's regular expressions the scrubber uses, by what the search finds: from a
 position, the ends of all matches in the order in which backtracking would try them. The
 search reports the first.
 */
module Regexes {
  import opened Wrappers

  datatype Regex =
    | Empty
    | Edge
    | One(p: char -> bool)
    | Many(p: char -> bool)
    | Cat(first: Regex, second: Regex)
    | Alt(left: Regex, right: Regex)

  function Is(c: char): char -> bool { (x: char) => x == c }

  function Times(r: Regex, n: nat): Regex {
    if n == 0 then Empty else Cat(r, Times(r, n - 1))
  }

  function AtLeast(p: char -> bool, n: nat): Regex { Cat(Times(One(p), n), Many(p)) }

  function Plus(p: char -> bool): Regex { AtLeast(p, 1) }

  /** `r?`, which rather takes `r`. */
  function Maybe(r: Regex): Regex { Alt(r, Empty) }

  /** Under `(?i)` a class takes what differs in case only; two letters beyond ASCII fold to ASCII ones. */
  function AnyCase(p: char -> bool): char -> bool {
    (c: char) =>
      || p(c)
      || ('a' <= c <= 'z' && p(c - 32 as char))
      || ('A' <= c <= 'Z' && p(c + 32 as char))
      || (c == '\U{017F}' && (p('s') || p('S')))
      || (c == '\U{212A}' && (p('k') || p('K')))
  }

  /** A word under `(?i)`. */
  function Folded(word: string): Regex {
    if word == [] then Empty else Cat(One(AnyCase(Is(word[0]))), Folded(word[1..]))
  }

  // ---- What matches ----------------------------------------------------------------------------------

  ghost predicate WordAt(s: string, i: int) {
    && 0 <= i < |s|
    && ('0' <= s[i] <= '9' || 'A' <= s[i] <= 'Z' || 'a' <= s[i] <= 'z' || s[i] == '_')
  }

  /** Positions in the order in which they are tried. */
  datatype Positions = Nil | Cons(head: nat, tail: Positions)

  function Only(i: nat): Positions { Cons(i, Nil) }

  function Append(a: Positions, b: Positions): Positions {
    match a
    case Nil => b
    case Cons(e, rest) => Cons(e, Append(rest, b))
  }

  /** The ends of `p*`: the longest first. */
  ghost function Run(s: string, p: char -> bool, i: nat): Positions
    decreases |s| - i
  {
    if i < |s| && p(s[i]) then Append(Run(s, p, i + 1), Only(i)) else Only(i)
  }

  /** The ends of the matches from `i`, the preferred ones first. */
  ghost function Ends(r: Regex, s: string, i: nat): Positions
    decreases r, 0, Nil
  {
    match r
    case Empty => Only(i)
    case Edge => if WordAt(s, i - 1) != WordAt(s, i) then Only(i) else Nil
    case One(p) => if i < |s| && p(s[i]) then Only(i + 1) else Nil
    case Many(p) => Run(s, p, i)
    case Cat(a, b) => Through(Ends(a, s, i), b, s)
    case Alt(a, b) => Append(Ends(a, s, i), Ends(b, s, i))
  }

  /** The ends of the matches of `r` from each position in turn. */
  ghost function Through(from: Positions, r: Regex, s: string): Positions
    decreases r, 1, from
  {
    match from
    case Nil => Nil
    case Cons(e, rest) => Append(Ends(r, s, e), Through(rest, r, s))
  }

  ghost predicate Within(ends: Positions, lo: nat, hi: nat) {
    ends.Cons? ==> lo <= ends.head <= hi && Within(ends.tail, lo, hi)
  }

  lemma {:induction false} AppendWithin(a: Positions, b: Positions, lo: nat, hi: nat)
    requires Within(a, lo, hi) && Within(b, lo, hi)
    ensures Within(Append(a, b), lo, hi)
  {
    if a.Cons? {
      AppendWithin(a.tail, b, lo, hi);
    }
  }

  lemma {:induction false} WithinMore(a: Positions, k: nat, lo: nat, hi: nat)
    requires Within(a, k, hi) && lo <= k
    ensures Within(a, lo, hi)
  {
    if a.Cons? {
      WithinMore(a.tail, k, lo, hi);
    }
  }

  /** Matches end in the text, and not before they begin. */
  lemma {:induction false} EndsWithin(r: Regex, s: string, i: nat)
    requires i <= |s|
    ensures Within(Ends(r, s, i), i, |s|)
    decreases r, 0, Nil
  {
    match r
    case Many(p) =>
      RunWithin(s, p, i);
    case Cat(a, b) =>
      EndsWithin(a, s, i);
      ThroughWithin(Ends(a, s, i), b, s, i);
    case Alt(a, b) =>
      EndsWithin(a, s, i);
      EndsWithin(b, s, i);
      AppendWithin(Ends(a, s, i), Ends(b, s, i), i, |s|);
    case _ =>
  }

  lemma {:induction false} RunWithin(s: string, p: char -> bool, i: nat)
    requires i <= |s|
    ensures Within(Run(s, p, i), i, |s|)
    decreases |s| - i
  {
    if i < |s| && p(s[i]) {
      RunWithin(s, p, i + 1);
      WithinMore(Run(s, p, i + 1), i + 1, i, |s|);
      AppendWithin(Run(s, p, i + 1), Only(i), i, |s|);
    }
  }

  lemma {:induction false} ThroughWithin(from: Positions, r: Regex, s: string, lo: nat)
    requires Within(from, lo, |s|)
    ensures Within(Through(from, r, s), lo, |s|)
    decreases r, 1, from
  {
    match from
    case Nil =>
    case Cons(e, rest) =>
      EndsWithin(r, s, e);
      WithinMore(Ends(r, s, e), e, lo, |s|);
      ThroughWithin(rest, r, s, lo);
      AppendWithin(Ends(r, s, e), Through(rest, r, s), lo, |s|);
  }

  function Head(ends: Positions): Option<nat> {
    if ends.Nil? then None else Some(ends.head)
  }

  /** Where the match from `i` ends, if there is one. */
  ghost function First(r: Regex, s: string, i: nat): Option<nat> {
    Head(Ends(r, s, i))
  }

  /** The first of the positions from which `r` matches, and the end of that match. */
  ghost function Split(from: Positions, r: Regex, s: string): Option<(nat, nat)> {
    match from
    case Nil => None
    case Cons(e, rest) =>
      if First(r, s, e).Some? then Some((e, First(r, s, e).value)) else Split(rest, r, s)
  }

  /** The match of `(group)r` from `i`: where the group ends, and where it ends itself. */
  ghost function Grouped(group: Regex, r: Regex, s: string, i: nat): Option<(nat, nat)> {
    Split(Ends(group, s, i), r, s)
  }

  /** The group takes no part in the search. */
  lemma {:induction false} GroupedIsFirst(group: Regex, r: Regex, s: string, i: nat)
    ensures First(Cat(group, r), s, i) ==
            if Grouped(group, r, s, i).Some? then Some(Grouped(group, r, s, i).value.1) else None
  {
    SplitIsFirst(Ends(group, s, i), r, s);
  }

  lemma {:induction false} SplitIsFirst(from: Positions, r: Regex, s: string)
    ensures Head(Through(from, r, s)) == if Split(from, r, s).Some? then Some(Split(from, r, s).value.1) else None
  {
    match from
    case Nil =>
    case Cons(e, rest) =>
      SplitIsFirst(rest, r, s);
  }

  // ---- Replacing ---------------------------------------------------------------------------------------

  /** `ReplaceAllStringFunc`: from left to right every match is handed to `write`, unless nothing is matched. */
  ghost function ReplaceFunc(r: Regex, s: string, i: nat, write: string -> string): string
    requires i <= |s|
    decreases |s| - i
  {
    if i == |s| then []
    else
      var e := First(r, s, i);
      if e.Some? && i < e.value <= |s| then write(s[i..e.value]) + ReplaceFunc(r, s, e.value, write)
      else [s[i]] + ReplaceFunc(r, s, i + 1, write)
  }

  /** `ReplaceAllString` of `(group)r` by `${1}` and a text. */
  ghost function ReplaceGroup(group: Regex, r: Regex, s: string, i: nat, text: string): string
    requires i <= |s|
    decreases |s| - i
  {
    if i == |s| then []
    else
      var m := Grouped(group, r, s, i);
      if m.Some? && i <= m.value.0 <= m.value.1 <= |s| && i < m.value.1 then
        s[i..m.value.0] + text + ReplaceGroup(group, r, s, m.value.1, text)
      else [s[i]] + ReplaceGroup(group, r, s, i + 1, text)
  }

  // ---- The scrubber's expressions --------------------------------------------------------------------

  const DIGIT: char -> bool := (c: char) => '0' <= c <= '9'
  const LETTER: char -> bool := (c: char) => 'a' <= c <= 'z' || 'A' <= c <= 'Z'
  const SPACE: char -> bool := (c: char) => c == '\t' || c == '\n' || c == '\U{000C}' || c == '\r' || c == ' '
  const HEX: char -> bool := (c: char) => '0' <= c <= '9' || 'a' <= c <= 'f' || 'A' <= c <= 'F'

  /** `[a-zA-Z0-9._%+\-]+@[a-zA-Z0-9.\-]+\.[a-zA-Z]{2,}` */
  const EMAIL := Cat(Plus(EMAIL_LOCAL), Cat(One(Is('@')), EMAIL_DOMAIN))

  const EMAIL_LOCAL: char -> bool := (c: char) =>
    'a' <= c <= 'z' || 'A' <= c <= 'Z' || '0' <= c <= '9' || c == '.' || c == '_' || c == '%' || c == '+' || c == '-'

  const EMAIL_LABEL: char -> bool := (c: char) =>
    'a' <= c <= 'z' || 'A' <= c <= 'Z' || '0' <= c <= '9' || c == '.' || c == '-'

  const EMAIL_DOMAIN := Cat(Plus(EMAIL_LABEL), Cat(One(Is('.')), AtLeast(LETTER, 2)))

  /** `[0-9a-fA-F]{8}-[0-9a-fA-F]{4}-[0-9a-fA-F]{4}-[0-9a-fA-F]{4}-[0-9a-fA-F]{12}` */
  const UUID := Dashed(8, Dashed(4, Dashed(4, Dashed(4, Times(One(HEX), 12)))))

  /** `n` hexadecimal digits and a dash before the rest. */
  function Dashed(n: nat, rest: Regex): Regex { Cat(Times(One(HEX), n), Cat(One(Is('-')), rest)) }

  const LOWER_HEX: char -> bool := (c: char) => '0' <= c <= '9' || 'a' <= c <= 'f'

  const MAC_PAIR := Times(One(AnyCase(LOWER_HEX)), 2)

  /** `(?i)\b([0-9a-f]{2}(:[0-9a-f]{2}){5})\b` */
  const MAC := Cat(Edge, Cat(MAC_PAIR, Cat(Times(Cat(One(Is(':')), MAC_PAIR), 5), Edge)))

  /** `\d{1,3}` */
  const OCTET := Cat(One(DIGIT), Maybe(Cat(One(DIGIT), Maybe(One(DIGIT)))))

  /** `\b(?:\d{1,3}\.){3}\d{1,3}\b` */
  const IP := Cat(Edge, Cat(Times(Cat(OCTET, One(Is('.'))), 3), Cat(OCTET, Edge)))

  /** `(?i)(bearer\s+)[a-zA-Z0-9\-._~+/]+=*` */
  const BEARER_NAME := Cat(Folded("bearer"), Plus(SPACE))

  const BEARER_VALUE := Cat(Plus(AnyCase(BEARER_CHAR)), Many(Is('=')))

  const BEARER_CHAR: char -> bool := (c: char) =>
    || 'a' <= c <= 'z' || 'A' <= c <= 'Z' || '0' <= c <= '9'
    || c == '-' || c == '.' || c == '_' || c == '~' || c == '+' || c == '/'

  /** `(?i)(account[_-]?id|org[_-]?id)\s*[:=]\s*["']?([a-zA-Z0-9\-_]{6,})["']?` */
  const ACCOUNT_NAME := Alt(Cat(Folded("account"), Cat(Maybe(One(JOINT)), Folded("id"))),
                            Cat(Folded("org"), Cat(Maybe(One(JOINT)), Folded("id"))))

  const ACCOUNT_VALUE := Cat(Many(SPACE), Cat(One(EQUALS), Cat(Many(SPACE),
                         Cat(Maybe(One(QUOTE)), Cat(AtLeast(AnyCase(ACCOUNT_CHAR), 6), Maybe(One(QUOTE)))))))

  const JOINT: char -> bool := (c: char) => c == '_' || c == '-'
  const EQUALS: char -> bool := (c: char) => c == ':' || c == '='
  const QUOTE: char -> bool := (c: char) => c == '"' || c == '\''

  const ACCOUNT_CHAR: char -> bool := (c: char) =>
    'a' <= c <= 'z' || 'A' <= c <= 'Z' || '0' <= c <= '9' || c == '-' || c == '_'
}
