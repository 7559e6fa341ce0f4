/**
 Text with bracketed tags such as `<MAC_2>`, read from left to right. A tag is `<`, upper-case
 letters, digits and underscores, and `>`; everything else is single characters.
 */
module Tags {

  /** The characters allowed between the brackets of a tag. */
  predicate Inner(c: char) {
    'A' <= c <= 'Z' || '0' <= c <= '9' || c == '_'
  }

  /** A character that neither belongs inside a tag nor closes one. */
  predicate Stopper(c: char) {
    !Inner(c) && c != '>'
  }

  /** How many characters lead up to and include the closing bracket; 0 when something else comes first. */
  function Inside(s: string): (n: nat)
    ensures n <= |s| && (n > 0 ==> s[n - 1] == '>')
  {
    if s == [] then 0
    else if s[0] == '>' then 1
    else if Inner(s[0]) && Inside(s[1..]) > 0 then 1 + Inside(s[1..])
    else 0
  }

  /** The length of the tag `s` begins with, or 0. */
  function TagLen(s: string): (n: nat)
    ensures n <= |s| && n != 1
  {
    if s != [] && s[0] == '<' && Inside(s[1..]) > 0 then 1 + Inside(s[1..]) else 0
  }

  predicate IsTag(t: string) { t != [] && TagLen(t) == |t| }

  /** Text that contains no brackets and cannot be part of a tag. */
  predicate Barrier(m: string) {
    (forall i :: 0 <= i < |m| ==> m[i] != '<' && m[i] != '>') && exists i :: 0 <= i < |m| && Stopper(m[i])
  }

  /** The tags and single characters of `s`. */
  function Lex(s: string): seq<string> {
    if s == [] then []
    else if TagLen(s) > 0 then [s[..TagLen(s)]] + Lex(s[TagLen(s)..])
    else [s[..1]] + Lex(s[1..])
  }

  function Chars(s: string): (r: seq<string>)
    ensures |r| == |s| && forall i :: 0 <= i < |s| ==> r[i] == [s[i]]
  {
    if s == [] then [] else [s[..1]] + Chars(s[1..])
  }

  /** The length of the first piece. */
  function First(s: string): (n: nat)
    requires s != []
    ensures 0 < n <= |s|
  {
    if TagLen(s) > 0 then TagLen(s) else 1
  }

  /** When two texts agree on the first piece of one of them, they agree on how lexing starts. */
  lemma LexStep(a: string, c: string)
    requires a != [] && TagLen(a + c) == TagLen(a)
    ensures Lex(a + c) == [a[..First(a)]] + Lex(a[First(a)..] + c)
  {
    assert (a + c)[..First(a)] == a[..First(a)] && (a + c)[First(a)..] == a[First(a)..] + c;
  }

  function Flat(pieces: seq<string>): string {
    if pieces == [] then [] else pieces[0] + Flat(pieces[1..])
  }

  // ---- Where tags can and cannot begin and end ---------------------------------------------

  lemma {:induction false} InsideExtends(a: string, c: string)
    requires Inside(a) > 0
    ensures Inside(a + c) == Inside(a)
  {
    assert (a + c)[1..] == a[1..] + c;
    if a[0] != '>' {
      InsideExtends(a[1..], c);
    }
  }

  lemma {:induction false} InsideStops(a: string, c: string)
    requires c != [] && Stopper(c[0])
    ensures Inside(a + c) == Inside(a)
  {
    if a == [] {
      assert a + c == c;
    } else {
      assert (a + c)[1..] == a[1..] + c;
      InsideStops(a[1..], c);
    }
  }

  lemma {:induction false} InsidePlain(a: string, m: string)
    requires forall i :: 0 <= i < |m| ==> m[i] != '>'
    ensures Inside(a + m) == Inside(a)
  {
    if a == [] {
      assert a + m == m;
      NoCloser(m);
    } else {
      assert (a + m)[1..] == a[1..] + m;
      InsidePlain(a[1..], m);
    }
  }

  lemma {:induction false} NoCloser(m: string)
    requires forall i :: 0 <= i < |m| ==> m[i] != '>'
    ensures Inside(m) == 0
  {
    if m != [] {
      NoCloser(m[1..]);
    }
  }

  lemma {:induction false} InsideBarrier(m: string, c: string)
    requires Barrier(m)
    ensures Inside(m + c) == 0
  {
    assert (m + c)[1..] == m[1..] + c;
    if Inner(m[0]) {
      var i :| 0 <= i < |m| && Stopper(m[i]);
      assert m[1..][i - 1] == m[i];
      InsideBarrier(m[1..], c);
    }
  }

  lemma TagExtends(t: string, c: string)
    requires IsTag(t)
    ensures TagLen(t + c) == |t|
  {
    InsideExtends(t[1..], c);
    assert (t + c)[1..] == t[1..] + c;
  }

  // ---- Lexing concatenations ---------------------------------------------------------------------

  lemma {:induction false} LexCut(a: string, c: string)
    requires c != [] && Stopper(c[0])
    ensures Lex(a + c) == Lex(a) + Lex(c)
    decreases |a|
  {
    if a == [] {
      assert a + c == c;
    } else {
      assert (a + c)[1..] == a[1..] + c;
      InsideStops(a[1..], c);
      LexStep(a, c);
      LexCut(a[First(a)..], c);
    }
  }

  lemma {:induction false} LexPlainEnd(a: string, m: string)
    requires forall i :: 0 <= i < |m| ==> m[i] != '<' && m[i] != '>'
    ensures Lex(a + m) == Lex(a) + Chars(m)
    decreases |a|
  {
    if a == [] {
      assert a + m == m;
      LexPlain(m, []);
      assert m + [] == m;
    } else {
      assert (a + m)[1..] == a[1..] + m;
      InsidePlain(a[1..], m);
      LexStep(a, m);
      LexPlainEnd(a[First(a)..], m);
    }
  }

  lemma {:induction false} LexPlain(m: string, c: string)
    requires forall i :: 0 <= i < |m| ==> m[i] != '<'
    ensures Lex(m + c) == Chars(m) + Lex(c)
  {
    if m == [] {
      assert m + c == c;
    } else {
      assert (m + c)[1..] == m[1..] + c && (m + c)[..1] == m[..1];
      LexPlain(m[1..], c);
    }
  }

  /** A barrier is read character by character whatever stands around it. */
  lemma LexBarrier(a: string, m: string, c: string)
    requires Barrier(m)
    ensures Lex(a + m + c) == Lex(a) + Chars(m) + Lex(c)
  {
    var k :| 0 <= k < |m| && Stopper(m[k]);
    var m1, m2 := m[..k], m[k..];
    assert a + m + c == (a + m1) + (m2 + c);
    assert Lex(a + m + c) == Lex(a + m1) + Lex(m2 + c) by { LexCut(a + m1, m2 + c); }
    assert Lex(a + m1) == Lex(a) + Chars(m1) by { LexPlainEnd(a, m1); }
    assert Lex(m2 + c) == Chars(m2) + Lex(c) by { LexPlain(m2, c); }
    CharsSplit(m, k);
    Regroup(Lex(a), Chars(m1), Chars(m2), Lex(c));
  }

  lemma CharsSplit(m: string, k: nat)
    requires k <= |m|
    ensures Chars(m) == Chars(m[..k]) + Chars(m[k..])
  {
  }

  lemma Regroup(a: seq<string>, b: seq<string>, c: seq<string>, d: seq<string>)
    ensures (a + b) + (c + d) == a + (b + c) + d
  {
  }

  /** A tag is read as one piece whatever stands around it. */
  lemma LexTag(a: string, t: string, c: string)
    requires IsTag(t)
    ensures Lex(a + t + c) == Lex(a) + [t] + Lex(c)
  {
    assert a + t + c == a + (t + c);
    LexCut(a, t + c);
    TagExtends(t, c);
    assert (t + c)[..|t|] == t && (t + c)[|t|..] == c;
  }

  lemma {:induction false} FlatLex(s: string)
    ensures Flat(Lex(s)) == s
    decreases |s|
  {
    if s != [] {
      var n := First(s);
      FlatLex(s[n..]);
      assert Lex(s)[1..] == Lex(s[n..]) && s == s[..n] + s[n..];
    }
  }

  /** A tag occurs in a text exactly when it is one of its pieces. */
  lemma TagOccurs(t: string, s: string)
    requires IsTag(t)
    ensures t in Lex(s) <==> exists a, c :: s == a + t + c
  {
    if a, c :| s == a + t + c {
      LexTag(a, t, c);
    }
    if t in Lex(s) {
      var a, c := PieceOccurs(t, s);
    }
  }

  lemma LexFirst(s: string)
    requires s != []
    ensures s == s[..First(s)] + s[First(s)..] && Lex(s) == [s[..First(s)]] + Lex(s[First(s)..])
  {
  }

  lemma After(p: string, a: string, t: string, c: string)
    ensures p + a + t + c == p + (a + t + c)
  {
  }

  lemma {:induction false} PieceOccurs(t: string, s: string) returns (a: string, c: string)
    requires t in Lex(s)
    ensures s == a + t + c
    decreases |s|
  {
    var n := First(s);
    LexFirst(s);
    if t == s[..n] {
      a, c := [], s[n..];
    } else {
      var b;
      b, c := PieceOccurs(t, s[n..]);
      a := s[..n] + b;
      After(s[..n], b, t, c);
    }
  }

  // ---- Replacing tags ------------------------------------------------------------------------------

  /** A table from tags to texts that cannot themselves be taken for tags. */
  ghost predicate Table(r: map<string, string>) {
    forall t :: t in r ==> IsTag(t) && Barrier(r[t])
  }

  function Looked(p: string, r: map<string, string>): string {
    if p in r then r[p] else p
  }

  function ExpandPieces(pieces: seq<string>, r: map<string, string>): string {
    if pieces == [] then [] else Looked(pieces[0], r) + ExpandPieces(pieces[1..], r)
  }

  /** `s` with every tag of the table replaced, all at once. */
  function Expand(s: string, r: map<string, string>): string {
    ExpandPieces(Lex(s), r)
  }

  /** The pieces after the replacement. */
  function Spread(pieces: seq<string>, r: map<string, string>): seq<string> {
    if pieces == [] then []
    else (if pieces[0] in r then Chars(r[pieces[0]]) else [pieces[0]]) + Spread(pieces[1..], r)
  }

  function Count(t: string, pieces: seq<string>): nat {
    if pieces == [] then 0 else (if pieces[0] == t then 1 else 0) + Count(t, pieces[1..])
  }

  lemma {:induction false} ExpandPiecesSplit(a: seq<string>, b: seq<string>, r: map<string, string>)
    ensures ExpandPieces(a + b, r) == ExpandPieces(a, r) + ExpandPieces(b, r)
  {
    if a == [] {
      assert a + b == b;
    } else {
      assert (a + b)[1..] == a[1..] + b;
      ExpandPiecesSplit(a[1..], b, r);
    }
  }

  lemma {:induction false} CountSplit(t: string, a: seq<string>, b: seq<string>)
    ensures Count(t, a + b) == Count(t, a) + Count(t, b)
  {
    if a == [] {
      assert a + b == b;
    } else {
      assert (a + b)[1..] == a[1..] + b;
      CountSplit(t, a[1..], b);
    }
  }

  lemma {:induction false} CountZero(t: string, pieces: seq<string>)
    ensures Count(t, pieces) == 0 <==> t !in pieces
  {
    if pieces != [] {
      CountZero(t, pieces[1..]);
      assert pieces == [pieces[0]] + pieces[1..];
    }
  }

  lemma {:induction false} CharsHoldNoTag(m: string, t: string, r: map<string, string>)
    requires IsTag(t) && Table(r)
    ensures t !in Chars(m) && ExpandPieces(Chars(m), r) == m
  {
    if m != [] {
      CharsHoldNoTag(m[1..], t, r);
      assert Chars(m) == [m[..1]] + Chars(m[1..]);
      assert TagLen(m[..1]) != 1;
    }
  }

  /** Replacing does not create a closing bracket where there was none. */
  lemma {:induction false} InsideExpand(s: string, r: map<string, string>)
    requires Table(r) && Inside(s) == 0
    ensures Inside(Expand(s, r)) == 0
    decreases |s|
  {
    if s != [] {
      var n := First(s);
      var x := Expand(s[n..], r);
      assert Expand(s, r) == Looked(s[..n], r) + x by {
        assert Lex(s) == [s[..n]] + Lex(s[n..]);
      }
      if s[..n] in r {
        InsideBarrier(r[s[..n]], x);
      } else if Inner(s[0]) {
        assert n == 1 && Inside(s[1..]) == 0;
        InsideExpand(s[1..], r);
        assert (s[..1] + x)[1..] == x;
      } else {
        assert (s[..n] + x)[0] == s[0];
      }
    }
  }

  /** The pieces after the replacement are what one expects: nothing new is read as a tag. */
  lemma {:induction false} LexExpand(s: string, r: map<string, string>)
    requires Table(r)
    ensures Lex(Expand(s, r)) == Spread(Lex(s), r)
    decreases |s|
  {
    if s != [] {
      var n := First(s);
      var p, x := s[..n], Expand(s[n..], r);
      LexExpand(s[n..], r);
      assert Lex(s) == [p] + Lex(s[n..]);
      if p in r {
        LexPlain(r[p], x);
      } else if TagLen(s) > 0 {
        PrefixIsTag(s);
        LexTagFirst(p, x);
      } else {
        if s[0] == '<' {
          InsideExpand(s[1..], r);
        }
        LexCharFirst(p, x);
      }
    }
  }

  lemma PrefixIsTag(s: string)
    requires TagLen(s) > 0
    ensures IsTag(s[..TagLen(s)])
  {
    InsidePrefix(s[1..]);
    assert s[..TagLen(s)][1..] == s[1..][..TagLen(s) - 1];
  }

  lemma LexTagFirst(t: string, c: string)
    requires IsTag(t)
    ensures Lex(t + c) == [t] + Lex(c)
  {
    assert [] + t == t && Lex([]) == [];
    LexTag([], t, c);
  }

  lemma LexCharFirst(p: string, c: string)
    requires |p| == 1 && (p[0] == '<' ==> Inside(c) == 0)
    ensures Lex(p + c) == [p] + Lex(c)
  {
    assert (p + c)[1..] == c && (p + c)[..1] == p;
  }

  lemma {:induction false} InsidePrefix(s: string)
    requires Inside(s) > 0
    ensures Inside(s[..Inside(s)]) == Inside(s)
  {
    if s[0] != '>' {
      InsidePrefix(s[1..]);
      assert s[..Inside(s)][1..] == s[1..][..Inside(s[1..])];
    }
  }

  lemma {:induction false} SpreadThenExpand(pieces: seq<string>, r: map<string, string>, q: map<string, string>)
    requires Table(r) && Table(q) && r.Keys !! q.Keys
    ensures ExpandPieces(Spread(pieces, r), q) == ExpandPieces(pieces, r + q)
  {
    if pieces != [] {
      var p := pieces[0];
      SpreadThenExpand(pieces[1..], r, q);
      if p in r {
        CharsHoldNoTag(r[p], p, q);
        ExpandPiecesSplit(Chars(r[p]), Spread(pieces[1..], r), q);
      } else {
        ExpandPiecesSplit([p], Spread(pieces[1..], r), q);
        assert ExpandPieces([p], q) == Looked(p, q);
      }
    }
  }

  /** Replacing by one table and then by another with other tags is replacing by both. */
  lemma ExpandTwice(s: string, r: map<string, string>, q: map<string, string>)
    requires Table(r) && Table(q) && r.Keys !! q.Keys
    ensures Expand(Expand(s, r), q) == Expand(s, r + q)
  {
    LexExpand(s, r);
    SpreadThenExpand(Lex(s), r, q);
  }

  lemma {:induction false} CountSpread(t: string, pieces: seq<string>, r: map<string, string>)
    requires Table(r) && IsTag(t)
    ensures Count(t, Spread(pieces, r)) == if t in r then 0 else Count(t, pieces)
  {
    if pieces != [] {
      var p := pieces[0];
      CountSpread(t, pieces[1..], r);
      var first := if p in r then Chars(r[p]) else [p];
      CountSplit(t, first, Spread(pieces[1..], r));
      if p in r {
        CharsHoldNoTag(r[p], t, r);
        CountZero(t, Chars(r[p]));
      }
    }
  }

  lemma {:induction false} ExpandPiecesSame(pieces: seq<string>, r: map<string, string>)
    requires forall t :: t in r ==> t !in pieces
    ensures ExpandPieces(pieces, r) == Flat(pieces)
  {
    if pieces != [] {
      assert pieces == [pieces[0]] + pieces[1..];
      ExpandPiecesSame(pieces[1..], r);
    }
  }

  /** A text is its own expansion exactly when it holds no tag of the table. */
  lemma ExpandIdentity(s: string, r: map<string, string>)
    requires Table(r)
    ensures Expand(s, r) == s <==> forall t :: t in r ==> t !in Lex(s)
  {
    if t :| t in r && t in Lex(s) {
      LexExpand(s, r);
      CountSpread(t, Lex(s), r);
      CountZero(t, Lex(s));
    } else {
      ExpandPiecesSame(Lex(s), r);
      FlatLex(s);
    }
  }

  /** Exchanging a barrier for a tag that stands for it changes nothing once expanded. */
  lemma ExpandMasked(a: string, m: string, t: string, c: string, r: map<string, string>)
    requires Table(r) && Barrier(m) && t in r && r[t] == m
    ensures Expand(a + t + c, r) == Expand(a + m + c, r)
  {
    LexBarrier(a, m, c);
    LexTag(a, t, c);
    ExpandPiecesSplit(Lex(a) + Chars(m), Lex(c), r);
    ExpandPiecesSplit(Lex(a), Chars(m), r);
    CharsHoldNoTag(m, t, r);
    ExpandPiecesSplit(Lex(a) + [t], Lex(c), r);
    ExpandPiecesSplit(Lex(a), [t], r);
    assert ExpandPieces([t], r) == m + [] == m;
  }

  /** Exchanging a barrier for a tag adds that tag to the count, and no other. */
  lemma CountMasked(u: string, a: string, m: string, t: string, c: string)
    requires IsTag(u) && IsTag(t) && Barrier(m)
    ensures Count(u, Lex(a + t + c)) == Count(u, Lex(a + m + c)) + if t == u then 1 else 0
  {
    LexBarrier(a, m, c);
    LexTag(a, t, c);
    CountSplit(u, Lex(a) + Chars(m), Lex(c));
    CountSplit(u, Lex(a), Chars(m));
    CharsHoldNoTag(m, u, map[]);
    CountZero(u, Chars(m));
    CountSplit(u, Lex(a) + [t], Lex(c));
    CountSplit(u, Lex(a), [t]);
    assert Count(u, [t]) == if t == u then 1 else 0;
  }

  // ---- The library's ReplaceAll -----------------------------------------------------------------------

  function ReplaceAll(s: string, old': string, new': string): string
    requires old' != []
  {
    if s == [] then []
    else if old' <= s then new' + ReplaceAll(s[|old'|..], old', new')
    else s[..1] + ReplaceAll(s[1..], old', new')
  }

  lemma {:induction false} ReplaceAllSkips(x: string, s: string, t: string, o: string)
    requires IsTag(t) && forall i :: 0 <= i < |x| ==> x[i] != '<'
    ensures ReplaceAll(x + s, t, o) == x + ReplaceAll(s, t, o)
  {
    if x == [] {
      assert x + s == s;
    } else {
      assert (x + s)[1..] == x[1..] + s && (x + s)[..1] == x[..1];
      ReplaceAllSkips(x[1..], s, t, o);
    }
  }

  /** Scanning for the text of a tag finds the tag itself and nothing else. */
  lemma {:induction false} ReplaceAllIsExpand(s: string, t: string, o: string)
    requires IsTag(t)
    ensures ReplaceAll(s, t, o) == Expand(s, map[t := o])
    decreases |s|
  {
    if s != [] {
      var n := First(s);
      var p := s[..n];
      assert Lex(s) == [p] + Lex(s[n..]) && s == p + s[n..];
      if t <= s {
        TagExtends(t, s[|t|..]);
        assert t + s[|t|..] == s;
        ReplaceAllIsExpand(s[|t|..], t, o);
      } else {
        ReplaceAllIsExpand(s[n..], t, o);
        assert p != t;
        ReplaceAllKeepsFirst(s, t, o);
      }
    }
  }

  lemma ReplaceAllFrom(s: string, t: string, o: string, n: nat)
    requires IsTag(t) && !(t <= s) && 0 < n <= |s|
    requires forall i :: 0 < i < n ==> s[i] != '<'
    ensures ReplaceAll(s, t, o) == s[..n] + ReplaceAll(s[n..], t, o)
  {
    var x, y := s[1..n], s[n..];
    assert s[1..] == x + y && s[..n] == s[..1] + x;
    ReplaceAllSkips(x, y, t, o);
  }

  lemma ReplaceAllKeepsFirst(s: string, t: string, o: string)
    requires IsTag(t) && s != [] && !(t <= s)
    ensures ReplaceAll(s, t, o) == s[..First(s)] + ReplaceAll(s[First(s)..], t, o)
  {
    InsideHasNoOpener(s[1..]);
    forall i | 0 < i < First(s)
      ensures s[i] != '<'
    {
      assert i - 1 < Inside(s[1..]) && s[i] == s[1..][i - 1];
    }
    ReplaceAllFrom(s, t, o, First(s));
  }

  lemma {:induction false} InsideHasNoOpener(s: string)
    ensures forall i :: 0 <= i < Inside(s) ==> s[i] != '<'
  {
    if s != [] && Inside(s) > 1 {
      InsideHasNoOpener(s[1..]);
      assert forall i :: 0 < i < Inside(s) ==> s[i] == s[1..][i - 1];
    }
  }
}
