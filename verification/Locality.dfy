/**
 Where the expressions for emails, UUIDs and account ids look: at the text from a position up to
 the next bracket, and nowhere else.
 */
module Locality {
  import opened Tags
  import opened Patterns

  predicate IsBracket(c: char) { c == '<' || c == '>' }

  /** From `i` in `s` and from `j` in `t` on, the same `n` characters, then a bracket or the end. */
  ghost predicate Agree(s: string, i: nat, t: string, j: nat, n: nat) {
    && i + n <= |s| && j + n <= |t|
    && s[i..i + n] == t[j..j + n] && NoBrackets(s[i..i + n])
    && (i + n < |s| ==> IsBracket(s[i + n]))
    && (j + n < |t| ==> IsBracket(t[j + n]))
  }

  lemma Pointwise(s: string, i: nat, t: string, j: nat, n: nat)
    requires Agree(s, i, t, j, n)
    ensures forall m :: i <= m < i + n ==> s[m] == t[m - i + j] && !IsBracket(s[m])
  {
    forall m | i <= m < i + n
      ensures s[m] == t[m - i + j] && !IsBracket(s[m])
    {
      assert s[m] == s[i..i + n][m - i] == t[j..j + n][m - i] == t[m - i + j];
    }
  }

  /** The same from later positions on. */
  lemma Later(s: string, i: nat, t: string, j: nat, n: nat, i': nat, j': nat)
    requires Agree(s, i, t, j, n) && i <= i' <= i + n && i' - i == j' - j
    ensures Agree(s, i', t, j', i + n - i')
  {
    var k := i' - i;
    assert s[i'..i + n] == s[i..i + n][k..] && t[j'..j + n] == t[j..j + n][k..];
  }

  lemma Mirrored(s: string, i: nat, t: string, j: nat, n: nat)
    requires Agree(s, i, t, j, n)
    ensures Agree(t, j, s, i, n)
  {
  }

  /** Both texts go on alike: with the same character that is no bracket, or not with one. */
  lemma Ahead(s: string, i: nat, t: string, j: nat, n: nat)
    requires Agree(s, i, t, j, n)
    ensures n > 0 ==> i < |s| && j < |t| && s[i] == t[j] && !IsBracket(s[i])
    ensures n == 0 ==> (i < |s| ==> IsBracket(s[i])) && (j < |t| ==> IsBracket(t[j]))
  {
    Pointwise(s, i, t, j, n);
  }

  lemma {:induction false} RunsAlike(s: string, i: nat, t: string, j: nat, n: nat, p: char -> bool)
    requires Agree(s, i, t, j, n) && !p('<') && !p('>')
    ensures RunEnd(s, i, p) - i == RunEnd(t, j, p) - j <= n
    ensures Agree(s, RunEnd(s, i, p), t, RunEnd(t, j, p), i + n - RunEnd(s, i, p))
    decreases n
  {
    Ahead(s, i, t, j, n);
    if n > 0 && p(s[i]) {
      Later(s, i, t, j, n, i + 1, j + 1);
      RunsAlike(s, i + 1, t, j + 1, n - 1, p);
    }
  }

  lemma DotAlike(s: string, i: nat, t: string, j: nat, n: nat, p: nat, p': nat, hi: nat, hi': nat)
    requires Agree(s, i, t, j, n) && i <= p && p - i == p' - j && hi - i == hi' - j && i <= hi <= i + n
    ensures DotAt(s, p, hi) <==> DotAt(t, p', hi')
  {
    if p + 3 <= hi {
      Pointwise(s, i, t, j, n);
      assert s[p] == t[p'] && s[p + 1] == t[p' + 1] && s[p + 2] == t[p' + 2];
    }
  }

  lemma {:induction false} DotsAlike(s: string, i: nat, t: string, j: nat, n: nat, p: nat, p': nat, hi: nat, hi': nat)
    requires Agree(s, i, t, j, n) && i <= p && p - i == p' - j && hi - i == hi' - j && i <= hi <= i + n
    ensures LastDot(s, i, p, hi) - i == LastDot(t, j, p', hi') - j
    decreases p
  {
    if p > i {
      DotAlike(s, i, t, j, n, p, p', hi, hi');
      DotsAlike(s, i, t, j, n, p - 1, p' - 1, hi, hi');
    }
  }

  lemma LabelsAlike(s: string, i: nat, t: string, j: nat, n: nat, hi: nat, hi': nat)
    requires Agree(s, i, t, j, n) && hi - i == hi' - j && i < hi <= i + n
    ensures LabelEnd(s, i, hi) - i == LabelEnd(t, j, hi') - j <= n
  {
    DotsAlike(s, i, t, j, n, hi - 1, hi' - 1, hi, hi');
    var dot, dot' := LastDot(s, i, hi - 1, hi), LastDot(t, j, hi' - 1, hi');
    Later(s, i, t, j, n, dot + 1, dot' + 1);
    RunsAlike(s, dot + 1, t, dot' + 1, i + n - (dot + 1), IsLetter);
  }

  lemma DomainsAlike(s: string, i: nat, t: string, j: nat, n: nat)
    requires Agree(s, i, t, j, n) && 0 < n
    ensures DomainEnd(s, i) - i == DomainEnd(t, j) - j <= n
  {
    Later(s, i, t, j, n, i + 1, j + 1);
    RunsAlike(s, i + 1, t, j + 1, n - 1, IsDomain);
    var hi, hi' := RunEnd(s, i + 1, IsDomain), RunEnd(t, j + 1, IsDomain);
    if hi > i + 1 {
      LabelsAlike(s, i + 1, t, j + 1, n - 1, hi, hi');
    }
  }

  lemma EmailsAlike(s: string, i: nat, t: string, j: nat, n: nat)
    requires Agree(s, i, t, j, n) && i < |s| && j < |t|
    ensures Email(s, i) - i == Email(t, j) - j <= n
  {
    var at, bt := RunEnd(s, i, IsLocal), RunEnd(t, j, IsLocal);
    RunsAlike(s, i, t, j, n, IsLocal);
    Ahead(s, at, t, bt, i + n - at);
    if at < i + n {
      DomainsAlike(s, at, t, bt, i + n - at);
    }
  }

  lemma UUIDsAlike(s: string, i: nat, t: string, j: nat, n: nat)
    requires Agree(s, i, t, j, n) && i < |s| && j < |t|
    ensures UUID(s, i) - i == UUID(t, j) - j <= n
  {
    UUIDCarries(s, i, t, j, n);
    Mirrored(s, i, t, j, n);
    UUIDCarries(t, j, s, i, n);
  }

  lemma UUIDCarries(s: string, i: nat, t: string, j: nat, n: nat)
    requires Agree(s, i, t, j, n) && i < |s| && j < |t|
    ensures UUID(s, i) > i ==> n >= 36 && UUID(s, i) == i + 36 && UUID(t, j) == j + 36
  {
    if UUID(s, i) > i {
      forall m | i <= m < i + 36
        ensures !IsBracket(s[m])
      {
        assert UUIDChar(s[m], m - i);
      }
      Pointwise(s, i, t, j, n);
      forall m | j <= m < j + 36
        ensures UUIDChar(t[m], m - j)
      {
        assert UUIDChar(s[m - j + i], m - j);
      }
    }
  }

  lemma WordsAlike(s: string, i: nat, t: string, j: nat, n: nat, word: string)
    requires Agree(s, i, t, j, n) && word != [] && forall k :: 0 <= k < |word| ==> 'a' <= word[k] <= 'z'
    ensures Word(s, i, word) - i == Word(t, j, word) - j <= n
  {
    WordCarries(s, i, t, j, n, word);
    Mirrored(s, i, t, j, n);
    WordCarries(t, j, s, i, n, word);
  }

  lemma WordCarries(s: string, i: nat, t: string, j: nat, n: nat, word: string)
    requires Agree(s, i, t, j, n) && forall k :: 0 <= k < |word| ==> 'a' <= word[k] <= 'z'
    ensures FoldedAt(s, i, word) ==> |word| <= n && FoldedAt(t, j, word)
  {
    if FoldedAt(s, i, word) {
      FoldedIsLetters(s, i, word);
      Pointwise(s, i, t, j, n);
      forall k | 0 <= k < |word|
        ensures Fold(t[j + k]) == word[k]
      {
        assert Fold(s[i + k]) == word[k] && s[i + k] == t[i + k - i + j];
      }
    }
  }

  lemma IDsAlike(s: string, i: nat, t: string, j: nat, n: nat)
    requires Agree(s, i, t, j, n)
    ensures IDEnd(s, i) - i == IDEnd(t, j) - j <= n
  {
    Ahead(s, i, t, j, n);
    WordsAlike(s, i, t, j, n, "id");
    if n > 0 {
      Later(s, i, t, j, n, i + 1, j + 1);
      WordsAlike(s, i + 1, t, j + 1, n - 1, "id");
    }
  }

  lemma NamesAlike(s: string, i: nat, t: string, j: nat, n: nat)
    requires Agree(s, i, t, j, n) && i < |s| && j < |t|
    ensures AccountName(s, i) - i == AccountName(t, j) - j <= n
  {
    WordsAlike(s, i, t, j, n, "account");
    WordsAlike(s, i, t, j, n, "org");
    var k := if Word(s, i, "account") > i then Word(s, i, "account") else Word(s, i, "org");
    var m := if Word(t, j, "account") > j then Word(t, j, "account") else Word(t, j, "org");
    Later(s, i, t, j, n, k, m);
    IDsAlike(s, k, t, m, i + n - k);
  }

  lemma SeparatorsAlike(s: string, i: nat, t: string, j: nat, n: nat)
    requires Agree(s, i, t, j, n)
    ensures SeparatorEnd(s, i) - i == SeparatorEnd(t, j) - j <= n
  {
    RunsAlike(s, i, t, j, n, IsBlank);
    Ahead(s, RunEnd(s, i, IsBlank), t, RunEnd(t, j, IsBlank), i + n - RunEnd(s, i, IsBlank));
  }

  lemma QuotesAlike(s: string, i: nat, t: string, j: nat, n: nat)
    requires Agree(s, i, t, j, n)
    ensures AfterQuote(s, i) - i == AfterQuote(t, j) - j <= n
    ensures Agree(s, AfterQuote(s, i), t, AfterQuote(t, j), i + n - AfterQuote(s, i))
  {
    Ahead(s, i, t, j, n);
    Later(s, i, t, j, n, AfterQuote(s, i), AfterQuote(t, j));
  }

  lemma ValuesAlike(s: string, i: nat, t: string, j: nat, n: nat)
    requires Agree(s, i, t, j, n)
    ensures ValueEnd(s, i) - i == ValueEnd(t, j) - j <= n
  {
    var q, r := RunEnd(s, i, IsBlank), RunEnd(t, j, IsBlank);
    RunsAlike(s, i, t, j, n, IsBlank);
    QuotesAlike(s, q, t, r, i + n - q);
    QuotedAlike(s, AfterQuote(s, q), t, AfterQuote(t, r), i + n - AfterQuote(s, q));
  }

  lemma QuotedAlike(s: string, u: nat, t: string, v: nat, n: nat)
    requires Agree(s, u, t, v, n)
    ensures var x, y := RunEnd(s, u, IsAccount), RunEnd(t, v, IsAccount);
      x - u == y - v && AfterQuote(s, x) - u == AfterQuote(t, y) - v <= n
  {
    RunsAlike(s, u, t, v, n, IsAccount);
    QuotesAlike(s, RunEnd(s, u, IsAccount), t, RunEnd(t, v, IsAccount), u + n - RunEnd(s, u, IsAccount));
  }

  /** Two matches of the same length, or none. */
  ghost predicate SameLength(a: Redaction, i: nat, b: Redaction, j: nat, n: nat) {
    && (a.NoMatch? <==> b.NoMatch?)
    && (a.Redaction? ==> a.end - i == b.end - j <= n)
  }

  lemma AccountsAlike(s: string, i: nat, t: string, j: nat, n: nat)
    requires Agree(s, i, t, j, n) && i < |s| && j < |t|
    ensures SameLength(Account(s, i), i, Account(t, j), j, n)
  {
    var k, m := AccountName(s, i), AccountName(t, j);
    NamesAlike(s, i, t, j, n);
    Later(s, i, t, j, n, k, m);
    SeparatorsAlike(s, k, t, m, i + n - k);
    var u, v := SeparatorEnd(s, k), SeparatorEnd(t, m);
    Later(s, i, t, j, n, u, v);
    ValuesAlike(s, u, t, v, i + n - u);
  }
}
