/** Masks sensitive values by numbered tags, and puts them back. */
module Scrubbing {
  import Text
  import opened Tags
  import opened Patterns

  // ---- What a pass over the text does --------------------------------------------------------

  datatype Mask = EmailMask | UUIDMask | MACMask | IPMask
  datatype OneWay = BearerValue | AccountValue

  function MatchEnd(k: Mask, s: string, i: nat): (e: nat)
    requires i < |s|
    ensures Matched(s, i, e)
  {
    match k
    case EmailMask => Email(s, i)
    case UUIDMask => UUID(s, i)
    case MACMask => MAC(s, i)
    case IPMask => IP(s, i)
  }

  /** Four numbers that are not an address are left alone. */
  predicate Masks(k: Mask, text: string) {
    k == IPMask ==> ParsesAsIP(text)
  }

  function Looked(text: string, m: map<string, string>): string {
    if text in m then m[text] else text
  }

  /** Where the pass goes on after position `i`: past the match there, or past one character. */
  function Next(k: Mask, s: string, i: nat): (n: nat)
    requires i < |s|
    ensures i < n <= |s|
  {
    var e := MatchEnd(k, s, i);
    if e == i then i + 1 else e
  }

  /** What the pass writes for the stretch it steps over. */
  function Written(k: Mask, s: string, i: nat, m: map<string, string>): string
    requires i < |s|
  {
    var text := s[i..Next(k, s, i)];
    if MatchEnd(k, s, i) > i && Masks(k, text) then Looked(text, m) else text
  }

  /** `s` from `i` on with every match replaced by its tag. */
  function Swap(k: Mask, s: string, i: nat, m: map<string, string>): string
    requires i <= |s|
    decreases |s| - i
  {
    if i == |s| then [] else Written(k, s, i, m) + Swap(k, s, Next(k, s, i), m)
  }

  /** Every match from `i` on has a tag. */
  predicate Covered(k: Mask, s: string, i: nat, m: map<string, string>)
    requires i <= |s|
    decreases |s| - i
  {
    i == |s| ||
    (var text := s[i..Next(k, s, i)];
     (MatchEnd(k, s, i) > i && Masks(k, text) ==> text in m) && Covered(k, s, Next(k, s, i), m))
  }

  function RedactionAt(o: OneWay, s: string, i: nat): (r: Redaction)
    requires i < |s|
    ensures Redacted(s, i, r)
  {
    if o == BearerValue then Bearer(s, i) else Account(s, i)
  }

  function RedactionTag(o: OneWay): string {
    if o == BearerValue then "<REDACTED_BEARER>" else "<SANITIZED_ID>"
  }

  function NextCut(o: OneWay, s: string, i: nat): (n: nat)
    requires i < |s|
    ensures i < n <= |s|
  {
    var r := RedactionAt(o, s, i);
    if r.NoMatch? then i + 1 else r.end
  }

  function WrittenCut(o: OneWay, s: string, i: nat): string
    requires i < |s|
  {
    var r := RedactionAt(o, s, i);
    if r.NoMatch? then s[i..i + 1] else s[i..r.kept] + RedactionTag(o)
  }

  /** `s` from `i` on with every match cut back to its name and the one-way tag. */
  function Redact(o: OneWay, s: string, i: nat): string
    requires i <= |s|
    decreases |s| - i
  {
    if i == |s| then [] else WrittenCut(o, s, i) + Redact(o, s, NextCut(o, s, i))
  }

  function Redactions(o: OneWay, s: string, i: nat): nat
    requires i <= |s|
    decreases |s| - i
  {
    if i == |s| then 0
    else (if RedactionAt(o, s, i).Redaction? then 1 else 0) + Redactions(o, s, NextCut(o, s, i))
  }

  ghost predicate Extends(m: map<string, string>, n: map<string, string>) {
    forall x :: x in m ==> x in n && n[x] == m[x]
  }

  lemma {:induction false} SwapStable(k: Mask, s: string, i: nat, m: map<string, string>, n: map<string, string>)
    requires i <= |s| && Covered(k, s, i, m) && Extends(m, n)
    ensures Swap(k, s, i, n) == Swap(k, s, i, m) && Covered(k, s, i, n)
    decreases |s| - i
  {
    if i < |s| {
      SwapStable(k, s, Next(k, s, i), m, n);
    }
  }

  // ---- Tags -----------------------------------------------------------------------------------

  datatype Kind = IPKind | IDKind | MACKind

  function Name(kind: Kind): (s: string)
    ensures |s| > 0 && forall i :: 0 <= i < |s| ==> Inner(s[i])
  {
    match kind
    case IPKind => "INTERNAL_IP"
    case IDKind => "SANITIZED_ID"
    case MACKind => "MAC"
  }

  function TagOf(kind: Kind, n: nat): string {
    "<" + Name(kind) + "_" + Text.Decimal(n) + ">"
  }

  lemma {:induction false} InsideRun(m: string)
    requires forall i :: 0 <= i < |m| ==> Inner(m[i])
    ensures Inside(m + ">") == |m| + 1
  {
    assert (m + ">")[|m|] == '>';
    if m != [] {
      assert (m + ">")[1..] == m[1..] + ">";
      InsideRun(m[1..]);
    }
  }

  lemma BracketedIsTag(m: string)
    requires forall i :: 0 <= i < |m| ==> Inner(m[i])
    ensures IsTag("<" + m + ">")
  {
    assert ("<" + m + ">")[1..] == m + ">";
    InsideRun(m);
  }

  lemma TagOfIsTag(kind: Kind, n: nat)
    ensures IsTag(TagOf(kind, n))
  {
    var m := Name(kind) + "_" + Text.Decimal(n);
    assert TagOf(kind, n) == "<" + m + ">";
    BracketedIsTag(m);
  }

  lemma RedactionTagIsTag(o: OneWay)
    ensures IsTag(RedactionTag(o))
  {
    match o
    case BearerValue =>
      BracketedIsTag("REDACTED_BEARER");
      assert RedactionTag(o) == "<" + "REDACTED_BEARER" + ">";
    case AccountValue =>
      BracketedIsTag("SANITIZED_ID");
      assert RedactionTag(o) == "<" + "SANITIZED_ID" + ">";
  }

  lemma TagParts(kind: Kind, n: nat)
    ensures var t, k := TagOf(kind, n), |Name(kind)| + 2;
      |t| > k + 1 && t[1] == Name(kind)[0] && t[k..|t| - 1] == Text.Decimal(n)
  {
  }

  lemma NameInitials(a: Kind, b: Kind)
    ensures Name(a)[0] == Name(b)[0] ==> a == b
  {
  }

  /** Different kinds or numbers, different tags. */
  lemma TagsDiffer(kind: Kind, n: nat, other: Kind, m: nat)
    requires TagOf(kind, n) == TagOf(other, m)
    ensures kind == other && n == m
  {
    TagParts(kind, n);
    TagParts(other, m);
    NameInitials(kind, other);
    Text.DecimalInjective(n, m);
  }

  /** No numbered tag is a one-way tag. */
  lemma OneWayDiffers(kind: Kind, n: nat, o: OneWay)
    ensures TagOf(kind, n) != RedactionTag(o)
  {
    TagParts(kind, n);
    match o
    case BearerValue => assert RedactionTag(o)[1] == 'R' != Name(kind)[0];
    case AccountValue => assert |RedactionTag(o)| == 14 && (kind != IDKind ==> RedactionTag(o)[1] != Name(kind)[0]);
  }

  /** The kind of tag a pass uses. */
  function KindOf(k: Mask): Kind {
    match k
    case IPMask => IPKind
    case MACMask => MACKind
    case _ => IDKind
  }

  // ---- What the passes keep ---------------------------------------------------------------------

  /** The table undoes every tag of `m`. */
  ghost predicate Undoes(r: map<string, string>, m: map<string, string>) {
    forall v :: v in m ==> m[v] in r && r[m[v]] == v
  }

  lemma Regroup(a: string, b: string, c: string)
    ensures a + (b + c) == a + b + c
  {
  }

  lemma CutAt(pre: string, s: string, i: nat, n: nat)
    requires i <= n <= |s|
    ensures pre + s[i..n] + s[n..] == pre + s[i..]
  {
  }

  lemma StepExpands(k: Mask, pre: string, s: string, i: nat, m: map<string, string>, r: map<string, string>)
    requires i < |s| && Covered(k, s, i, m) && Table(r) && Undoes(r, m)
    ensures Expand(pre + Written(k, s, i, m) + s[Next(k, s, i)..], r) == Expand(pre + s[i..], r)
  {
    var n := Next(k, s, i);
    CutAt(pre, s, i, n);
    if MatchEnd(k, s, i) > i && Masks(k, s[i..n]) {
      ExpandMasked(pre, s[i..n], m[s[i..n]], s[n..], r);
    }
  }

  /** A masking pass is invisible once the tags are put back. */
  lemma {:induction false} SwapExpands(k: Mask, pre: string, s: string, i: nat, m: map<string, string>,
                                       r: map<string, string>)
    requires i <= |s| && Covered(k, s, i, m) && Table(r) && Undoes(r, m)
    ensures Expand(pre + Swap(k, s, i, m), r) == Expand(pre + s[i..], r)
    decreases |s| - i
  {
    if i < |s| {
      var piece, n := Written(k, s, i, m), Next(k, s, i);
      Regroup(pre, piece, Swap(k, s, n, m));
      SwapExpands(k, pre + piece, s, n, m, r);
      StepExpands(k, pre, s, i, m, r);
    }
  }

  lemma StepCounts(u: string, k: Mask, pre: string, s: string, i: nat, m: map<string, string>)
    requires i < |s| && Covered(k, s, i, m) && IsTag(u) && TagsOtherThan(m, u)
    ensures Count(u, Lex(pre + Written(k, s, i, m) + s[Next(k, s, i)..])) == Count(u, Lex(pre + s[i..]))
  {
    var n := Next(k, s, i);
    CutAt(pre, s, i, n);
    if MatchEnd(k, s, i) > i && Masks(k, s[i..n]) {
      CountMasked(u, pre, s[i..n], m[s[i..n]], s[n..]);
    }
  }

  ghost predicate TagsOtherThan(m: map<string, string>, u: string) {
    forall v :: v in m ==> IsTag(m[v]) && m[v] != u
  }

  /** A masking pass adds only its own tags. */
  lemma {:induction false} SwapCounts(u: string, k: Mask, pre: string, s: string, i: nat, m: map<string, string>)
    requires i <= |s| && Covered(k, s, i, m) && IsTag(u) && TagsOtherThan(m, u)
    ensures Count(u, Lex(pre + Swap(k, s, i, m))) == Count(u, Lex(pre + s[i..]))
    decreases |s| - i
  {
    if i < |s| {
      var piece, n := Written(k, s, i, m), Next(k, s, i);
      Regroup(pre, piece, Swap(k, s, n, m));
      SwapCounts(u, k, pre + piece, s, n, m);
      StepCounts(u, k, pre, s, i, m);
    }
  }

  /** A redaction leaves its name and puts its tag where a barrier was. */
  lemma CountRedacted(u: string, a: string, name: string, m: string, t: string, c: string)
    requires IsTag(u) && IsTag(t) && Barrier(m) && NoBrackets(name)
    ensures Count(u, Lex(a + name + t + c)) == Count(u, Lex(a + m + c)) + if t == u then 1 else 0
  {
    CountMasked(u, a, m, t, c);
    LexTag(a + name, t, c);
    LexPlainEnd(a, name);
    LexTag(a, t, c);
    CountSplit(u, Lex(a) + Chars(name) + [t], Lex(c));
    CountSplit(u, Lex(a) + Chars(name), [t]);
    CountSplit(u, Lex(a), Chars(name));
    CharsHoldNoTag(name, u, map[]);
    CountZero(u, Chars(name));
    CountSplit(u, Lex(a) + [t], Lex(c));
    CountSplit(u, Lex(a), [t]);
  }

  lemma CutCounts(u: string, o: OneWay, pre: string, s: string, i: nat)
    requires i < |s| && IsTag(u)
    ensures Count(u, Lex(pre + WrittenCut(o, s, i) + s[NextCut(o, s, i)..])) == Count(u, Lex(pre + s[i..]))
            + if u == RedactionTag(o) && RedactionAt(o, s, i).Redaction? then 1 else 0
  {
    var r, n := RedactionAt(o, s, i), NextCut(o, s, i);
    CutAt(pre, s, i, n);
    if r.Redaction? {
      RedactionTagIsTag(o);
      CountRedacted(u, pre, s[i..r.kept], s[i..n], RedactionTag(o), s[n..]);
      Regroup(pre, s[i..r.kept], RedactionTag(o));
    }
  }

  /** A redacting pass adds one of its tags per match. */
  lemma {:induction false} RedactCounts(u: string, o: OneWay, pre: string, s: string, i: nat)
    requires i <= |s| && IsTag(u)
    ensures Count(u, Lex(pre + Redact(o, s, i))) ==
            Count(u, Lex(pre + s[i..])) + if u == RedactionTag(o) then Redactions(o, s, i) else 0
    decreases |s| - i
  {
    if i < |s| {
      var piece, n := WrittenCut(o, s, i), NextCut(o, s, i);
      Regroup(pre, piece, Redact(o, s, n));
      RedactCounts(u, o, pre + piece, s, n);
      CutCounts(u, o, pre, s, i);
    }
  }

  lemma {:induction false} NothingRedacted(o: OneWay, s: string, i: nat)
    requires i <= |s| && Redactions(o, s, i) == 0
    ensures Redact(o, s, i) == s[i..]
    decreases |s| - i
  {
    if i < |s| {
      NothingRedacted(o, s, i + 1);
    }
  }

  // ---- The six passes together ----------------------------------------------------------------------

  /** The text the account pass sees. */
  function BeforeAccounts(x: string, ids: map<string, string>): string {
    Swap(UUIDMask, Swap(EmailMask, Redact(BearerValue, x, 0), 0, ids), 0, ids)
  }

  /** The text the MAC pass sees. */
  function AfterAccounts(x: string, ids: map<string, string>): string {
    Redact(AccountValue, BeforeAccounts(x, ids), 0)
  }

  function Scrubbed(x: string, ids: map<string, string>, macs: map<string, string>, ips: map<string, string>): string {
    Swap(IPMask, Swap(MACMask, AfterAccounts(x, ids), 0, macs), 0, ips)
  }

  predicate IDsCovered(x: string, ids: map<string, string>) {
    && Covered(EmailMask, Redact(BearerValue, x, 0), 0, ids)
    && Covered(UUIDMask, Swap(EmailMask, Redact(BearerValue, x, 0), 0, ids), 0, ids)
  }

  predicate AllCovered(x: string, ids: map<string, string>, macs: map<string, string>, ips: map<string, string>) {
    && IDsCovered(x, ids)
    && Covered(MACMask, AfterAccounts(x, ids), 0, macs)
    && Covered(IPMask, Swap(MACMask, AfterAccounts(x, ids), 0, macs), 0, ips)
  }

  /** Scrubbing cut something off for good: a bearer value or an account number. */
  predicate Cuts(x: string, ids: map<string, string>) {
    Redactions(BearerValue, x, 0) > 0 || Redactions(AccountValue, BeforeAccounts(x, ids), 0) > 0
  }

  lemma Whole(s: string)
    ensures [] + s[0..] == s && forall t: string :: [] + t == t
  {
  }

  lemma ScrubbedExpands(x: string, ids: map<string, string>, macs: map<string, string>, ips: map<string, string>,
                        r: map<string, string>)
    requires AllCovered(x, ids, macs, ips) && Table(r) && Undoes(r, ids) && Undoes(r, macs) && Undoes(r, ips)
    requires !Cuts(x, ids)
    ensures Expand(Scrubbed(x, ids, macs, ips), r) == Expand(x, r)
  {
    var s1 := Redact(BearerValue, x, 0);
    var s2 := Swap(EmailMask, s1, 0, ids);
    var s3 := Swap(UUIDMask, s2, 0, ids);
    var s4 := Redact(AccountValue, s3, 0);
    var s5 := Swap(MACMask, s4, 0, macs);
    NothingRedacted(BearerValue, x, 0);
    NothingRedacted(AccountValue, s3, 0);
    SwapExpands(EmailMask, [], s1, 0, ids, r);
    SwapExpands(UUIDMask, [], s2, 0, ids, r);
    SwapExpands(MACMask, [], s4, 0, macs, r);
    SwapExpands(IPMask, [], s5, 0, ips, r);
    Whole(s1);
    Whole(s2);
    Whole(s4);
    Whole(s5);
  }

  lemma ScrubbedCounts(u: string, x: string, ids: map<string, string>, macs: map<string, string>,
                       ips: map<string, string>)
    requires AllCovered(x, ids, macs, ips) && IsTag(u)
    requires TagsOtherThan(ids, u) && TagsOtherThan(macs, u) && TagsOtherThan(ips, u)
    ensures Count(u, Lex(Scrubbed(x, ids, macs, ips))) == Count(u, Lex(x))
            + (if u == RedactionTag(BearerValue) then Redactions(BearerValue, x, 0) else 0)
            + (if u == RedactionTag(AccountValue) then Redactions(AccountValue, BeforeAccounts(x, ids), 0) else 0)
  {
    var s1 := Redact(BearerValue, x, 0);
    var s2 := Swap(EmailMask, s1, 0, ids);
    var s3 := Swap(UUIDMask, s2, 0, ids);
    var s4 := Redact(AccountValue, s3, 0);
    var s5 := Swap(MACMask, s4, 0, macs);
    RedactCounts(u, BearerValue, [], x, 0);
    SwapCounts(u, EmailMask, [], s1, 0, ids);
    SwapCounts(u, UUIDMask, [], s2, 0, ids);
    RedactCounts(u, AccountValue, [], s3, 0);
    SwapCounts(u, MACMask, [], s4, 0, macs);
    SwapCounts(u, IPMask, [], s5, 0, ips);
    Whole(x);
    Whole(s1);
    Whole(s2);
    Whole(s3);
    Whole(s4);
    Whole(s5);
  }

  /**
   Main result: putting the tags back yields the original text if and only if nothing was cut
   off for good and the original does not itself contain a tag that is in the table.
   */
  lemma RestoreIff(x: string, ids: map<string, string>, macs: map<string, string>, ips: map<string, string>,
                   r: map<string, string>)
    requires AllCovered(x, ids, macs, ips) && Table(r) && Undoes(r, ids) && Undoes(r, macs) && Undoes(r, ips)
    requires forall o: OneWay :: RedactionTag(o) !in r
    ensures Expand(Scrubbed(x, ids, macs, ips), r) == x <==> !Cuts(x, ids) && forall t :: t in r ==> t !in Lex(x)
  {
    var y := Scrubbed(x, ids, macs, ips);
    if Cuts(x, ids) {
      var o := if Redactions(BearerValue, x, 0) > 0 then BearerValue else AccountValue;
      var u := RedactionTag(o);
      RedactionTagIsTag(o);
      ScrubbedCounts(u, x, ids, macs, ips);
      LexExpand(y, r);
      CountSpread(u, Lex(y), r);
      assert Count(u, Lex(Expand(y, r))) > Count(u, Lex(x));
    } else {
      ScrubbedExpands(x, ids, macs, ips, r);
      ExpandIdentity(x, r);
    }
  }

  // ---- The tables ---------------------------------------------------------------------------------

  /** The three tables from values to tags. */
  datatype Tables = Tables(ips: map<string, string>, ids: map<string, string>, macs: map<string, string>) {
    function Of(kind: Kind): map<string, string> {
      match kind
      case IPKind => ips
      case IDKind => ids
      case MACKind => macs
    }

    function With(kind: Kind, val: string, tag: string): Tables {
      match kind
      case IPKind => this.(ips := ips[val := tag])
      case IDKind => this.(ids := ids[val := tag])
      case MACKind => this.(macs := macs[val := tag])
    }
  }

  /** The reverse table undoes all three, and no tag is in use beyond the size of its kind's table. */
  ghost predicate Ledger(t: Tables, r: map<string, string>) {
    && Table(r)
    && (forall k: Kind :: Undoes(r, t.Of(k)))
    && (forall o: OneWay :: RedactionTag(o) !in r)
    && (forall k: Kind, n: nat :: n > |t.Of(k)| ==> TagOf(k, n) !in r)
  }

  ghost predicate AllExtend(t: Tables, u: Tables) {
    Extends(t.ips, u.ips) && Extends(t.ids, u.ids) && Extends(t.macs, u.macs)
  }

  lemma WithExtends(t: Tables, kind: Kind, val: string, tag: string)
    requires val !in t.Of(kind)
    ensures var u := t.With(kind, val, tag); AllExtend(t, u) && val in u.Of(kind) && u.Of(kind)[val] == tag
  {
  }

  lemma OfExtends(t: Tables, u: Tables, kind: Kind)
    requires AllExtend(t, u)
    ensures Extends(t.Of(kind), u.Of(kind))
  {
  }

  lemma UndoesMore(r: map<string, string>, m: map<string, string>, tag: string, val: string)
    requires Undoes(r, m) && tag !in r
    ensures Undoes(r[tag := val], m) && Undoes(r[tag := val], m[val := tag])
  {
  }

  lemma NumbersBeyond(t: Tables, r: map<string, string>, kind: Kind, val: string)
    requires val !in t.Of(kind) && forall k: Kind, n: nat :: n > |t.Of(k)| ==> TagOf(k, n) !in r
    ensures var tag := TagOf(kind, |t.Of(kind)| + 1);
      forall k: Kind, n: nat :: n > |t.With(kind, val, tag).Of(k)| ==> TagOf(k, n) !in r[tag := val]
  {
    var tag := TagOf(kind, |t.Of(kind)| + 1);
    forall k: Kind, n: nat | n > |t.With(kind, val, tag).Of(k)|
      ensures TagOf(k, n) !in r[tag := val]
    {
      if TagOf(k, n) == tag {
        TagsDiffer(kind, |t.Of(kind)| + 1, k, n);
      }
      assert n > |t.Of(k)|;
    }
  }

  /** Issuing the next tag of a kind keeps the tables in order. */
  lemma LedgerGrows(t: Tables, r: map<string, string>, kind: Kind, val: string, tag: string)
    requires Ledger(t, r) && val !in t.Of(kind) && Barrier(val)
    requires tag == TagOf(kind, |t.Of(kind)| + 1)
    ensures tag !in r && Ledger(t.With(kind, val, tag), r[tag := val])
  {
    var n := |t.Of(kind)| + 1;
    TagOfIsTag(kind, n);
    UndoesAll(t, r, kind, val, tag);
    NumbersBeyond(t, r, kind, val);
    forall o: OneWay
      ensures RedactionTag(o) !in r[tag := val]
    {
      OneWayDiffers(kind, n, o);
    }
  }

  lemma UndoesAll(t: Tables, r: map<string, string>, kind: Kind, val: string, tag: string)
    requires tag !in r && forall k: Kind :: Undoes(r, t.Of(k))
    ensures forall k: Kind :: Undoes(r[tag := val], t.With(kind, val, tag).Of(k))
  {
    forall k: Kind
      ensures Undoes(r[tag := val], t.With(kind, val, tag).Of(k))
    {
      UndoesMore(r, t.Of(k), tag, val);
    }
  }

  lemma {:induction false} MatchIsBarrier(k: Mask, s: string, i: nat)
    requires i < |s| && MatchEnd(k, s, i) > i
    ensures Barrier(s[i..Next(k, s, i)])
  {
    assert Matched(s, i, MatchEnd(k, s, i));
  }

  /** One more step of a pass whose table has grown since. */
  lemma SwapOne(k: Mask, s: string, i: nat, m: map<string, string>, n: map<string, string>, piece: string, rest: string)
    requires i < |s| && Extends(m, n)
    requires var text := s[i..Next(k, s, i)];
      if MatchEnd(k, s, i) > i && Masks(k, text) then text in m && piece == m[text] else piece == text
    requires Covered(k, s, Next(k, s, i), n) && rest == Swap(k, s, Next(k, s, i), n)
    ensures Covered(k, s, i, n) && piece + rest == Swap(k, s, i, n)
  {
    assert piece == Written(k, s, i, n);
  }

  class Scrubber {
    var ipMap: map<string, string>
    var idMap: map<string, string>
    var macMap: map<string, string>
    var reverse: map<string, string>

    ghost function AllTables(): Tables
      reads this
    {
      Tables(ipMap, idMap, macMap)
    }

    ghost predicate Valid()
      reads this
    {
      Ledger(AllTables(), reverse)
    }

    /** Nothing issued before is lost or changed. */
    twostate predicate Grown()
      reads this
    {
      AllExtend(old(AllTables()), AllTables()) && Extends(old(reverse), reverse)
    }

    /** Only the table of this kind has changed. */
    twostate predicate OnlyKind(kind: Kind)
      reads this
    {
      && (kind != IPKind ==> ipMap == old(ipMap))
      && (kind != IDKind ==> idMap == old(idMap))
      && (kind != MACKind ==> macMap == old(macMap))
    }

    constructor ()
      ensures Valid() && ipMap == map[] && idMap == map[] && macMap == map[] && reverse == map[]
    {
      ipMap, idMap, macMap, reverse := map[], map[], map[], map[];
    }

    method Store(kind: Kind, val: string, tag: string)
      requires val !in AllTables().Of(kind) && tag !in reverse
      requires Ledger(AllTables().With(kind, val, tag), reverse[tag := val])
      modifies this
      ensures Valid() && Grown() && OnlyKind(kind)
      ensures AllTables() == old(AllTables()).With(kind, val, tag)
    {
      WithExtends(AllTables(), kind, val, tag);
      ghost var t, r := AllTables().With(kind, val, tag), reverse[tag := val];
      reverse := reverse[tag := val];
      match kind {
        case IPKind => ipMap := ipMap[val := tag];
        case IDKind => idMap := idMap[val := tag];
        case MACKind => macMap := macMap[val := tag];
      }
      assert AllTables() == t && reverse == r;
    }

    /** Issues the next tag of a kind. */
    method Issue(kind: Kind, val: string) returns (tag: string)
      requires Valid() && Barrier(val) && val !in AllTables().Of(kind)
      modifies this
      ensures Valid() && Grown() && OnlyKind(kind)
      ensures AllTables() == old(AllTables()).With(kind, val, tag)
      ensures tag == TagOf(kind, |old(AllTables()).Of(kind)| + 1) && tag !in old(reverse)
    {
      var n := |Entries(kind)| + 1;
      tag := TagOf(kind, n);
      assert n == |AllTables().Of(kind)| + 1;
      LedgerGrows(AllTables(), reverse, kind, val, tag);
      Store(kind, val, tag);
    }

    function Entries(kind: Kind): (m: map<string, string>)
      reads this
      ensures m == AllTables().Of(kind)
    {
      match kind
      case IPKind => ipMap
      case IDKind => idMap
      case MACKind => macMap
    }

    method MaskIP(ip: string) returns (tag: string)
      requires Valid() && Barrier(ip)
      modifies this
      ensures Valid() && Grown() && OnlyKind(IPKind)
      ensures ip in ipMap && tag == ipMap[ip]
      ensures ip !in old(ipMap) ==> tag == TagOf(IPKind, |old(ipMap)| + 1) && tag !in old(reverse)
    {
      if ip in ipMap { return ipMap[ip]; }
      tag := Issue(IPKind, ip);
    }

    method MaskToken(val: string, kind: Kind) returns (tag: string)
      requires Valid() && Barrier(val) && kind != IPKind
      modifies this
      ensures Valid() && Grown() && OnlyKind(kind)
      ensures val in Entries(kind) && tag == Entries(kind)[val]
      ensures val !in old(Entries(kind)) ==>
                tag == TagOf(kind, |old(Entries(kind))| + 1) && tag !in old(reverse)
    {
      var m := idMap;
      if kind == MACKind {
        m := macMap;
      }
      assert m == Entries(kind) == AllTables().Of(kind);
      if val in m { return m[val]; }
      tag := Issue(kind, val);
    }

    /** The callback a pass calls for each match. */
    method MaskMatch(k: Mask, text: string) returns (piece: string)
      requires Valid() && Barrier(text)
      modifies this
      ensures Valid() && Grown() && OnlyKind(KindOf(k))
      ensures var m := AllTables().Of(KindOf(k));
        if Masks(k, text) then text in m && piece == m[text] else piece == text
    {
      match k
      case IPMask =>
        if !ParsesAsIP(text) { return text; }
        piece := MaskIP(text);
      case MACMask =>
        piece := MaskToken(text, MACKind);
      case _ =>
        piece := MaskToken(text, IDKind);
    }

    /** One masking pass from position `i` on, left to right. */
    method MaskFrom(k: Mask, s: string, i: nat) returns (out: string)
      requires Valid() && i <= |s|
      modifies this
      ensures Valid() && Grown() && OnlyKind(KindOf(k))
      ensures var m := AllTables().Of(KindOf(k)); Covered(k, s, i, m) && out == Swap(k, s, i, m)
      decreases |s| - i
    {
      if i == |s| { return []; }
      var e := MatchEnd(k, s, i);
      var piece;
      if e == i {
        piece := s[i..i + 1];
      } else {
        MatchIsBarrier(k, s, i);
        piece := MaskMatch(k, s[i..e]);
      }
      assert Next(k, s, i) == if e == i then i + 1 else e;
      ghost var t := AllTables();
      var rest := MaskFrom(k, s, Next(k, s, i));
      OfExtends(t, AllTables(), KindOf(k));
      SwapOne(k, s, i, t.Of(KindOf(k)), AllTables().Of(KindOf(k)), piece, rest);
      out := piece + rest;
    }

    /** The passes up to the account numbers. */
    method ScrubIDs(input: string) returns (out: string)
      requires Valid()
      modifies this
      ensures Valid() && Grown() && OnlyKind(IDKind)
      ensures IDsCovered(input, idMap) && out == BeforeAccounts(input, idMap)
    {
      out := Redact(BearerValue, input, 0);
      ghost var s1 := out;
      out := MaskFrom(EmailMask, out, 0);
      ghost var ids := idMap;
      out := MaskFrom(UUIDMask, out, 0);
      SwapStable(EmailMask, s1, 0, ids, idMap);
    }

    /**
     Masks the text. The result is the six passes applied with the tables as they are
     afterwards, in which every match has its tag.
     */
    method Scrub(input: string) returns (out: string)
      requires Valid()
      modifies this
      ensures Valid() && Grown()
      ensures AllCovered(input, idMap, macMap, ipMap) && out == Scrubbed(input, idMap, macMap, ipMap)
    {
      out := ScrubIDs(input);
      out := Redact(AccountValue, out, 0);
      out := MaskFrom(MACMask, out, 0);
      out := MaskFrom(IPMask, out, 0);
    }

    /** Replaces the tags one at a time, in any order; the result is as if they were replaced all at once. */
    method Restore(input: string) returns (out: string)
      requires Valid()
      ensures out == Expand(input, reverse)
    {
      out := input;
      var table := reverse;
      var pending := table.Keys;
      NothingYet(input, table);
      while pending != {}
        invariant pending <= table.Keys
        invariant out == Expand(input, Without(table, pending))
        decreases pending
      {
        var token :| token in pending;
        ReplacedOneMore(input, table, pending, token);
        out := ReplaceAll(out, token, table[token]);
        pending := pending - {token};
      }
      assert Without(table, {}) == table;
    }
  }

  /** The tags already replaced. */
  ghost function Without(r: map<string, string>, pending: set<string>): map<string, string> {
    map t | t in r && t !in pending :: r[t]
  }

  lemma NothingYet(s: string, r: map<string, string>)
    ensures Expand(s, Without(r, r.Keys)) == s
  {
    assert Without(r, r.Keys) == map[];
    ExpandIdentity(s, map[]);
  }

  lemma ReplacedOneMore(s: string, r: map<string, string>, pending: set<string>, token: string)
    requires Table(r) && token in pending && token in r
    ensures ReplaceAll(Expand(s, Without(r, pending)), token, r[token]) == Expand(s, Without(r, pending - {token}))
  {
    var done, one := Without(r, pending), map[token := r[token]];
    ReplaceAllIsExpand(Expand(s, done), token, r[token]);
    ExpandTwice(s, done, one);
    assert done + one == Without(r, pending - {token});
  }

  lemma {:induction false} RestoreLater(x: string, t: Tables, u: Tables, r: map<string, string>)
    requires AllCovered(x, t.ids, t.macs, t.ips) && AllExtend(t, u) && Ledger(u, r)
    ensures Expand(Scrubbed(x, t.ids, t.macs, t.ips), r) == x <==>
            !Cuts(x, u.ids) && forall tag :: tag in r ==> !exists a, c :: x == a + tag + c
  {
    ScrubbedStable(x, t, u);
    assert u.Of(IPKind) == u.ips && u.Of(IDKind) == u.ids && u.Of(MACKind) == u.macs;
    RestoreIff(x, u.ids, u.macs, u.ips, r);
    forall tag | tag in r
      ensures tag in Lex(x) <==> exists a, c :: x == a + tag + c
    {
      TagOccurs(tag, x);
    }
  }

  /** Later scrubbing changes neither what was written for a text nor whether something was cut off from it. */
  lemma {:induction false} ScrubbedStable(x: string, t: Tables, u: Tables)
    requires AllCovered(x, t.ids, t.macs, t.ips)
    requires AllExtend(t, u)
    ensures AllCovered(x, u.ids, u.macs, u.ips)
    ensures Scrubbed(x, u.ids, u.macs, u.ips) == Scrubbed(x, t.ids, t.macs, t.ips)
    ensures BeforeAccounts(x, u.ids) == BeforeAccounts(x, t.ids)
  {
    var s1 := Redact(BearerValue, x, 0);
    SwapStable(EmailMask, s1, 0, t.ids, u.ids);
    SwapStable(UUIDMask, Swap(EmailMask, s1, 0, t.ids), 0, t.ids, u.ids);
    var s4 := AfterAccounts(x, t.ids);
    SwapStable(MACMask, s4, 0, t.macs, u.macs);
    SwapStable(IPMask, Swap(MACMask, s4, 0, t.macs), 0, t.ips, u.ips);
  }
}
