/** What scrubbing comes to in terms of the regular expressions: six replacements one after the other. */
module RegexScrubbing {
  import opened Wrappers
  import opened Regexes
  import opened Patterns
  import opened Expressions
  import opened Addresses
  import opened Scrubbing

  function ExpressionOf(k: Mask): Regex {
    match k
    case EmailMask => EMAIL
    case UUIDMask => Regexes.UUID
    case MACMask => Regexes.MAC
    case IPMask => Regexes.IP
  }

  lemma MatchIsFirst(k: Mask, s: string, i: nat)
    requires i < |s|
    ensures First(ExpressionOf(k), s, i) == Reported(i, MatchEnd(k, s, i))
  {
    match k
    case EmailMask => EmailIsFirst(s, i);
    case UUIDMask => UUIDIsFirst(s, i);
    case MACMask => MACIsFirst(s, i);
    case IPMask => IPIsFirst(s, i);
  }

  /** What a match is replaced by: its tag, except that only addresses have one in the address pass. */
  ghost function Tagged(m: map<string, string>, onlyAddresses: bool): string -> string {
    (text: string) => if (onlyAddresses ==> IsAddress(text)) && text in m then m[text] else text
  }

  lemma WrittenIsTagged(k: Mask, s: string, i: nat, m: map<string, string>)
    requires i < |s|
    ensures var e := MatchEnd(k, s, i);
      Written(k, s, i, m) == if e > i then Tagged(m, k == IPMask)(s[i..e]) else [s[i]]
  {
    var e := MatchEnd(k, s, i);
    if e > i {
      ParsesIff(s[i..e]);
    } else {
      assert s[i..i + 1] == [s[i]];
    }
  }

  /** A masking pass is the library's replacement of all matches. */
  lemma {:induction false} SwapIsReplaceFunc(k: Mask, s: string, i: nat, m: map<string, string>)
    requires i <= |s|
    ensures Swap(k, s, i, m) == ReplaceFunc(ExpressionOf(k), s, i, Tagged(m, k == IPMask))
    decreases |s| - i
  {
    if i < |s| {
      MatchIsFirst(k, s, i);
      WrittenIsTagged(k, s, i, m);
      SwapIsReplaceFunc(k, s, Next(k, s, i), m);
    }
  }

  function NameOf(o: OneWay): Regex { if o == BearerValue then BEARER_NAME else ACCOUNT_NAME }
  function ValueOf(o: OneWay): Regex { if o == BearerValue then BEARER_VALUE else ACCOUNT_VALUE }

  lemma RedactionIsFirst(o: OneWay, s: string, i: nat)
    requires i < |s|
    ensures Grouped(NameOf(o), ValueOf(o), s, i) == Cut(RedactionAt(o, s, i))
  {
    if o == BearerValue {
      BearerIsFirst(s, i);
    } else {
      AccountIsFirst(s, i);
    }
  }

  lemma GroupStep(group: Regex, r: Regex, s: string, i: nat, text: string, m: Redaction)
    requires i < |s| && Grouped(group, r, s, i) == Cut(m) && Redacted(s, i, m)
    ensures ReplaceGroup(group, r, s, i, text) ==
            if m.NoMatch? then [s[i]] + ReplaceGroup(group, r, s, i + 1, text)
            else s[i..m.kept] + text + ReplaceGroup(group, r, s, m.end, text)
  {
  }

  lemma RedactStep(o: OneWay, s: string, i: nat)
    requires i < |s|
    ensures var m := RedactionAt(o, s, i);
      Redact(o, s, i) == if m.NoMatch? then [s[i]] + Redact(o, s, i + 1)
                         else s[i..m.kept] + RedactionTag(o) + Redact(o, s, m.end)
  {
    assert s[i..i + 1] == [s[i]];
  }

  /** A redacting pass is the library's replacement by the group and the tag. */
  lemma {:induction false} RedactIsReplaceGroup(o: OneWay, s: string, i: nat)
    requires i <= |s|
    ensures Redact(o, s, i) == ReplaceGroup(NameOf(o), ValueOf(o), s, i, RedactionTag(o))
    decreases |s| - i
  {
    if i < |s| {
      var m := RedactionAt(o, s, i);
      RedactionIsFirst(o, s, i);
      GroupStep(NameOf(o), ValueOf(o), s, i, RedactionTag(o), m);
      RedactStep(o, s, i);
      RedactIsReplaceGroup(o, s, if m.NoMatch? then i + 1 else m.end);
    }
  }

  /** The six replacements. */
  lemma ScrubbedIs(x: string, ids: map<string, string>, macs: map<string, string>, ips: map<string, string>)
    ensures var s1 := ReplaceGroup(BEARER_NAME, BEARER_VALUE, x, 0, "<REDACTED_BEARER>");
      var s2 := ReplaceFunc(EMAIL, s1, 0, Tagged(ids, false));
      var s3 := ReplaceFunc(Regexes.UUID, s2, 0, Tagged(ids, false));
      var s4 := ReplaceGroup(ACCOUNT_NAME, ACCOUNT_VALUE, s3, 0, "<SANITIZED_ID>");
      var s5 := ReplaceFunc(Regexes.MAC, s4, 0, Tagged(macs, false));
      Scrubbed(x, ids, macs, ips) == ReplaceFunc(Regexes.IP, s5, 0, Tagged(ips, true))
  {
    var s1 := Redact(BearerValue, x, 0);
    var s2 := Swap(EmailMask, s1, 0, ids);
    var s3 := Swap(UUIDMask, s2, 0, ids);
    var s4 := Redact(AccountValue, s3, 0);
    var s5 := Swap(MACMask, s4, 0, macs);
    RedactIsReplaceGroup(BearerValue, x, 0);
    SwapIsReplaceFunc(EmailMask, s1, 0, ids);
    SwapIsReplaceFunc(UUIDMask, s2, 0, ids);
    RedactIsReplaceGroup(AccountValue, s3, 0);
    SwapIsReplaceFunc(MACMask, s4, 0, macs);
    SwapIsReplaceFunc(IPMask, s5, 0, ips);
  }
}
