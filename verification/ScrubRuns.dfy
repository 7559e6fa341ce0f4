/** Whole runs of a scrubber: what comes back, and what does not. */
module ScrubRuns {
  import opened Tags
  import opened Patterns
  import opened Scrubbing
  import opened Cutting

  ghost predicate Occurs(t: string, x: string) {
    exists a, c :: x == a + t + c
  }

  /**
   Main result, over any run: scrub a text, then any other texts with the same scrubber, then
   restore. The first text comes back exactly, if and only if it has nothing that is cut off
   for good and no tag in the table by then occurs in it. Tags once issued stay in the table;
   and a text without an opening bracket holds none.
   */
  method ScrubThenRestoreLater(s: Scrubber, x: string, others: seq<string>) returns (back: string)
    requires s.Valid()
    modifies s
    ensures s.Valid() && Extends(old(s.reverse), s.reverse)
    ensures back == x <==> !Loses(x) && forall t :: t in s.reverse ==> !Occurs(t, x)
    ensures '<' !in x ==> (back == x <==> !Loses(x))
  {
    var out := s.Scrub(x);
    ghost var before := s.AllTables();
    for i := 0 to |others|
      invariant s.Valid() && AllExtend(before, s.AllTables()) && Extends(old(s.reverse), s.reverse)
    {
      ghost var t, r := s.AllTables(), s.reverse;
      var _ := s.Scrub(others[i]);
      LaterTables(before, t, s.AllTables(), old(s.reverse), r, s.reverse);
    }
    back := s.Restore(out);
    WhatComesBack(x, before, s.AllTables(), s.reverse);
  }

  lemma LaterTables(t: Tables, u: Tables, v: Tables, p: map<string, string>, q: map<string, string>,
                    r: map<string, string>)
    requires AllExtend(t, u) && AllExtend(u, v) && Extends(p, q) && Extends(q, r)
    ensures AllExtend(t, v) && Extends(p, r)
  {
  }

  lemma {:induction false} WhatComesBack(x: string, t: Tables, u: Tables, r: map<string, string>)
    requires AllCovered(x, t.ids, t.macs, t.ips) && AllExtend(t, u) && Ledger(u, r)
    ensures var back := Expand(Scrubbed(x, t.ids, t.macs, t.ips), r);
      && (back == x <==> !Loses(x) && forall tag :: tag in r ==> !Occurs(tag, x))
      && ('<' !in x ==> (back == x <==> !Loses(x)))
  {
    RestoreLater(x, t, u, r);
    ScrubbedStable(x, t, u);
    assert u.Of(IDKind) == u.ids;
    IssuedAreTags(u.ids, r);
    LosesIff(x, u.ids);
    if '<' !in x {
      forall tag | tag in r
        ensures !Occurs(tag, x)
      {
        NoTagWithoutBracket(tag, x);
      }
    }
  }

  lemma IssuedAreTags(m: map<string, string>, r: map<string, string>)
    requires Undoes(r, m) && Table(r)
    ensures TagValues(m)
  {
  }

  lemma NoTagWithoutBracket(t: string, x: string)
    requires IsTag(t) && '<' !in x
    ensures !Occurs(t, x)
  {
    TagChars(t);
    forall a, c
      ensures x != a + t + c
    {
      assert (a + t + c)[|a|] == '<';
    }
  }

  /** A text with a tag that has been issued is lost, whatever else happens. */
  method TagInTextIsLost(s: Scrubber, tag: string, a: string, c: string, others: seq<string>) returns (back: string)
    requires s.Valid() && tag in s.reverse
    modifies s
    ensures back != a + tag + c
  {
    back := ScrubThenRestoreLater(s, a + tag + c, others);
    assert tag in s.reverse && Occurs(tag, a + tag + c);
  }

  /** A new scrubber that has masked one address. */
  method OneMasked(address: string) returns (s: Scrubber, tag: string)
    requires Barrier(address)
    ensures fresh(s) && s.Valid() && tag in s.reverse && tag == TagOf(IPKind, 1)
  {
    s := new Scrubber();
    assert |s.ipMap| + 1 == 1;
    tag := s.MaskIP(address);
    assert tag == s.AllTables().ips[address];
    IsUndone(s.AllTables(), s.reverse, address);
  }

  lemma IsUndone(t: Tables, r: map<string, string>, address: string)
    requires Ledger(t, r) && address in t.ips
    ensures t.ips[address] in r
  {
    assert t.Of(IPKind) == t.ips && Undoes(r, t.Of(IPKind));
  }

  /** One address is masked, and then the text that comes is that address's tag: what comes back is not the text. */
  method TagAsText(address: string) returns (back: string)
    requires Barrier(address)
    ensures back != "<INTERNAL_IP_1>"
  {
    var s, tag := OneMasked(address);
    FirstTag();
    assert [] + tag + [] == tag;
    back := TagInTextIsLost(s, tag, [], [], []);
  }

  /** The tags as they are written. */
  lemma FirstTag()
    ensures TagOf(IPKind, 1) == "<INTERNAL_IP_1>"
    ensures TagOf(IDKind, 1) == "<SANITIZED_ID_1>"
    ensures TagOf(MACKind, 1) == "<MAC_1>"
    ensures RedactionTag(BearerValue) == "<REDACTED_BEARER>" && RedactionTag(AccountValue) == "<SANITIZED_ID>"
  {
  }
}
