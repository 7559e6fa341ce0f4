/** The packets of a conversation in both directions, as shown on the ladder diagram. */
module Conversation {
  import Sorting
  import opened Sequences
  import opened Topology

  const MAX_STEPS := 48

  datatype SequenceStep = SequenceStep(relUs: int, atUs: int, direction: string, lane: string, caption: string)

  /** The steps marked with a direction. */
  function CloneSteps(steps: seq<SequenceStep>, direction: string): (r: seq<SequenceStep>)
    ensures |r| == |steps|
    ensures forall i :: 0 <= i < |r| ==> r[i] == steps[i].(direction := direction, lane := direction)
  {
    seq(|steps|, i requires 0 <= i < |steps| => steps[i].(direction := direction, lane := direction))
  }

  predicate Earlier(a: SequenceStep, b: SequenceStep) {
    if a.atUs != b.atUs then a.atUs < b.atUs else a.relUs < b.relUs
  }

  function StepsOf(detail: map<string, seq<SequenceStep>>, id: string): seq<SequenceStep> {
    if id in detail then detail[id] else []
  }

  /** Both directions of the first edge with this id, before sorting; nothing if there is no such edge. */
  ghost predicate Legs(edges: seq<Edge>, detail: map<string, seq<SequenceStep>>, id: string, all: seq<SequenceStep>) {
    if forall e :: e in edges ==> e.id != id then all == []
    else exists k :: 0 <= k < |edges| && edges[k].id == id && (forall j :: 0 <= j < k ==> edges[j].id != id)
                     && all == CloneSteps(StepsOf(detail, id), "forward")
                               + CloneSteps(StepsOf(detail, edges[k].to + "->" + edges[k].from), "reverse")
  }

  /** By time, and by relative time among equals. */
  ghost predicate InTime(s: seq<SequenceStep>) {
    forall i, j :: 0 <= i < j < |s| ==>
      s[i].atUs < s[j].atUs || (s[i].atUs == s[j].atUs && s[i].relUs <= s[j].relUs)
  }

  /** The first 48 of the steps in time order; `rest` are the later ones. */
  ghost predicate FirstInTime(all: seq<SequenceStep>, first: seq<SequenceStep>, rest: seq<SequenceStep>) {
    && multiset(all) == multiset(first) + multiset(rest)
    && |first| == (if |all| > MAX_STEPS then MAX_STEPS else |all|)
    && InTime(first + rest)
  }

  /** `r` is `s` with the clock started at the earliest known time: only the relative times differ. */
  ghost predicate Rebased(s: seq<SequenceStep>, r: seq<SequenceStep>, base: int) {
    && |r| == |s|
    && forall i :: 0 <= i < |s| ==>
         r[i] == if base > 0 && s[i].atUs > 0 then s[i].(relUs := s[i].atUs - base) else s[i]
  }

  /** The earliest positive time, or 0 when there is none. */
  ghost predicate EarliestPositive(s: seq<SequenceStep>, base: int) {
    && base >= 0
    && (base > 0 ==> exists x :: x in s && x.atUs == base)
    && forall x :: x in s && x.atUs > 0 ==> 0 < base <= x.atUs
  }

  method FindBase(s: seq<SequenceStep>) returns (base: int)
    requires |s| > 0 && InTime(s)
    ensures s[0].atUs >= 0 ==> EarliestPositive(s, base)
    ensures s[0].atUs < 0 ==> base == s[0].atUs
  {
    base := s[0].atUs;
    if base == 0 {
      for i := 0 to |s|
        invariant EarliestPositive(s[..i], base)
      {
        assert s[..i + 1] == s[..i] + [s[i]];
        if s[i].atUs > 0 && (base == 0 || s[i].atUs < base) {
          base := s[i].atUs;
        }
        assert s[i] in s[..i + 1];
      }
      assert s[..|s|] == s;
    } else if base > 0 {
      forall x | x in s
        ensures base <= x.atUs
      {
        var i :| 0 <= i < |s| && s[i] == x;
        assert i > 0 ==> s[0].atUs <= s[i].atUs;
      }
      assert s[0] in s;
    }
  }

  /** Where the clock starts: at the earliest positive time, unless a step has a negative one. */
  ghost predicate BaseOf(first: seq<SequenceStep>, base: int) {
    first != [] ==> if first[0].atUs >= 0 then EarliestPositive(first, base) else base < 0
  }

  /**
   The conversation of an edge on a given table of details: both directions, marked as such,
   the earliest 48 in time order, with times relative to the earliest known one.
   */
  ghost predicate IsConversation(edges: seq<Edge>, detail: map<string, seq<SequenceStep>>, id: string,
                                 out: seq<SequenceStep>) {
    exists all, first, rest, base ::
      Legs(edges, detail, id, all) && FirstInTime(all, first, rest) && BaseOf(first, base) && Rebased(first, out, base)
  }

  method ConversationSequence(edges: seq<Edge>, detail: map<string, seq<SequenceStep>>, id: string)
    returns (out: seq<SequenceStep>)
    ensures IsConversation(edges, detail, id, out)
  {
    var k := 0;
    while k < |edges| && edges[k].id != id
      invariant 0 <= k <= |edges| && forall j :: 0 <= j < k ==> edges[j].id != id
    {
      k := k + 1;
    }
    assert FirstInTime([], [], []) && BaseOf([], 0) && Rebased([], [], 0);
    if k == |edges| {
      assert Legs(edges, detail, id, []);
      return [];
    }
    var fwd := CloneSteps(StepsOf(detail, id), "forward");
    var rev := CloneSteps(StepsOf(detail, EdgeID(edges[k].to, edges[k].from)), "reverse");
    var both := fwd + rev;
    assert edges[k] in edges && Legs(edges, detail, id, both);
    if |fwd| == 0 && |rev| == 0 { return []; }
    ghost var rest;
    out, rest := EarliestSteps(both);
    ghost var first := out;
    var base := FindBase(out);
    out := Rebase(out, base);
    assert FirstInTime(both, first, rest) && BaseOf(first, base) && Rebased(first, out, base);
  }

  /** Sorts by time and truncates. */
  method EarliestSteps(all: seq<SequenceStep>) returns (first: seq<SequenceStep>, ghost rest: seq<SequenceStep>)
    ensures FirstInTime(all, first, rest) && (all != [] ==> first != [])
    ensures InTime(first)
  {
    var sorted := Sorting.SortSlice((a: SequenceStep, b: SequenceStep) => Earlier(a, b), all);
    SameMembers(all, sorted);
    first, rest := sorted, [];
    if |first| > MAX_STEPS {
      first, rest := sorted[..MAX_STEPS], sorted[MAX_STEPS..];
    }
    assert sorted == first + rest;
    forall i, j | 0 <= i < j < |sorted|
      ensures var a, b := sorted[i], sorted[j]; a.atUs < b.atUs || (a.atUs == b.atUs && a.relUs <= b.relUs)
    {
      assert !Earlier(sorted[j], sorted[i]);
    }
  }

  method Rebase(s: seq<SequenceStep>, base: int) returns (out: seq<SequenceStep>)
    ensures Rebased(s, out, base)
  {
    out := s;
    for i := 0 to |out|
      invariant |out| == |s|
      invariant forall j :: 0 <= j < i ==>
                  out[j] == if base > 0 && s[j].atUs > 0 then s[j].(relUs := s[j].atUs - base) else s[j]
      invariant forall j :: i <= j < |out| ==> out[j] == s[j]
    {
      if base > 0 && out[i].atUs > 0 {
        out := out[i := out[i].(relUs := out[i].atUs - base)];
      }
    }
  }

  /** With known times the relative times start at 0 and never go back. */
  lemma RebasedTimes(first: seq<SequenceStep>, rest: seq<SequenceStep>, out: seq<SequenceStep>, base: int)
    requires InTime(first + rest)
    requires Rebased(first, out, base) && EarliestPositive(first, base)
    ensures TimesRise(out)
  {
    forall i | 0 <= i < |out| && out[i].atUs > 0
      ensures out[i].relUs == first[i].atUs - base >= 0 && out[i].atUs == first[i].atUs
    {
      assert first[i] in first;
    }
    forall i, j | 0 <= i < j < |out| && out[i].atUs > 0 && out[j].atUs > 0
      ensures out[i].relUs <= out[j].relUs
    {
      assert (first + rest)[i] == first[i] && (first + rest)[j] == first[j];
      assert first[i].atUs <= first[j].atUs;
    }
    if x :| x in out && x.atUs > 0 {
      var i :| 0 <= i < |out| && out[i] == x;
      assert first[i] in first;
      var y :| y in first && y.atUs == base;
      var j :| 0 <= j < |first| && first[j] == y;
      assert out[j] in out && out[j].relUs == 0;
    }
  }

  ghost predicate TimesRise(out: seq<SequenceStep>) {
    && (forall i :: 0 <= i < |out| && out[i].atUs > 0 ==> out[i].relUs >= 0)
    && (forall i, j :: 0 <= i < j < |out| && out[i].atUs > 0 && out[j].atUs > 0 ==> out[i].relUs <= out[j].relUs)
    && ((exists x :: x in out && x.atUs > 0) ==> exists x :: x in out && x.atUs > 0 && x.relUs == 0)
  }

  /** What is kept of the legs are steps of the table. */
  lemma FromTable(edges: seq<Edge>, detail: map<string, seq<SequenceStep>>, id: string,
                  all: seq<SequenceStep>, first: seq<SequenceStep>, rest: seq<SequenceStep>)
    requires Legs(edges, detail, id, all) && FirstInTime(all, first, rest)
    requires forall k, x :: k in detail && x in detail[k] ==> x.atUs >= 0
    ensures forall x :: x in first ==> x.atUs >= 0
  {
    forall x | x in first
      ensures x.atUs >= 0
    {
      assert x in multiset(first) && x in multiset(all);
      var i :| 0 <= i < |all| && all[i] == x;
    }
  }

  /** Without negative times in the table, every conversation's known times start at 0 and never go back. */
  lemma TimesStartAtZero(edges: seq<Edge>, detail: map<string, seq<SequenceStep>>, id: string, out: seq<SequenceStep>)
    requires IsConversation(edges, detail, id, out)
    requires forall k, x :: k in detail && x in detail[k] ==> x.atUs >= 0
    ensures |out| <= MAX_STEPS && TimesRise(out)
  {
    var all, first, rest, base :|
      Legs(edges, detail, id, all) && FirstInTime(all, first, rest) && BaseOf(first, base) && Rebased(first, out, base);
    FromTable(edges, detail, id, all, first, rest);
    if first != [] {
      assert first[0] in first;
      RebasedTimes(first, rest, out, base);
    }
  }
}
