/** The sentence segmenter of the adventure component (`getSentences`): the
    global regular expression `/[^.!?]+(?:[.!?]+["']?|$)/g` cuts a narrator
    message into matches, each match becomes a span `{text, start, end}`, and
    spans whose trimmed text is empty are dropped.

    Two span constructions are modelled. `SentencesAsWritten` gives each span
    the running total of the lengths of the earlier matches as its offset,
    as the component does; characters the expression skips are therefore not
    counted. `Sentences` gives each span the position of its match in the
    text, which is what the highlighting and click-to-locate code needs; the
    rest of the model uses it. */
module Segmenter {
  import opened TextUtil

  predicate IsTerminator(c: char) {
    c == '.' || c == '!' || c == '?'
  }

  predicate IsClosingQuote(c: char) {
    c == '"' || c == '\''
  }

  /** `{ text, start, end }`: a half-open character range of a message. */
  datatype Span = Span(text: string, start: int, end: int)

  /** The position of one match of the expression in the text. */
  datatype RawMatch = RawMatch(start: nat, end: nat)

  /** Greedy `[^.!?]+` from `i`: where the run of non-terminators ends. */
  function NonTerminatorRunEnd(s: string, i: nat): (e: nat)
    requires i <= |s|
    ensures i <= e <= |s|
    ensures forall k :: i <= k < e ==> !IsTerminator(s[k])
    ensures e < |s| ==> IsTerminator(s[e])
    decreases |s| - i
  {
    if i == |s| || IsTerminator(s[i]) then i else NonTerminatorRunEnd(s, i + 1)
  }

  /** Greedy `[.!?]+` from `i`: where the run of terminators ends. */
  function TerminatorRunEnd(s: string, i: nat): (e: nat)
    requires i <= |s|
    ensures i <= e <= |s|
    ensures forall k :: i <= k < e ==> IsTerminator(s[k])
    ensures e < |s| ==> !IsTerminator(s[e])
    decreases |s| - i
  {
    if i == |s| || !IsTerminator(s[i]) then i else TerminatorRunEnd(s, i + 1)
  }

  /** The end of the match that starts at `p`: the run of non-terminators,
      then either the end of the text or a run of terminators with at most
      one closing quote after it. */
  function MatchEnd(s: string, p: nat): (e: nat)
    requires p < |s| && !IsTerminator(s[p])
    ensures p < e <= |s|
  {
    var q := NonTerminatorRunEnd(s, p);
    if q == |s| then q
    else
      var r := TerminatorRunEnd(s, q);
      if r < |s| && IsClosingQuote(s[r]) then r + 1 else r
  }

  /** Pairwise ordering of ranges: each ends before the next one starts. */
  ghost predicate Ordered(ms: seq<RawMatch>) {
    forall i, j :: 0 <= i < j < |ms| ==> ms[i].end <= ms[j].start
  }

  /** `text.match(regex)` from position `p`, as positions. A terminator where
      a match would have to start is skipped. Every match lies inside the
      text, starts with a non-terminator, and the matches are ordered. */
  function MatchesFrom(s: string, p: nat): (ms: seq<RawMatch>)
    requires p <= |s|
    ensures forall k :: 0 <= k < |ms| ==> p <= ms[k].start < ms[k].end <= |s|
    ensures forall k :: 0 <= k < |ms| ==> !IsTerminator(s[ms[k].start])
    ensures Ordered(ms)
    decreases |s| - p
  {
    if p == |s| then []
    else if IsTerminator(s[p]) then MatchesFrom(s, p + 1)
    else
      var e := MatchEnd(s, p);
      var rest := MatchesFrom(s, e);
      [RawMatch(p, e)] + rest
  }

  /** The matched strings themselves. */
  function MatchTexts(s: string, ms: seq<RawMatch>): (texts: seq<string>)
    requires forall k :: 0 <= k < |ms| ==> ms[k].start <= ms[k].end <= |s|
    ensures |texts| == |ms|
    ensures forall k :: 0 <= k < |ms| ==> texts[k] == s[ms[k].start..ms[k].end]
  {
    seq(|ms|, k requires 0 <= k < |ms| => s[ms[k].start..ms[k].end])
  }

  /** The total length of a list of strings. */
  function SumLen(ts: seq<string>): nat {
    if ts == [] then 0 else SumLen(ts[..|ts| - 1]) + |ts[|ts| - 1]|
  }

  lemma {:induction false} SumLenCons(t: string, ts: seq<string>)
    ensures SumLen([t] + ts) == |t| + SumLen(ts)
    decreases |ts|
  {
    if ts != [] {
      assert ([t] + ts)[..|[t] + ts| - 1] == [t] + ts[..|ts| - 1];
      SumLenCons(t, ts[..|ts| - 1]);
    } else {
      assert ([t] + ts)[..0] == [];
    }
  }

  lemma {:induction false} SumLenMono(ts: seq<string>, a: nat, b: nat)
    requires a <= b <= |ts|
    ensures SumLen(ts[..a]) <= SumLen(ts[..b])
    decreases b - a
  {
    if a < b {
      SumLenMono(ts, a, b - 1);
      assert ts[..b][..b - 1] == ts[..b - 1];
    }
  }

  ghost predicate OrderedSpans(sp: seq<Span>) {
    forall i, j :: 0 <= i < j < |sp| ==> sp[i].end <= sp[j].start
  }

  /** The component's `map`: a span per match, whose start is the running
      counter and whose end adds the raw match length. */
  function RunningOffsets(ts: seq<string>, counter: int): (r: seq<Span>)
    ensures |r| == |ts|
    decreases |ts|
  {
    if ts == [] then []
    else [Span(Trim(ts[0]), counter, counter + |ts[0]|)] + RunningOffsets(ts[1..], counter + |ts[0]|)
  }

  /** The span the component builds for the `k`-th match: its text is the
      trimmed match, it starts at the total length of the matches before it
      and it is as long as the raw match. */
  lemma {:induction false} RunningOffsetsAt(ts: seq<string>, counter: int, k: nat)
    requires k < |ts|
    ensures RunningOffsets(ts, counter)[k]
         == Span(Trim(ts[k]), counter + SumLen(ts[..k]), counter + SumLen(ts[..k]) + |ts[k]|)
    decreases k
  {
    if k == 0 {
      assert ts[..0] == [];
    } else {
      RunningOffsetsAt(ts[1..], counter + |ts[0]|, k - 1);
      assert ts[..k] == [ts[0]] + ts[1..][..k - 1];
      SumLenCons(ts[0], ts[1..][..k - 1]);
    }
  }

  /** The running-counter spans are ordered and do not overlap. */
  lemma RunningOffsetsOrdered(ts: seq<string>, counter: int)
    ensures OrderedSpans(RunningOffsets(ts, counter))
  {
    var r := RunningOffsets(ts, counter);
    forall i, j | 0 <= i < j < |r| ensures r[i].end <= r[j].start {
      RunningOffsetsPair(ts, counter, i, j);
    }
  }

  lemma RunningOffsetsPair(ts: seq<string>, counter: int, i: nat, j: nat)
    requires i < j < |ts|
    ensures RunningOffsets(ts, counter)[i].end <= RunningOffsets(ts, counter)[j].start
  {
    RunningOffsetsAt(ts, counter, i);
    RunningOffsetsAt(ts, counter, j);
    SumLenMono(ts, i + 1, j);
    SumLenSnoc(ts, i);
  }

  /** The span of each match placed at the match's own position. */
  function SpansAt(s: string, ms: seq<RawMatch>): (r: seq<Span>)
    requires forall k :: 0 <= k < |ms| ==> ms[k].start <= ms[k].end <= |s|
    ensures |r| == |ms|
    ensures forall k :: 0 <= k < |ms| ==>
              r[k] == Span(Trim(s[ms[k].start..ms[k].end]), ms[k].start, ms[k].end)
  {
    seq(|ms|, k requires 0 <= k < |ms| => Span(Trim(s[ms[k].start..ms[k].end]), ms[k].start, ms[k].end))
  }

  /** `.filter(s => s.text.length > 0)` */
  function KeepNonEmpty(sp: seq<Span>): (r: seq<Span>)
    ensures |r| <= |sp|
  {
    if sp == [] then []
    else if sp[0].text != [] then [sp[0]] + KeepNonEmpty(sp[1..])
    else KeepNonEmpty(sp[1..])
  }

  /** The filter keeps exactly the spans with non-empty text. */
  lemma {:induction false} KeepNonEmptyMembers(sp: seq<Span>)
    ensures forall x :: x in KeepNonEmpty(sp) <==> x in sp && x.text != []
    decreases |sp|
  {
    if sp != [] {
      KeepNonEmptyMembers(sp[1..]);
      assert sp == [sp[0]] + sp[1..];
    }
  }

  /** Filtering keeps the order of what it keeps. */
  lemma {:induction false} KeepNonEmptyOrdered(sp: seq<Span>)
    requires OrderedSpans(sp)
    ensures OrderedSpans(KeepNonEmpty(sp))
    decreases |sp|
  {
    if sp != [] {
      assert OrderedSpans(sp[1..]);
      KeepNonEmptyOrdered(sp[1..]);
      if sp[0].text != [] {
        HeadBeforeKept(sp);
        ConsOrdered(sp[0], KeepNonEmpty(sp[1..]));
      }
    }
  }

  /** In an ordered list, the first span ends before every span the filter
      keeps from the rest. */
  lemma HeadBeforeKept(sp: seq<Span>)
    requires sp != [] && OrderedSpans(sp)
    ensures forall x :: x in KeepNonEmpty(sp[1..]) ==> sp[0].end <= x.start
  {
    KeepNonEmptyMembers(sp[1..]);
    forall x | x in KeepNonEmpty(sp[1..]) ensures sp[0].end <= x.start {
      var j :| 0 <= j < |sp[1..]| && sp[1..][j] == x;
      assert sp[j + 1] == x;
    }
  }

  /** A span that ends before every span of an ordered list can go first. */
  lemma ConsOrdered(h: Span, rest: seq<Span>)
    requires OrderedSpans(rest)
    requires forall x :: x in rest ==> h.end <= x.start
    ensures OrderedSpans([h] + rest)
  {
    var r := [h] + rest;
    forall i, j | 0 <= i < j < |r| ensures r[i].end <= r[j].start {
      if i > 0 {
        assert r[i] == rest[i - 1] && r[j] == rest[j - 1];
      } else {
        assert r[j] == rest[j - 1];
        assert r[j] in rest;
      }
    }
  }

  /** `getSentences` as the component writes it. */
  function SentencesAsWritten(text: string): seq<Span> {
    if text == [] then []
    else
      var ms := MatchesFrom(text, 0);
      KeepNonEmpty(RunningOffsets(MatchTexts(text, ms), 0))
  }

  /** `getSentences` with every span at the position of its match. */
  function Sentences(text: string): seq<Span> {
    if text == [] then []
    else KeepNonEmpty(SpansAt(text, MatchesFrom(text, 0)))
  }

  /** The component's segmenter: nothing for the empty text; every span has
      non-empty text, is one of the running-counter spans (whose offsets
      `RunningOffsetsAt` gives), and the spans are ordered and do not
      overlap. */
  lemma {:induction false} SentencesAsWrittenShape(text: string)
    ensures text == [] ==> SentencesAsWritten(text) == []
    ensures forall x :: x in SentencesAsWritten(text) ==> x.text != []
    ensures text != [] ==>
              forall x :: x in SentencesAsWritten(text) ==>
                x in RunningOffsets(MatchTexts(text, MatchesFrom(text, 0)), 0)
    ensures OrderedSpans(SentencesAsWritten(text))
  {
    if text != [] {
      var ms := MatchesFrom(text, 0);
      var ts := MatchTexts(text, ms);
      RunningOffsetsOrdered(ts, 0);
      KeepNonEmptyOrdered(RunningOffsets(ts, 0));
      KeepNonEmptyMembers(RunningOffsets(ts, 0));
    }
  }

  /** The intended segmenter: every span lies inside the text, its text is
      the trimmed slice of the message at its own offsets and is not empty,
      and the spans are ordered and do not overlap. */
  lemma {:induction false} SentencesShape(text: string)
    ensures text == [] ==> Sentences(text) == []
    ensures forall x :: x in Sentences(text) ==>
              0 <= x.start < x.end <= |text| && x.text == Trim(text[x.start..x.end]) && x.text != []
    ensures OrderedSpans(Sentences(text))
  {
    if text != [] {
      var ms := MatchesFrom(text, 0);
      var all := SpansAt(text, ms);
      assert OrderedSpans(all) by {
        forall i, j | 0 <= i < j < |all| ensures all[i].end <= all[j].start {
          assert all[i].end == ms[i].end && all[j].start == ms[j].start;
        }
      }
      KeepNonEmptyOrdered(all);
      KeepNonEmptyMembers(all);
    }
  }

  /** The matches tile the text from its first character: no character is
      skipped by the expression. */
  ghost predicate Gapless(text: string) {
    var ms := MatchesFrom(text, 0);
    forall k :: 0 <= k < |ms| ==> ms[k].start == (if k == 0 then 0 else ms[k - 1].end)
  }

  /** When the expression skips no character, the running counter is the
      true position, so the component's offsets are the intended ones. */
  lemma {:induction false} AsWrittenAgreesWhenGapless(text: string)
    requires Gapless(text)
    ensures SentencesAsWritten(text) == Sentences(text)
  {
    if text != [] {
      var ms := MatchesFrom(text, 0);
      var ts := MatchTexts(text, ms);
      var a := RunningOffsets(ts, 0);
      var b := SpansAt(text, ms);
      forall k | 0 <= k < |ms| ensures a[k] == b[k] {
        GaplessStart(text, ms, ts, k);
        AgreeAt(text, ms, ts, k);
      }
      assert a == b;
    }
  }

  /** When the matches before the `k`-th add up to its position, the
      `k`-th running-counter span is the `k`-th span at its match's
      position. */
  lemma AgreeAt(text: string, ms: seq<RawMatch>, ts: seq<string>, k: nat)
    requires forall k :: 0 <= k < |ms| ==> ms[k].start <= ms[k].end <= |text|
    requires ts == MatchTexts(text, ms)
    requires k < |ms| && SumLen(ts[..k]) == ms[k].start
    ensures RunningOffsets(ts, 0)[k] == SpansAt(text, ms)[k]
  {
    RunningOffsetsAt(ts, 0, k);
  }

  lemma {:induction false} GaplessStart(text: string, ms: seq<RawMatch>, ts: seq<string>, k: nat)
    requires ms == MatchesFrom(text, 0) && Gapless(text)
    requires ts == MatchTexts(text, ms)
    requires k < |ms|
    ensures SumLen(ts[..k]) == ms[k].start
    decreases k
  {
    if k == 0 {
      assert ts[..0] == [];
    } else {
      GaplessStart(text, ms, ts, k - 1);
      SumLenSnoc(ts, k - 1);
      assert |ts[k - 1]| == ms[k - 1].end - ms[k - 1].start;
    }
  }

  /** The total length grows by one string at a time. */
  lemma SumLenSnoc(ts: seq<string>, k: nat)
    requires k < |ts|
    ensures SumLen(ts[..k + 1]) == SumLen(ts[..k]) + |ts[k]|
  {
    assert ts[..k + 1][..k] == ts[..k];
  }

  /** A run of terminators is skipped before the search for a match. */
  lemma {:induction false} SkipTerminators(s: string, p: nat, q: nat)
    requires p <= q <= |s|
    requires forall i :: p <= i < q ==> IsTerminator(s[i])
    ensures MatchesFrom(s, p) == MatchesFrom(s, q)
    decreases q - p
  {
    if p < q {
      SkipTerminators(s, p + 1, q);
    }
  }

  /** The matches of a run of terminators followed by text without
      terminators: one match, covering the text after the run. */
  lemma {:induction false} MatchesAfterTerminators(t: string, u: string)
    requires forall i :: 0 <= i < |t| ==> IsTerminator(t[i])
    requires |u| > 0 && forall i :: 0 <= i < |u| ==> !IsTerminator(u[i])
    ensures MatchesFrom(t + u, 0) == [RawMatch(|t|, |t| + |u|)]
  {
    var s := t + u;
    SkipTerminators(s, 0, |t|);
    assert !IsTerminator(s[|t|]);
    var e := NonTerminatorRunEnd(s, |t|);
    assert MatchesFrom(s, |s|) == [];
  }

  /** A range that starts with a terminator does not trim to a text that
      starts with something else. */
  lemma {:induction false} TerminatorFirstTrim(w: string, u: string)
    requires |w| > 0 && IsTerminator(w[0])
    requires |u| > 0 && !IsTerminator(u[0])
    ensures Trim(w) != u
  {
    assert TrimStart(w) == w;
  }

  /** A text made of a run of terminators followed by a sentence without
      terminators: the component puts the sentence at offset 0, although it
      starts after the terminators, so the range it reports covers the
      leading punctuation instead; the intended offsets are those of the
      sentence itself. */
  lemma {:induction false} LeadingTerminatorsShiftOffsets(t: string, u: string)
    requires |t| > 0 && forall i :: 0 <= i < |t| ==> IsTerminator(t[i])
    requires |u| > 0 && forall i :: 0 <= i < |u| ==> !IsTerminator(u[i])
    requires !IsSpace(u[0]) && !IsSpace(u[|u| - 1])
    ensures SentencesAsWritten(t + u) == [Span(u, 0, |u|)]
    ensures Sentences(t + u) == [Span(u, |t|, |t| + |u|)]
    ensures Trim((t + u)[0..|u|]) != u
  {
    var s := t + u;
    MatchesAfterTerminators(t, u);
    assert s[|t|..|s|] == u;
    TrimOfTrimmed(u);
    var ts := MatchTexts(s, [RawMatch(|t|, |s|)]);
    assert ts == [u];
    assert RunningOffsets(ts, 0) == [Span(u, 0, |u|)];
    assert [Span(u, 0, |u|)][1..] == [];
    assert KeepNonEmpty([Span(u, 0, |u|)]) == [Span(u, 0, |u|)] + KeepNonEmpty([]);
    assert SentencesAsWritten(s) == KeepNonEmpty(RunningOffsets(ts, 0));
    assert KeepNonEmpty([]) == [];
    assert SentencesAsWritten(s) == [Span(u, 0, |u|)];
    var at := Span(u, |t|, |s|);
    assert SpansAt(s, [RawMatch(|t|, |s|)]) == [at];
    assert [at][1..] == [];
    assert KeepNonEmpty([at]) == [at] + KeepNonEmpty([]);
    TerminatorFirstTrim(s[0..|u|], u);
  }

  /** The first span that contains `charIndex`, as `findIndex` finds it. */
  function FindSentence(spans: seq<Span>, charIndex: int): (r: Option<nat>)
    ensures r.Some? ==> r.value < |spans|
                        && spans[r.value].start <= charIndex < spans[r.value].end
                        && forall j :: 0 <= j < r.value ==> !(spans[j].start <= charIndex < spans[j].end)
    ensures r.None? ==> forall j :: 0 <= j < |spans| ==> !(spans[j].start <= charIndex < spans[j].end)
  {
    if spans == [] then None
    else if spans[0].start <= charIndex < spans[0].end then Some(0)
    else match FindSentence(spans[1..], charIndex)
      case None => None
      case Some(j) => Some(j + 1)
  }

  /** Every visible character that is not sentence punctuation lies in a
      span of the intended segmentation, so clicking it finds a sentence. */
  lemma {:induction false} EveryWordCharInSentence(text: string, i: nat)
    requires i < |text| && !IsSpace(text[i]) && !IsTerminator(text[i])
    ensures FindSentence(Sentences(text), i).Some?
  {
    var ms := MatchesFrom(text, 0);
    var all := SpansAt(text, ms);
    var k := CoveringMatch(text, 0, i);
    var x := all[k];
    assert x.start <= i < x.end;
    var w := text[x.start..x.end];
    assert w[i - x.start] == text[i];
    TrimEmptyIffBlank(w);
    KeepNonEmptyMembers(all);
    assert x in all;
    FindsContainingSpan(Sentences(text), x, i);
  }

  /** A click inside any listed span finds a sentence. */
  lemma FindsContainingSpan(spans: seq<Span>, x: Span, charIndex: int)
    requires x in spans && x.start <= charIndex < x.end
    ensures FindSentence(spans, charIndex).Some?
  {
    var j :| 0 <= j < |spans| && spans[j] == x;
  }

  /** The expression skips only terminators: every other character lies
      inside some match. */
  lemma {:induction false} CoveringMatch(s: string, p: nat, i: nat) returns (k: nat)
    requires p <= i < |s| && !IsTerminator(s[i])
    ensures k < |MatchesFrom(s, p)|
    ensures MatchesFrom(s, p)[k].start <= i < MatchesFrom(s, p)[k].end
    decreases |s| - p
  {
    if IsTerminator(s[p]) {
      k := CoveringMatch(s, p + 1, i);
    } else {
      var e := MatchEnd(s, p);
      if i < e {
        k := 0;
      } else {
        var k' := CoveringMatch(s, e, i);
        k := k' + 1;
      }
    }
  }
}
