/** The word lookup and the per-character highlight of the narration view:
    `getWordAt` finds the whitespace-free run around a character and strips
    punctuation from its edges; each character is highlighted when it lies
    in the current sentence range, and the cursor marker sits before one
    character. */
module SpeechHighlighting {
  import opened TextUtil
  import Segmenter

  /** The characters `getWordAt` strips from the edges of a word. */
  predicate IsEdgePunct(c: char) {
    c == '.' || c == ',' || c == '!' || c == '?' || c == ';' || c == ':' || c == '"' || c == '\''
    || c == '(' || c == ')' || c == '[' || c == ']' || c == '{' || c == '}'
  }

  /** Greedy leading run from `i`: where the edge punctuation ends. */
  function LeadEnd(w: string, i: nat): (k: nat)
    requires i <= |w|
    ensures i <= k <= |w|
    ensures forall m :: i <= m < k ==> IsEdgePunct(w[m])
    ensures k == |w| || !IsEdgePunct(w[k])
    decreases |w| - i
  {
    if i == |w| || !IsEdgePunct(w[i]) then i else LeadEnd(w, i + 1)
  }

  /** Greedy trailing run ending at `j`, not reaching below `lo`: where the
      edge punctuation starts. */
  function TrailStart(w: string, lo: nat, j: nat): (k: nat)
    requires lo <= j <= |w|
    ensures lo <= k <= j
    ensures forall m :: k <= m < j ==> IsEdgePunct(w[m])
    ensures k == lo || !IsEdgePunct(w[k - 1])
    decreases j - lo
  {
    if j == lo || !IsEdgePunct(w[j - 1]) then j else TrailStart(w, lo, j - 1)
  }

  /** `word.replace(/^[.,!?;:"'()[\]{}]+|[.,!?;:"'()[\]{}]+$/g, '')`: the
      leading run goes first; the trailing run is searched for in what is
      left, so a word of punctuation only is consumed whole by the first
      alternative. */
  function StripEdges(w: string): string {
    var a := LeadEnd(w, 0);
    w[a..TrailStart(w, a, |w|)]
  }

  /** How many leading characters `StripEdges` cuts. */
  function StripLead(w: string): (a: nat)
    ensures a <= |w|
  {
    LeadEnd(w, 0)
  }

  /** Stripping keeps an inner slice of the word, whose edges are not
      punctuation, and cuts only punctuation on both sides; punctuation
      inside the word is kept. */
  lemma StripEdgesShape(w: string)
    ensures StripLead(w) + |StripEdges(w)| <= |w|
    ensures StripEdges(w) == w[StripLead(w)..StripLead(w) + |StripEdges(w)|]
    ensures forall i :: 0 <= i < StripLead(w) ==> IsEdgePunct(w[i])
    ensures forall i :: StripLead(w) + |StripEdges(w)| <= i < |w| ==> IsEdgePunct(w[i])
    ensures StripEdges(w) == [] || (!IsEdgePunct(StripEdges(w)[0]) && !IsEdgePunct(StripEdges(w)[|StripEdges(w)| - 1]))
  {
    StripIsSlice(w);
    StripEdgesClean(w);
  }

  /** The stripped word is the slice after the leading run. */
  lemma StripIsSlice(w: string)
    ensures StripLead(w) + |StripEdges(w)| <= |w|
    ensures StripEdges(w) == w[StripLead(w)..StripLead(w) + |StripEdges(w)|]
  {
  }

  /** The stripped word has no punctuation at its edges. */
  lemma StripEdgesClean(w: string)
    ensures StripEdges(w) == [] || (!IsEdgePunct(StripEdges(w)[0]) && !IsEdgePunct(StripEdges(w)[|StripEdges(w)| - 1]))
  {
    var a := LeadEnd(w, 0);
    var b := TrailStart(w, a, |w|);
    if a < b {
      assert StripEdges(w)[0] == w[a];
      assert StripEdges(w)[b - a - 1] == w[b - 1];
    }
  }

  /** A word with no punctuation at its edges is kept as it is. */
  lemma StripEdgesKeepsClean(w: string)
    requires w == [] || (!IsEdgePunct(w[0]) && !IsEdgePunct(w[|w| - 1]))
    ensures StripEdges(w) == w
  {
  }

  /** The first index of the whitespace-free run that ends at `pos`. */
  function RunStart(s: string, pos: nat): (a: nat)
    requires pos < |s|
    ensures a <= pos
  {
    if pos > 0 && !IsSpace(s[pos - 1]) then RunStart(s, pos - 1) else pos
  }

  /** The last index of the whitespace-free run that starts at `pos`. */
  function RunEnd(s: string, pos: nat): (b: nat)
    requires pos < |s|
    ensures pos <= b < |s|
    decreases |s| - pos
  {
    if pos < |s| - 1 && !IsSpace(s[pos + 1]) then RunEnd(s, pos + 1) else pos
  }

  /** The run around a non-space `pos` has no whitespace and is maximal:
      whitespace or the edge of the text lies on both sides of it. */
  lemma {:induction false} RunIsMaximal(s: string, pos: nat)
    requires pos < |s| && !IsSpace(s[pos])
    ensures RunStart(s, pos) == 0 || IsSpace(s[RunStart(s, pos) - 1])
    ensures RunEnd(s, pos) == |s| - 1 || IsSpace(s[RunEnd(s, pos) + 1])
    ensures forall k :: RunStart(s, pos) <= k <= RunEnd(s, pos) ==> !IsSpace(s[k])
  {
    RunStartFacts(s, pos);
    RunEndFacts(s, pos);
  }

  lemma {:induction false} RunStartFacts(s: string, pos: nat)
    requires pos < |s|
    ensures RunStart(s, pos) == 0 || IsSpace(s[RunStart(s, pos) - 1])
    ensures forall k :: RunStart(s, pos) <= k < pos ==> !IsSpace(s[k])
  {
    if pos > 0 && !IsSpace(s[pos - 1]) {
      RunStartFacts(s, pos - 1);
    }
  }

  lemma {:induction false} RunEndFacts(s: string, pos: nat)
    requires pos < |s|
    ensures RunEnd(s, pos) == |s| - 1 || IsSpace(s[RunEnd(s, pos) + 1])
    ensures forall k :: pos < k <= RunEnd(s, pos) ==> !IsSpace(s[k])
    decreases |s| - pos
  {
    if pos < |s| - 1 && !IsSpace(s[pos + 1]) {
      RunEndFacts(s, pos + 1);
    }
  }

  /** What `getWordAt(str, pos)` returns: nothing for a position outside the
      text or on whitespace; otherwise the maximal whitespace-free run around
      `pos` with its edge punctuation stripped, or nothing when no character
      is left. */
  function WordAt(s: string, pos: int): Option<string> {
    if pos < 0 || pos >= |s| || IsSpace(s[pos]) then None
    else
      var w := StripEdges(s[RunStart(s, pos)..RunEnd(s, pos) + 1]);
      if w == [] then None else Some(w)
  }

  /** `getWordAt` with its two scanning loops. */
  method GetWordAt(s: string, pos: int) returns (r: Option<string>)
    ensures r == WordAt(s, pos)
  {
    if pos < 0 || pos >= |s| || IsSpace(s[pos]) {
      return None;
    }
    var start := pos;
    while start > 0 && !IsSpace(s[start - 1])
      invariant 0 <= start <= pos
      invariant RunStart(s, start) == RunStart(s, pos)
      decreases start
    {
      start := start - 1;
    }
    var end := pos;
    while end < |s| - 1 && !IsSpace(s[end + 1])
      invariant pos <= end < |s|
      invariant RunEnd(s, end) == RunEnd(s, pos)
      decreases |s| - end
    {
      end := end + 1;
    }
    assert start == RunStart(s, pos) && end == RunEnd(s, pos);
    var word := s[start..end + 1];
    word := StripEdges(word);
    if word == [] {
      return None;
    }
    return Some(word);
  }

  /** A word found at `pos`: it is not empty, has no whitespace, has no
      punctuation at its edges, and is the slice of the text between `a` and
      `a + |w|`, which lies inside the whitespace-free run around `pos`. */
  lemma WordAtIsSubstring(s: string, pos: int) returns (a: nat)
    requires WordAt(s, pos).Some?
    ensures 0 <= pos < |s| && !IsSpace(s[pos])
    ensures var w := WordAt(s, pos).value;
            w != [] && NoSpace(w) && !IsEdgePunct(w[0]) && !IsEdgePunct(w[|w| - 1])
            && RunStart(s, pos) <= a && a + |w| <= RunEnd(s, pos) + 1 && s[a..a + |w|] == w
  {
    var lo, hi := RunStart(s, pos), RunEnd(s, pos) + 1;
    assert WordAt(s, pos) == Some(StripEdges(s[lo..hi]));
    RunHasNoSpace(s, pos);
    a := StrippedRun(s, lo, hi);
  }

  lemma RunHasNoSpace(s: string, pos: nat)
    requires pos < |s| && !IsSpace(s[pos])
    ensures forall k :: RunStart(s, pos) <= k < RunEnd(s, pos) + 1 ==> !IsSpace(s[k])
  {
    RunIsMaximal(s, pos);
  }

  /** The stripped form of a whitespace-free stretch `s[lo..hi]`, when not
      empty, is a slice of the text with no whitespace and no punctuation at
      its edges. */
  lemma StrippedRun(s: string, lo: nat, hi: nat) returns (a: nat)
    requires lo <= hi <= |s| && forall k :: lo <= k < hi ==> !IsSpace(s[k])
    ensures var w := StripEdges(s[lo..hi]);
            w != [] ==>
              NoSpace(w) && !IsEdgePunct(w[0]) && !IsEdgePunct(w[|w| - 1])
              && lo <= a && a + |w| <= hi && s[a..a + |w|] == w
  {
    var run := s[lo..hi];
    StripIsSlice(run);
    StripEdgesClean(run);
    var l := StripLead(run);
    var w := StripEdges(run);
    SliceOfSlice(s, lo, hi, l, l + |w|);
    a := lo + l;
    NoSpaceInRun(s, lo, hi, a, a + |w|);
  }

  /** A slice of a whitespace-free stretch has no whitespace. */
  lemma NoSpaceInRun(s: string, lo: nat, hi: nat, a: nat, b: nat)
    requires lo <= a <= b <= hi <= |s|
    requires forall k :: lo <= k < hi ==> !IsSpace(s[k])
    ensures NoSpace(s[a..b])
  {
    forall i | 0 <= i < b - a ensures !IsSpace(s[a..b][i]) {
      assert s[a..b][i] == s[a + i];
    }
  }

  /** No word is found outside the text or on whitespace, and a word that is
      punctuation only yields nothing. */
  lemma WordAtNone(s: string, pos: int)
    ensures pos < 0 || pos >= |s| ==> WordAt(s, pos).None?
    ensures 0 <= pos < |s| && IsSpace(s[pos]) ==> WordAt(s, pos).None?
    ensures 0 <= pos < |s| && !IsSpace(s[pos])
            && (forall k :: RunStart(s, pos) <= k <= RunEnd(s, pos) ==> IsEdgePunct(s[k]))
            ==> WordAt(s, pos).None?
  {
    if 0 <= pos < |s| && !IsSpace(s[pos]) {
      var run := s[RunStart(s, pos)..RunEnd(s, pos) + 1];
      if forall k :: RunStart(s, pos) <= k <= RunEnd(s, pos) ==> IsEdgePunct(s[k]) {
        StripEdgesShape(run);
      }
    }
  }

  /** Positions of one whitespace-free run share the start of the run. */
  lemma {:induction false} RunStartSame(s: string, p: nat, q: nat)
    requires p <= q < |s|
    requires forall k :: p <= k <= q ==> !IsSpace(s[k])
    ensures RunStart(s, p) == RunStart(s, q)
    decreases q - p
  {
    if p < q {
      RunStartSame(s, p + 1, q);
    }
  }

  /** Positions of one whitespace-free run share the end of the run. */
  lemma {:induction false} RunEndSame(s: string, p: nat, q: nat)
    requires p <= q < |s|
    requires forall k :: p <= k <= q ==> !IsSpace(s[k])
    ensures RunEnd(s, p) == RunEnd(s, q)
    decreases q - p
  {
    if p < q {
      RunEndSame(s, p + 1, q);
    }
  }

  /** Every position of the same whitespace-free run yields the same word. */
  lemma SameRunSameWord(s: string, p: nat, q: nat)
    requires p <= q < |s|
    requires forall k :: p <= k <= q ==> !IsSpace(s[k])
    ensures WordAt(s, p) == WordAt(s, q)
  {
    RunStartSame(s, p, q);
    RunEndSame(s, p, q);
  }

  /** `isHighlighted` for character `i`. */
  predicate IsHighlighted(range: Option<Segmenter.Span>, i: int) {
    range.Some? && i >= range.value.start && i < range.value.end
  }

  /** `showCursor` for character `i`. */
  predicate ShowCursor(cursorPosition: Option<int>, i: int) {
    cursorPosition == Some(i)
  }

  /** The cursor marker is drawn before at most one character. */
  lemma CursorAtOnePlace(cursorPosition: Option<int>, i: int, j: int)
    requires ShowCursor(cursorPosition, i) && ShowCursor(cursorPosition, j)
    ensures i == j
  {
  }

  /** Highlighting sentence `k` of a segmentation marks exactly the
      characters that sentence covers and none that any other sentence
      covers. */
  lemma HighlightOneSentence(text: string, k: nat, i: int)
    requires k < |Segmenter.Sentences(text)|
    ensures var sp := Segmenter.Sentences(text);
            IsHighlighted(Some(sp[k]), i)
            ==> 0 <= i < |text| && forall j :: 0 <= j < |sp| && j != k ==> !IsHighlighted(Some(sp[j]), i)
  {
    var sp := Segmenter.Sentences(text);
    Segmenter.SentencesShape(text);
    assert sp[k] in sp;
    if IsHighlighted(Some(sp[k]), i) {
      forall j | 0 <= j < |sp| && j != k ensures !IsHighlighted(Some(sp[j]), i) {
        assert sp[j] in sp;
        if j < k {
          assert sp[j].end <= sp[k].start;
        } else {
          assert sp[k].end <= sp[j].start;
        }
      }
    }
  }
}
