/** The vocabulary deck and its flashcard review: words are normalised and
    added once each, new entries go to the front, removal is by id, and the
    review keeps a card cursor that is clamped to the deck and wraps around.

    The translation backend is a parameter (the string it returned) and the
    fresh id of a new entry is a parameter too; an add runs to completion
    before anything else happens. */
module Vocabulary {
  import opened TextUtil

  datatype VocabWord = VocabWord(id: string, word: string, translation: string)

  /** The characters the normaliser drops from the end of a word (one). */
  predicate IsTrailingMark(c: char) {
    c == '.' || c == ',' || c == '!' || c == '?' || c == ';' || c == ':' || c == '"' || c == '\''
  }

  /** `word.toLowerCase().trim().replace(/[.,!?;:"']$/, '')` */
  function Normalize(raw: string): string {
    var t := Trim(ToLower(raw));
    if |t| > 0 && IsTrailingMark(t[|t| - 1]) then t[..|t| - 1] else t
  }

  /** Normalising lower-cases, trims and drops at most one trailing mark:
      the result is the trimmed lower-case text, or that text without its
      last character when that character is a mark. */
  lemma NormalizeShape(raw: string)
    ensures var t := Trim(ToLower(raw));
            Normalize(raw) == t || (|t| > 0 && IsTrailingMark(t[|t| - 1]) && Normalize(raw) == t[..|t| - 1])
    ensures NoUpper(Normalize(raw))
  {
    var l := ToLower(raw);
    var t := Trim(l);
    TrimmedLowerNoUpper(raw);
    if |t| > 0 && IsTrailingMark(t[|t| - 1]) {
      NoUpperSlice(t, 0, |t| - 1);
      assert t[0..|t| - 1] == t[..|t| - 1];
    }
  }

  /** The trimmed lower-case text has no upper case. */
  lemma TrimmedLowerNoUpper(raw: string)
    ensures NoUpper(Trim(ToLower(raw)))
  {
    var l := ToLower(raw);
    TrimIsSlice(l);
    LowerNoUpper(raw);
    NoUpperSlice(l, TrimLead(l), TrimLead(l) + |Trim(l)|);
  }

  /** No ASCII upper-case letter occurs in `s`. */
  predicate NoUpper(s: string) {
    forall i :: 0 <= i < |s| ==> !('A' <= s[i] <= 'Z')
  }

  /** A lower-cased text has no upper case. */
  lemma LowerNoUpper(s: string)
    ensures NoUpper(ToLower(s))
  {
    forall i | 0 <= i < |s| ensures !('A' <= ToLower(s)[i] <= 'Z') {
      assert ToLower(s)[i] == LowerChar(s[i]);
    }
  }

  /** A slice of a text without upper case has none either. */
  lemma NoUpperSlice(s: string, a: nat, b: nat)
    requires a <= b <= |s| && NoUpper(s)
    ensures NoUpper(s[a..b])
  {
    forall i | 0 <= i < b - a ensures !('A' <= s[a..b][i] <= 'Z') {
      assert s[a..b][i] == s[a + i];
    }
  }

  /** Lower-casing twice is lower-casing once. */
  lemma LowerTwice(s: string)
    ensures ToLower(ToLower(s)) == ToLower(s)
  {
    var l := ToLower(s);
    forall i | 0 <= i < |l| ensures ToLower(l)[i] == l[i] {
      assert l[i] == LowerChar(s[i]);
    }
  }

  /** Letter case does not matter: a word and its lower-case form normalise
      alike. */
  lemma NormalizeIgnoresCase(raw: string)
    ensures Normalize(ToLower(raw)) == Normalize(raw)
  {
    LowerTwice(raw);
  }

  /** A clean lower-case word, with or without one trailing mark, normalises
      to itself: "cave" and "cave." are the same entry. */
  lemma NormalizeDropsOneMark(w: string, m: char)
    requires w != [] && !IsSpace(w[0]) && !IsSpace(w[|w| - 1]) && !IsTrailingMark(w[|w| - 1])
    requires ToLower(w) == w
    requires IsTrailingMark(m)
    ensures Normalize(w) == w
    ensures Normalize(w + [m]) == w
  {
    TrimOfTrimmed(w);
    var wm := w + [m];
    assert ToLower(wm) == wm;
    TrimOfTrimmed(wm);
    assert wm[..|wm| - 1] == w;
  }

  /** Only one mark goes: a word ending in two marks keeps the first. */
  lemma NormalizeKeepsSecondMark(w: string, m1: char, m2: char)
    requires w != [] && !IsSpace(w[0]) && ToLower(w) == w
    requires IsTrailingMark(m1) && IsTrailingMark(m2)
    ensures Normalize(w + [m1, m2]) == w + [m1]
  {
    var u := w + [m1];
    AppendTwo(w, m1, m2);
    assert u[0] == w[0];
    LowerAppend(w, m1);
    NormalizeMarked(u, m2);
  }

  lemma AppendTwo(w: string, c1: char, c2: char)
    ensures w + [c1, c2] == (w + [c1]) + [c2]
  {
  }

  /** A lower-case text that starts with a non-space loses an appended
      mark again. */
  lemma NormalizeMarked(u: string, m: char)
    requires u != [] && !IsSpace(u[0]) && ToLower(u) == u && IsTrailingMark(m)
    ensures Normalize(u + [m]) == u
  {
    var v := u + [m];
    assert ToLower(v) == v;
    TrimOfTrimmed(v);
    assert Trim(ToLower(v)) == v;
    assert |v| > 0 && IsTrailingMark(v[|v| - 1]);
    assert Normalize(v) == v[..|v| - 1];
    assert v[..|v| - 1] == u;
  }

  /** Appending a character that has no upper case keeps a lower-case text
      lower-case. */
  lemma LowerAppend(w: string, c: char)
    requires ToLower(w) == w && !('A' <= c <= 'Z')
    ensures ToLower(w + [c]) == w + [c]
  {
    var v := w + [c];
    forall i | 0 <= i < |v| ensures ToLower(v)[i] == v[i] {
      if i < |w| {
        assert ToLower(w)[i] == w[i];
      }
    }
  }

  /** `vocabWords.some(v => v.word === w)` */
  predicate HasWord(deck: seq<VocabWord>, w: string) {
    exists i :: 0 <= i < |deck| && deck[i].word == w
  }

  /** No normalised word appears twice in the deck. */
  ghost predicate UniqueWords(deck: seq<VocabWord>) {
    forall i, j :: 0 <= i < j < |deck| ==> deck[i].word != deck[j].word
  }

  /** Whether a translation is worth keeping: not empty and not the word
      itself up to letter case. */
  predicate Meaningful(w: string, translation: string) {
    translation != [] && ToLower(translation) != ToLower(w)
  }

  /** The early return of an add: nothing to add, or the word is known. */
  predicate Skips(deck: seq<VocabWord>, w: string) {
    w == [] || HasWord(deck, w)
  }

  /** The deck after adding `raw` with the given translation and fresh id. */
  function AddWord(deck: seq<VocabWord>, raw: string, translation: string, freshId: string): seq<VocabWord> {
    var w := Normalize(raw);
    if Skips(deck, w) then deck
    else if Meaningful(w, translation) then [VocabWord(freshId, w, translation)] + deck
    else deck
  }

  /** Adding either leaves the deck as it was or puts one new entry, holding
      the normalised word, in front of the unchanged old entries; it does so
      exactly when the word is new, not empty and the translation is
      meaningful. */
  lemma AddWordShape(deck: seq<VocabWord>, raw: string, translation: string, freshId: string)
    ensures var w := Normalize(raw);
            var added := w != [] && !HasWord(deck, w) && Meaningful(w, translation);
            (added ==> AddWord(deck, raw, translation, freshId) == [VocabWord(freshId, w, translation)] + deck)
            && (!added ==> AddWord(deck, raw, translation, freshId) == deck)
  {
  }

  /** After an add, the normalised word is in the deck exactly when it was
      there before or the add created it. */
  lemma AddWordThenPresent(deck: seq<VocabWord>, raw: string, translation: string, freshId: string)
    ensures var w := Normalize(raw);
            (HasWord(AddWord(deck, raw, translation, freshId), w)
             <==> HasWord(deck, w) || (w != [] && Meaningful(w, translation)))
  {
    var w := Normalize(raw);
    var d := AddWord(deck, raw, translation, freshId);
    if w != [] && !HasWord(deck, w) && Meaningful(w, translation) {
      assert d[0].word == w;
    }
    if HasWord(deck, w) {
      assert d == deck;
    }
  }

  /** An add never makes a word appear twice. */
  lemma AddWordKeepsUnique(deck: seq<VocabWord>, raw: string, translation: string, freshId: string)
    requires UniqueWords(deck)
    ensures UniqueWords(AddWord(deck, raw, translation, freshId))
  {
    var w := Normalize(raw);
    if !Skips(deck, w) && Meaningful(w, translation) {
      PrependKeepsUnique(deck, VocabWord(freshId, w, translation));
    }
  }

  /** Putting an entry with a new word in front keeps the words unique. */
  lemma PrependKeepsUnique(deck: seq<VocabWord>, v: VocabWord)
    requires UniqueWords(deck) && !HasWord(deck, v.word)
    ensures UniqueWords([v] + deck)
  {
    var d := [v] + deck;
    forall i, j | 0 <= i < j < |d| ensures d[i].word != d[j].word {
      assert d[j] == deck[j - 1];
      if i > 0 {
        assert d[i] == deck[i - 1];
      }
    }
  }

  /** Adding the same word again (with any id) changes nothing. */
  lemma AddWordTwice(deck: seq<VocabWord>, raw: string, translation: string, id1: string, id2: string)
    ensures var d := AddWord(deck, raw, translation, id1);
            AddWord(d, raw, translation, id2) == d
  {
    var w := Normalize(raw);
    var d := AddWord(deck, raw, translation, id1);
    if w != [] && !HasWord(deck, w) && Meaningful(w, translation) {
      assert d[0].word == w;
    }
  }

  /** `prev.filter(word => word.id !== id)` */
  function RemoveId(deck: seq<VocabWord>, id: string): (r: seq<VocabWord>)
    ensures |r| <= |deck|
  {
    if deck == [] then []
    else if deck[0].id != id then [deck[0]] + RemoveId(deck[1..], id)
    else RemoveId(deck[1..], id)
  }

  /** Removal keeps exactly the entries with another id. */
  lemma {:induction false} RemoveIdMembers(deck: seq<VocabWord>, id: string)
    ensures forall x :: x in RemoveId(deck, id) <==> x in deck && x.id != id
    decreases |deck|
  {
    if deck != [] {
      RemoveIdMembers(deck[1..], id);
      assert deck == [deck[0]] + deck[1..];
    }
  }

  /** Removal works piecewise, so the entries it keeps stay in their order. */
  lemma {:induction false} RemoveIdSplits(a: seq<VocabWord>, b: seq<VocabWord>, id: string)
    ensures RemoveId(a + b, id) == RemoveId(a, id) + RemoveId(b, id)
    decreases |a|
  {
    if a == [] {
      assert a + b == b;
    } else {
      RemoveIdSplits(a[1..], b, id);
      assert (a + b)[0] == a[0];
      assert (a + b)[1..] == a[1..] + b;
    }
  }

  /** An id no entry has leaves the deck unchanged. */
  lemma {:induction false} RemoveUnknownId(deck: seq<VocabWord>, id: string)
    requires forall i :: 0 <= i < |deck| ==> deck[i].id != id
    ensures RemoveId(deck, id) == deck
    decreases |deck|
  {
    if deck != [] {
      RemoveUnknownId(deck[1..], id);
    }
  }

  /** Removal keeps the words unique. */
  lemma {:induction false} RemoveIdKeepsUnique(deck: seq<VocabWord>, id: string)
    requires UniqueWords(deck)
    ensures UniqueWords(RemoveId(deck, id))
    decreases |deck|
  {
    if deck != [] {
      RemoveIdKeepsUnique(deck[1..], id);
      var rest := RemoveId(deck[1..], id);
      if deck[0].id != id {
        var r := [deck[0]] + rest;
        forall i, j | 0 <= i < j < |r| ensures r[i].word != r[j].word {
          if i == 0 {
            KeptEntryFromTail(deck, id, j - 1);
          } else {
            assert r[i] == rest[i - 1] && r[j] == rest[j - 1];
          }
        }
      }
    }
  }

  /** An entry kept from the tail of a unique deck has another word than
      the head. */
  lemma KeptEntryFromTail(deck: seq<VocabWord>, id: string, j: nat)
    requires deck != [] && UniqueWords(deck)
    requires j < |RemoveId(deck[1..], id)|
    ensures RemoveId(deck[1..], id)[j].word != deck[0].word
  {
    var x := RemoveId(deck[1..], id)[j];
    RemoveIdMembers(deck[1..], id);
    assert x in deck[1..];
    var k :| 0 <= k < |deck[1..]| && deck[1..][k] == x;
    assert deck[k + 1] == x;
  }

  /** Removing an entry that was just added with a fresh id restores the
      deck. */
  lemma RemoveUndoesAdd(deck: seq<VocabWord>, raw: string, translation: string, freshId: string)
    requires forall i :: 0 <= i < |deck| ==> deck[i].id != freshId
    ensures RemoveId(AddWord(deck, raw, translation, freshId), freshId) == deck
  {
    RemoveUnknownId(deck, freshId);
    var d := AddWord(deck, raw, translation, freshId);
    if d != deck {
      assert d[1..] == deck;
    }
  }

  /** The vocabulary store: its list of words and the in-flight flag. */
  class Deck {
    var words: seq<VocabWord>
    var isLoading: bool

    /** The first render: the stored list when storage holds one, else empty
        (absent or unparsable storage both read as `None`). */
    constructor (stored: Option<seq<VocabWord>>)
      ensures words == (if stored.Some? then stored.value else [])
      ensures !isLoading
    {
      words := if stored.Some? then stored.value else [];
      isLoading := false;
    }

    /** `addVocabWord`: the early return leaves everything alone; otherwise
        the lookup runs with `isLoading` set and clears it at the end. */
    method AddVocabWord(raw: string, translation: string, freshId: string)
      modifies this
      ensures words == AddWord(old(words), raw, translation, freshId)
      ensures isLoading == (if Skips(old(words), Normalize(raw)) then old(isLoading) else false)
      ensures UniqueWords(old(words)) ==> UniqueWords(words)
    {
      var w := Normalize(raw);
      if Skips(words, w) {
        return;
      }
      isLoading := true;
      if Meaningful(w, translation) {
        words := [VocabWord(freshId, w, translation)] + words;
      }
      isLoading := false;
      if UniqueWords(old(words)) {
        AddWordKeepsUnique(old(words), raw, translation, freshId);
      }
    }

    /** `removeVocabWord` */
    method RemoveVocabWord(id: string)
      modifies this
      ensures words == RemoveId(old(words), id)
      ensures isLoading == old(isLoading)
      ensures UniqueWords(old(words)) ==> UniqueWords(words)
    {
      words := RemoveId(words, id);
      if UniqueWords(old(words)) {
        RemoveIdKeepsUnique(old(words), id);
      }
    }
  }

  /** The clamping effect: no words forces index 0, an index past the end
      moves to the last card, any other index stays. */
  function Clamp(index: int, n: nat): (r: int)
    ensures n == 0 ==> r == 0
    ensures n > 0 && 0 <= index ==> 0 <= r < n
    ensures n > 0 && index < n ==> r == index
    ensures n > 0 && index >= n ==> r == n - 1
  {
    if n == 0 then 0 else if index >= n then n - 1 else index
  }

  /** `handleNext`'s index: unchanged for at most one card, else the next
      card, wrapping to the first after the last. */
  function NextIndex(index: nat, n: nat): (r: nat)
    ensures n > 1 ==> r < n
    ensures n <= 1 ==> r == index
  {
    if n <= 1 then index else (index + 1) % n
  }

  function IterateNext(i: nat, n: nat, k: nat): nat
    decreases k
  {
    if k == 0 then i else NextIndex(IterateNext(i, n, k - 1), n)
  }

  /** Moving on `k <= n` times from card `i` lands on card `i + k`, counted
      from the first card again once the end is passed. */
  lemma {:induction false} NextIndexIterates(i: nat, n: nat, k: nat)
    requires 1 < n && i < n && k <= n
    ensures IterateNext(i, n, k) == if i + k < n then i + k else i + k - n
    decreases k
  {
    if k > 0 {
      NextIndexIterates(i, n, k - 1);
      var x := IterateNext(i, n, k - 1);
      if x + 1 < n {
        SmallMod(x + 1, n);
      } else {
        FullMod(n);
      }
    }
  }

  lemma SmallMod(a: int, n: int)
    requires 0 <= a < n
    ensures a % n == a
  {
  }

  lemma FullMod(n: int)
    requires 0 < n
    ensures n % n == 0
  {
  }

  /** Pressing next once per card brings the review back to where it began. */
  lemma NextCyclesThroughDeck(i: nat, n: nat)
    requires 1 < n && i < n
    ensures IterateNext(i, n, n) == i
    ensures forall k :: 0 < k < n ==> IterateNext(i, n, k) != i
  {
    NextIndexIterates(i, n, n);
    forall k | 0 < k < n ensures IterateNext(i, n, k) != i {
      NextIndexIterates(i, n, k);
    }
  }

  /** The flashcard view: the current card, whether it shows its back, and
      the deck it reads. */
  class Review {
    var currentIndex: int
    var isFlipped: bool
    const deck: Deck

    ghost predicate Valid()
      reads this
    {
      currentIndex >= 0
    }

    constructor (deck: Deck)
      ensures this.deck == deck && currentIndex == 0 && !isFlipped && Valid()
    {
      this.deck := deck;
      currentIndex := 0;
      isFlipped := false;
    }

    /** The clamping effect that runs whenever the deck or the index changes. */
    method ClampIndex()
      requires Valid()
      modifies this
      ensures currentIndex == Clamp(old(currentIndex), |deck.words|)
      ensures isFlipped == old(isFlipped) && Valid()
      ensures deck.words != [] ==> currentIndex < |deck.words|
    {
      if |deck.words| == 0 {
        currentIndex := 0;
        return;
      }
      if currentIndex >= |deck.words| {
        currentIndex := |deck.words| - 1;
      }
    }

    /** `handleNext`: the card is turned face up before moving on. */
    method Next()
      requires Valid()
      modifies this
      ensures |deck.words| <= 1 ==> currentIndex == old(currentIndex) && isFlipped == old(isFlipped)
      ensures |deck.words| > 1 ==> currentIndex == NextIndex(old(currentIndex), |deck.words|) && !isFlipped
      ensures Valid()
    {
      if |deck.words| <= 1 {
        return;
      }
      if isFlipped {
        isFlipped := false;
      }
      currentIndex := (currentIndex + 1) % |deck.words|;
    }

    /** `handleRemove`: the word under the cursor, if there is one, is
        removed from the deck by its id. */
    method Remove()
      requires Valid()
      modifies this, deck
      ensures old(currentIndex) < |old(deck.words)| ==>
                deck.words == RemoveId(old(deck.words), old(deck.words)[old(currentIndex)].id) && !isFlipped
      ensures old(currentIndex) >= |old(deck.words)| ==>
                deck.words == old(deck.words) && isFlipped == old(isFlipped)
      ensures currentIndex == old(currentIndex) && deck.isLoading == old(deck.isLoading) && Valid()
    {
      if currentIndex < |deck.words| {
        var wordToRemove := deck.words[currentIndex];
        if isFlipped {
          isFlipped := false;
        }
        deck.RemoveVocabWord(wordToRemove.id);
      }
    }

    /** Turning the card over. */
    method Flip()
      modifies this
      ensures isFlipped == !old(isFlipped) && currentIndex == old(currentIndex)
    {
      isFlipped := !isFlipped;
    }

    /** The progress label `currentIndex + 1 / length`. */
    function Progress(): (r: (int, int))
      reads this, deck
      ensures r.1 == |deck.words|
      ensures Valid() && currentIndex < |deck.words| ==> 1 <= r.0 <= r.1
    {
      (currentIndex + 1, |deck.words|)
    }
  }
}
