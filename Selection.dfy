/** The mouse-up dispatch of the text-selection hook. A selection made in the
    story container is ignored, sent to the vocabulary deck as a single word,
    or opened in the translation popup. The DOM facts the handler reads become
    boolean inputs: whether the mouse-up target is, or lies inside, an element
    carrying the `animate-fade-in-up` class (the class the translation popup
    shows with, though any element with that animation class counts), and
    whether the container exists and holds the selection's anchor node. */
module Selection {
  import opened TextUtil
  import Vocabulary

  /** What one mouse-up does with the current selection. */
  datatype MouseUpAction = Ignore | AddToDeck(word: string) | OpenPopup(text: string)

  /** A selected text with neither a space nor a newline counts as one word
      (a tab does not split it). */
  predicate IsSingleWord(t: string) {
    !Contains(t, ' ') && !Contains(t, '\n')
  }

  /** The decision `handleMouseUp` takes once its delay has passed. */
  function DecideMouseUp(raw: string, isLoading: bool, targetInPopup: bool, anchorInContainer: bool): (a: MouseUpAction)
    ensures Trim(raw) == [] || isLoading || targetInPopup || !anchorInContainer ==> a == Ignore
    ensures a.AddToDeck? ==> a.word == Trim(raw) && a.word != [] && IsSingleWord(a.word)
    ensures a.OpenPopup? ==> a.text == Trim(raw) && a.text != [] && !IsSingleWord(a.text)
    ensures a == Ignore ==> Trim(raw) == [] || isLoading || targetInPopup || !anchorInContainer
  {
    var t := Trim(raw);
    if t == [] || isLoading then Ignore
    else if targetInPopup then Ignore
    else if !anchorInContainer then Ignore
    else if IsSingleWord(t) then AddToDeck(t)
    else OpenPopup(t)
  }

  /** The text a selection hands on has no whitespace at either edge. */
  lemma DecidedTextIsTrimmed(raw: string, isLoading: bool, targetInPopup: bool, anchorInContainer: bool)
    ensures var a := DecideMouseUp(raw, isLoading, targetInPopup, anchorInContainer);
            (a.AddToDeck? ==> !IsSpace(a.word[0]) && !IsSpace(a.word[|a.word| - 1]))
            && (a.OpenPopup? ==> !IsSpace(a.text[0]) && !IsSpace(a.text[|a.text| - 1]))
  {
    TrimShape(raw);
  }

  /** Only the trimmed selection matters: selecting the same text with more
      or less surrounding whitespace leads to the same action. */
  lemma DecideOnTrimmed(raw: string, isLoading: bool, targetInPopup: bool, anchorInContainer: bool)
    ensures DecideMouseUp(Trim(raw), isLoading, targetInPopup, anchorInContainer)
            == DecideMouseUp(raw, isLoading, targetInPopup, anchorInContainer)
  {
    TrimTwice(raw);
  }

  /** The hook's state: the open popup's text, if any, and the deck that
      single words are added to. The popup's screen position is left out. */
  class SelectionHook {
    var selection: Option<string>
    const deck: Vocabulary.Deck

    constructor (deck: Vocabulary.Deck)
      ensures selection == None && this.deck == deck
    {
      selection := None;
      this.deck := deck;
    }

    /** `handleMouseUp`: `translation` and `freshId` stand for the reply of
        the translation call and the id the deck gives a new entry. */
    method HandleMouseUp(raw: string, targetInPopup: bool, anchorInContainer: bool, translation: string, freshId: string)
      modifies this, deck
      ensures var a := DecideMouseUp(raw, old(deck.isLoading), targetInPopup, anchorInContainer);
              match a
              case Ignore =>
                selection == old(selection) && deck.words == old(deck.words) && deck.isLoading == old(deck.isLoading)
              case AddToDeck(w) =>
                selection == old(selection) && deck.words == Vocabulary.AddWord(old(deck.words), w, translation, freshId)
                && !deck.isLoading
              case OpenPopup(t) =>
                selection == Some(t) && deck.words == old(deck.words) && deck.isLoading == old(deck.isLoading)
      ensures Vocabulary.UniqueWords(old(deck.words)) ==> Vocabulary.UniqueWords(deck.words)
    {
      var a := DecideMouseUp(raw, deck.isLoading, targetInPopup, anchorInContainer);
      match a
      case Ignore =>
      case AddToDeck(w) =>
        deck.AddVocabWord(w, translation, freshId);
      case OpenPopup(t) =>
        selection := Some(t);
    }

    /** `closePopup` always clears the selection. */
    method ClosePopup()
      modifies this
      ensures selection == None
    {
      selection := None;
    }
  }
}
