/** The adventure screen: a role-play session with a narrator backend, whose
    replies are read aloud sentence by sentence.

    The screen's state is split along its two concerns. `Narrator` holds the
    playback fields (`speakingState`, the active message and sentence, the
    translation pause, the open selection) and the utterances handed to the
    speech engine. `Game` holds the session (setup, transcript, turn order,
    saved game) and drives the narrator. The speech engine, the backend and
    the browser storage are outside: an utterance is a token, a finished or
    failed utterance is an event method carrying its token, a backend reply is
    a parameter, and the stored game is a field. */
module Adventure {
  import opened TextUtil
  import Segmenter
  import SpeechHighlighting
  import ResponseParser
  import Vocabulary

  datatype Sender = User | Ai

  /** One transcript entry. `playerIndex` is recorded on player turns. */
  datatype Message = Message(id: string, sender: Sender, text: string, correction: Option<string>, playerIndex: Option<int>)

  datatype Difficulty = Basic | Intermediate | Advanced

  /** The saved game as it is read back from storage: any field may be
      missing. */
  datatype SavedGame = SavedGame(theme: string, messages: seq<Message>, difficulty: Option<Difficulty>,
                                 numberOfPlayers: Option<int>, currentPlayerIndex: int)

  /** What the saved-game key holds: nothing (or the empty string), text that
      does not parse, or a parsed game. */
  datatype StoredGame = NoGame | Unreadable | Stored(game: SavedGame)

  datatype SpeakingState = Idle | Playing | Paused

  datatype Role = UserRole | ModelRole

  /** One turn of the history a backend chat is created with. */
  datatype HistoryEntry = HistoryEntry(role: Role, text: string)

  /** What an utterance's handlers were made for: the sentences of the
      message being read and the position of the sentence it speaks. */
  datatype Queued = Queued(sentences: seq<Segmenter.Span>, index: nat)

  /* ---------------------------------------------------------------- turns */

  /** JavaScript `a % n` for a positive `n`: the remainder takes the sign of
      `a`. */
  function JsRem(a: int, n: int): (r: int)
    requires n > 0
    ensures a >= 0 ==> 0 <= r < n
    ensures a < 0 ==> -n < r <= 0
    ensures (a - r) % n == 0
  {
    if a >= 0 then
      assert a - a % n == n * (a / n);
      MultipleMod(n, a / n);
      a % n
    else
      var q := (-a) / n;
      assert -a == n * q + (-a) % n;
      assert a - -((-a) % n) == n * -q;
      MultipleMod(n, -q);
      -((-a) % n)
  }

  /** A multiple of `n` leaves no remainder. */
  lemma MultipleMod(n: int, k: int)
    requires n > 0
    ensures (n * k) % n == 0
  {
    var q := (n * k) / n;
    var m := (n * k) % n;
    assert n * k == n * q + m && 0 <= m < n;
    var d := k - q;
    assert n * d == m by {
      assert n * d == n * k - n * q;
    }
    if d > 0 {
      AtLeastDivisor(n, d);
    } else if d < 0 {
      AtLeastDivisor(n, -d);
    }
  }

  /** A positive multiple of `n` is at least `n`. */
  lemma {:induction false} AtLeastDivisor(n: int, d: int)
    requires n > 0 && d >= 1
    ensures n * d >= n
    decreases d
  {
    if d > 1 {
      AtLeastDivisor(n, d - 1);
      assert n * d == n * (d - 1) + n;
    }
  }

  /** The player whose turn follows player `i` of `n`: `(i + 1) % n`. */
  function NextPlayer(i: int, n: int): (r: int)
    requires n > 1
    ensures 0 <= i < n ==> 0 <= r < n
    ensures 0 <= i < n - 1 ==> r == i + 1
    ensures i == n - 1 ==> r == 0
  {
    JsRem(i + 1, n)
  }

  /** The player index after `k` rounds of sending. */
  function Turns(i: int, n: int, k: nat): int
    requires n > 1
  {
    if k == 0 then i else NextPlayer(Turns(i, n, k - 1), n)
  }

  /** Within one cycle the turn moves `k` places on, wrapping once. */
  lemma {:induction false} TurnsAdvance(i: int, n: int, k: nat)
    requires 1 < n && 0 <= i < n && k <= n
    ensures Turns(i, n, k) == if i + k < n then i + k else i + k - n
  {
    if k > 0 {
      TurnsAdvance(i, n, k - 1);
    }
  }

  /** Round robin: every player gets a turn within `n` messages, and after
      `n` messages the turn is back where it started. */
  lemma EveryPlayerGetsATurn(i: int, n: int, j: int)
    requires 1 < n && 0 <= i < n && 0 <= j < n
    ensures exists k :: 0 <= k < n && Turns(i, n, k) == j
    ensures Turns(i, n, n) == i
  {
    var k := if j >= i then j - i else j - i + n;
    TurnsAdvance(i, n, k);
    TurnsAdvance(i, n, n);
  }

  /* ---------------------------------------------------------- saved games */

  /** The rule a saved game must meet at start-up: a non-empty transcript, a
      difficulty and a non-zero player count. */
  predicate Accepts(g: SavedGame) {
    |g.messages| > 0 && g.difficulty.Some? && g.numberOfPlayers.Some? && g.numberOfPlayers.value != 0
  }

  /** A game the save effect writes (its condition needs a transcript, a
      difficulty and a player count) is accepted when read back exactly
      when its player count is not zero. */
  lemma SavedGameReloads(theme: string, messages: seq<Message>, d: Difficulty, n: int, i: int)
    requires |messages| > 0
    ensures Accepts(SavedGame(theme, messages, Some(d), Some(n), i)) <==> n != 0
  {
  }

  /** The text a transcript entry is replayed as: player text verbatim; a
      narrator reply with a non-empty correction gets the annotation line
      back in front of it. */
  function HistoryText(m: Message): string {
    if m.sender == Ai && m.correction.Some? && m.correction.value != [] then
      ResponseParser.WithCorrection(ResponseParser.Quoted(m.correction.value, '"'), m.text)
    else
      m.text
  }

  /** The history `handleContinueGame` creates the backend chat with. */
  function BuildHistory(ms: seq<Message>): (h: seq<HistoryEntry>)
    ensures |h| == |ms|
    ensures forall i :: 0 <= i < |ms| ==> h[i].role == (if ms[i].sender == User then UserRole else ModelRole)
    ensures forall i :: 0 <= i < |ms| && ms[i].sender == User ==> h[i].text == ms[i].text
    ensures forall i :: 0 <= i < |ms| && ms[i].sender == Ai && ms[i].correction.Some? && ms[i].correction.value != [] ==>
              h[i].text == "Correction: \"" + ms[i].correction.value + "\"\n" + ms[i].text
    ensures forall i :: 0 <= i < |ms| && ms[i].sender == Ai && (ms[i].correction.None? || ms[i].correction.value == []) ==>
              h[i].text == ms[i].text
  {
    seq(|ms|, i requires 0 <= i < |ms| =>
      HistoryEntry(if ms[i].sender == User then UserRole else ModelRole, HistoryText(ms[i])))
  }

  /** The narrator message made from a parsed reply. */
  function AiMessage(id: string, p: ResponseParser.Parsed): Message {
    Message(id, Ai, p.story, p.correction, None)
  }

  /** Replaying a turn loses nothing: the history text of a narrator message
      built from a reply parses back, with the same inline parser, to the
      same correction and story (a correction cut down to the empty string
      is the one exception, since an empty correction is not replayed). */
  lemma {:induction false} ReplayedTurnParsesBack(reply: string, id: string)
    ensures var p := ResponseParser.ParseInline(reply);
            p.correction != Some("") ==> ResponseParser.ParseInline(HistoryText(AiMessage(id, p))) == p
  {
    var p := ResponseParser.ParseInline(reply);
    if ResponseParser.HasCorrection(reply) {
      ResponseParser.InlineParts(reply);
      if p.correction.value != [] {
        ResponseParser.QuotedCorrectionParsed(p.correction.value, p.story, '"');
      }
    } else {
      ResponseParser.NoPrefixKeepsInput(reply);
    }
  }

  /* --------------------------------------------------------- auto-play */

  function Last(ms: seq<Message>): Message
    requires ms != []
  {
    ms[|ms| - 1]
  }

  /** The auto-play effect's condition: the newest message is a narrator
      reply, no reply is pending, and it has not been played before. */
  predicate ShouldAutoPlay(ms: seq<Message>, isLoading: bool, played: set<string>) {
    ms != [] && Last(ms).sender == Ai && !isLoading && Last(ms).id !in played
  }

  /** The ids of the messages in `ms`. */
  function MessageIds(ms: seq<Message>): (r: set<string>)
    ensures forall i :: 0 <= i < |ms| ==> ms[i].id in r
    ensures forall id :: id in r ==> exists i :: 0 <= i < |ms| && ms[i].id == id
  {
    set i | 0 <= i < |ms| :: ms[i].id
  }

  /** Once its id is recorded, a message is not auto-played again. */
  lemma AutoPlayOnce(ms: seq<Message>, isLoading: bool, played: set<string>)
    requires ShouldAutoPlay(ms, isLoading, played)
    ensures !ShouldAutoPlay(ms, isLoading, played + {Last(ms).id})
  {
  }

  /* ------------------------------------------------------------ playback */

  /** The handlers left once those of utterance `u` are detached. */
  function Detach(h: map<nat, Queued>, u: Option<nat>): (r: map<nat, Queued>)
    ensures forall t :: t in r <==> t in h && u != Some(t)
    ensures forall t :: t in r ==> r[t] == h[t]
  {
    if u.Some? then h - {u.value} else h
  }

  /** Detaching the same utterance twice detaches it once. */
  lemma DetachTwice(h: map<nat, Queued>, u: Option<nat>)
    ensures Detach(Detach(h, u), u) == Detach(h, u)
  {
  }

  /** `closePopup` as written: a pending translation pause always resumes
      playback, whatever happened to playback meanwhile. */
  function ResumeOnCloseAsWritten(state: SpeakingState, pausedForTranslation: bool): SpeakingState {
    if pausedForTranslation then Playing else state
  }

  /** The resume rule the model uses: a translation pause resumes playback
      only if playback is still paused. */
  function ResumeOnClose(state: SpeakingState, pausedForTranslation: bool): (r: SpeakingState)
    ensures r == Idle <==> state == Idle
    ensures pausedForTranslation && state == Paused ==> r == Playing
    ensures !pausedForTranslation ==> r == state
  {
    if pausedForTranslation && state == Paused then Playing else state
  }

  /** Stopping playback keeps the translation flag, so closing the popup
      afterwards (as sending a message does) turns a stopped narrator back
      to `playing` with nothing to play; the corrected rule leaves it idle. */
  lemma CloseAfterStopAsWritten()
    ensures ResumeOnCloseAsWritten(Idle, true) == Playing
    ensures ResumeOnClose(Idle, true) == Idle
  {
  }

  /** The sentence the view highlights in `msg`, if `msg` is being read. */
  function ActiveSentence(speakingMessageId: Option<string>, currentSentenceIndex: Option<int>, msg: Message): Option<Segmenter.Span> {
    var sentences := Segmenter.Sentences(msg.text);
    if speakingMessageId == Some(msg.id) && currentSentenceIndex.Some?
       && 0 <= currentSentenceIndex.value < |sentences|
    then Some(sentences[currentSentenceIndex.value])
    else None
  }

  /** Where the view draws the reading cursor in `msg`. */
  function CursorPosition(state: SpeakingState, speakingMessageId: Option<string>, currentSentenceIndex: Option<int>, msg: Message): Option<int> {
    var active := ActiveSentence(speakingMessageId, currentSentenceIndex, msg);
    if active.Some? && state == Playing then Some(active.value.start) else None
  }

  /** Only the message being read is highlighted, the highlighted characters
      lie inside its text, and they belong to the active sentence alone. */
  lemma HighlightInActiveSentence(speakingMessageId: Option<string>, currentSentenceIndex: Option<int>, msg: Message, i: int)
    ensures var active := ActiveSentence(speakingMessageId, currentSentenceIndex, msg);
            SpeechHighlighting.IsHighlighted(active, i) ==>
              speakingMessageId == Some(msg.id) && 0 <= i < |msg.text|
              && var sentences := Segmenter.Sentences(msg.text);
                 forall j :: 0 <= j < |sentences| && Some(j) != currentSentenceIndex ==>
                   !SpeechHighlighting.IsHighlighted(Some(sentences[j]), i)
  {
    var active := ActiveSentence(speakingMessageId, currentSentenceIndex, msg);
    if active.Some? {
      SpeechHighlighting.HighlightOneSentence(msg.text, currentSentenceIndex.value, i);
    }
  }

  /** The cursor sits on the first highlighted character. */
  lemma CursorOnHighlight(state: SpeakingState, speakingMessageId: Option<string>, currentSentenceIndex: Option<int>, msg: Message)
    ensures var c := CursorPosition(state, speakingMessageId, currentSentenceIndex, msg);
            c.Some? ==> state == Playing
                        && SpeechHighlighting.IsHighlighted(ActiveSentence(speakingMessageId, currentSentenceIndex, msg), c.value)
                        && !SpeechHighlighting.IsHighlighted(ActiveSentence(speakingMessageId, currentSentenceIndex, msg), c.value - 1)
  {
    var active := ActiveSentence(speakingMessageId, currentSentenceIndex, msg);
    if active.Some? {
      Segmenter.SentencesShape(msg.text);
      assert active.value in Segmenter.Sentences(msg.text);
    }
  }

  /** The playback half of the adventure screen. */
  class Narrator {
    var speakingState: SpeakingState
    var speakingMessageId: Option<string>
    var currentSentenceIndex: Option<int>
    var pausedForTranslation: bool
    var selection: Option<string>
    /** `utteranceRef.current`, as the token of that utterance. */
    var utterance: Option<nat>
    /** The utterances whose `onend`/`onerror` handlers are attached. */
    var handlers: map<nat, Queued>
    /** The token the next utterance gets. */
    var nextToken: nat

    ghost predicate TokensIssued()
      reads this
    {
      forall t :: t in handlers ==> t < nextToken
    }

    /** The current utterance has its handlers attached, and the narrator
        only shows itself playing or paused while an utterance is current. */
    ghost predicate Valid()
      reads this
    {
      TokensIssued()
      && (utterance.Some? ==> utterance.value in handlers)
      && (speakingState != Idle ==> utterance.Some?)
    }

    constructor ()
      ensures Valid()
      ensures speakingState == Idle && speakingMessageId == None && currentSentenceIndex == None
      ensures !pausedForTranslation && selection == None && utterance == None && handlers == map[]
    {
      speakingState := Idle;
      speakingMessageId := None;
      currentSentenceIndex := None;
      pausedForTranslation := false;
      selection := None;
      utterance := None;
      handlers := map[];
      nextToken := 0;
    }

    /** The active message and sentence, the current utterance and the
        handlers are as before. */
    twostate predicate QueueKept()
      reads this
    {
      speakingMessageId == old(speakingMessageId) && currentSentenceIndex == old(currentSentenceIndex)
      && utterance == old(utterance) && handlers == old(handlers) && nextToken == old(nextToken)
    }

    /** The effect of `stopPlayback`. */
    twostate predicate Stopped()
      reads this
    {
      speakingState == Idle && utterance == None
      && handlers == Detach(old(handlers), old(utterance)) && nextToken == old(nextToken)
      && speakingMessageId == old(speakingMessageId) && currentSentenceIndex == old(currentSentenceIndex)
      && pausedForTranslation == old(pausedForTranslation) && selection == old(selection)
    }

    /** `stopPlayback`: idle, and the current utterance's handlers detached;
        the active message and sentence stay as they were. */
    method StopPlayback()
      requires TokensIssued()
      modifies this
      ensures Stopped() && Valid()
    {
      speakingState := Idle;
      if utterance.Some? {
        handlers := handlers - {utterance.value};
        utterance := None;
      }
    }

    /** The effect of `playQueue` on a sentence that exists. */
    twostate predicate Spoke(sentences: seq<Segmenter.Span>, k: nat)
      reads this
    {
      currentSentenceIndex == Some(k) && utterance == Some(old(nextToken))
      && handlers == old(handlers)[old(nextToken) := Queued(sentences, k)] && nextToken == old(nextToken) + 1
      && speakingState == old(speakingState) && speakingMessageId == old(speakingMessageId)
      && pausedForTranslation == old(pausedForTranslation) && selection == old(selection)
    }

    /** `playQueue`: past the last sentence playback stops; otherwise a new
        utterance for sentence `k` becomes the current one. */
    method PlayQueue(sentences: seq<Segmenter.Span>, k: nat)
      requires TokensIssued()
      modifies this
      ensures Valid()
      ensures k >= |sentences| ==> Stopped()
      ensures k < |sentences| ==> Spoke(sentences, k)
    {
      if k >= |sentences| {
        StopPlayback();
        return;
      }
      currentSentenceIndex := Some(k);
      var token := nextToken;
      nextToken := nextToken + 1;
      utterance := Some(token);
      handlers := handlers[token := Queued(sentences, k)];
    }

    /** The current utterance's handlers are detached; it stays current. */
    twostate predicate Detached()
      reads this
    {
      handlers == Detach(old(handlers), old(utterance)) && utterance == old(utterance) && nextToken == old(nextToken)
      && speakingState == old(speakingState) && speakingMessageId == old(speakingMessageId)
      && currentSentenceIndex == old(currentSentenceIndex)
      && pausedForTranslation == old(pausedForTranslation) && selection == old(selection)
    }

    /** The first step of `playFromSentence`: the current utterance loses
        its `onend` and `onerror` handlers. */
    method DetachCurrent()
      requires TokensIssued()
      modifies this
      ensures TokensIssued() && Detached()
    {
      if utterance.Some? {
        handlers := handlers - {utterance.value};
      }
    }

    /** The effect of `playFromSentence` on a message with text, whose
        sentences are `sentences` and whose id is `id`. */
    twostate predicate ReadFrom(id: string, sentences: seq<Segmenter.Span>, fromIndex: int)
      reads this
    {
      var detached := Detach(old(handlers), old(utterance));
      if 0 <= fromIndex < |sentences| then
        speakingState == Playing && speakingMessageId == Some(id) && currentSentenceIndex == Some(fromIndex)
        && utterance == Some(old(nextToken)) && handlers == detached[old(nextToken) := Queued(sentences, fromIndex)]
        && nextToken == old(nextToken) + 1
        && pausedForTranslation == old(pausedForTranslation) && selection == old(selection)
      else
        speakingState == Idle && utterance == None && handlers == detached && nextToken == old(nextToken)
        && speakingMessageId == old(speakingMessageId) && currentSentenceIndex == old(currentSentenceIndex)
        && pausedForTranslation == old(pausedForTranslation) && selection == old(selection)
    }

    /** The effect of `playFromSentence(msg, fromIndex)`. */
    twostate predicate PlayedFrom(msg: Message, fromIndex: int)
      reads this
    {
      if msg.text == [] then unchanged(this)
      else ReadFrom(msg.id, Segmenter.Sentences(msg.text), fromIndex)
    }

    /** `playFromSentence`: an empty message is not read; otherwise the old
        utterance's handlers are detached, a start outside the sentences
        stops playback, and a start inside them reads the message from that
        sentence with a fresh utterance, so no utterance made before can be
        the current one afterwards. */
    method PlayFromSentence(msg: Message, fromIndex: int)
      requires Valid()
      modifies this
      ensures Valid()
      ensures PlayedFrom(msg, fromIndex)
    {
      if msg.text == [] {
        return;
      }
      var sentences := Segmenter.Sentences(msg.text);
      ReadMessage(msg.id, sentences, fromIndex);
    }

    /** The rest of `playFromSentence` once the message's sentences are
        known. */
    method ReadMessage(id: string, sentences: seq<Segmenter.Span>, fromIndex: int)
      requires Valid()
      modifies this
      ensures Valid()
      ensures ReadFrom(id, sentences, fromIndex)
    {
      DetachCurrent();
      if fromIndex < 0 || fromIndex >= |sentences| {
        StopPlayback();
        DetachTwice(old(handlers), old(utterance));
        return;
      }
      speakingMessageId := Some(id);
      speakingState := Playing;
      currentSentenceIndex := Some(fromIndex);
      PlayQueue(sentences, fromIndex);
    }

    /** An utterance finished: only the current utterance moves the reading
        on to the next sentence; any other completion changes nothing. */
    method OnEnd(tok: nat)
      requires Valid()
      modifies this
      ensures Valid()
      ensures old(utterance) != Some(tok) ==> unchanged(this)
      ensures old(utterance) == Some(tok) ==>
                var q := old(handlers)[tok];
                if q.index + 1 < |q.sentences| then Spoke(q.sentences, q.index + 1) else Stopped()
    {
      if tok in handlers && utterance == Some(tok) {
        var q := handlers[tok];
        PlayQueue(q.sentences, q.index + 1);
      }
    }

    /** An utterance failed: an attached handler stops playback unless the
        error is `"interrupted"`. */
    method OnError(tok: nat, error: string)
      requires Valid()
      modifies this
      ensures Valid()
      ensures error == "interrupted" || tok !in old(handlers) ==> unchanged(this)
      ensures error != "interrupted" && tok in old(handlers) ==> Stopped()
    {
      if tok in handlers && error != "interrupted" {
        StopPlayback();
      }
    }

    /** Only the playback state changed, to `s`. */
    twostate predicate SetTo(s: SpeakingState)
      reads this
    {
      speakingState == s && QueueKept()
      && pausedForTranslation == old(pausedForTranslation) && selection == old(selection)
    }

    /** `handlePlayPauseClick`: on the message being read, play and pause
        toggle; anything else reads the message from its first sentence. */
    method HandlePlayPause(msg: Message)
      requires Valid()
      modifies this
      ensures Valid()
      ensures old(speakingMessageId) == Some(msg.id) && old(speakingState) == Playing ==> SetTo(Paused)
      ensures old(speakingMessageId) == Some(msg.id) && old(speakingState) == Paused ==> SetTo(Playing)
      ensures old(speakingMessageId) != Some(msg.id) || old(speakingState) == Idle ==> PlayedFrom(msg, 0)
    {
      if speakingMessageId == Some(msg.id) {
        if speakingState == Playing {
          speakingState := Paused;
        } else if speakingState == Paused {
          speakingState := Playing;
        } else {
          PlayFromSentence(msg, 0);
        }
      } else {
        PlayFromSentence(msg, 0);
      }
    }

    /** `handleSentenceClick`: reads from the first sentence containing the
        clicked character, or does nothing when none does. */
    method HandleSentenceClick(msg: Message, charIndex: int)
      requires Valid()
      modifies this
      ensures Valid()
      ensures var k := Segmenter.FindSentence(Segmenter.Sentences(msg.text), charIndex);
              (k.None? ==> unchanged(this)) && (k.Some? ==> PlayedFrom(msg, k.value))
    {
      var k := Segmenter.FindSentence(Segmenter.Sentences(msg.text), charIndex);
      if k.Some? {
        PlayFromSentence(msg, k.value);
      }
    }

    /** `canSkip`: the skip buttons work while `msgId` is being read. */
    predicate CanSkip(msgId: string)
      reads this
    {
      speakingMessageId == Some(msgId) && (speakingState == Playing || speakingState == Paused)
      && currentSentenceIndex.Some?
    }

    /** The previous-sentence button: enabled when skipping is possible and
        the reading is past the first sentence. */
    method SkipBack(msg: Message)
      requires Valid()
      modifies this
      ensures Valid()
      ensures old(CanSkip(msg.id)) && old(currentSentenceIndex) != Some(0) ==> PlayedFrom(msg, old(currentSentenceIndex).value - 1)
      ensures !(old(CanSkip(msg.id)) && old(currentSentenceIndex) != Some(0)) ==> unchanged(this)
    {
      if CanSkip(msg.id) && currentSentenceIndex != Some(0) {
        PlayFromSentence(msg, currentSentenceIndex.value - 1);
      }
    }

    /** The next-sentence button: enabled when skipping is possible and the
        reading is not at the last sentence. */
    method SkipForward(msg: Message)
      requires Valid()
      modifies this
      ensures Valid()
      ensures var go := old(CanSkip(msg.id)) && old(currentSentenceIndex) != Some(|Segmenter.Sentences(msg.text)| - 1);
              (go ==> PlayedFrom(msg, old(currentSentenceIndex).value + 1)) && (!go ==> unchanged(this))
    {
      if CanSkip(msg.id) && currentSentenceIndex != Some(|Segmenter.Sentences(msg.text)| - 1) {
        PlayFromSentence(msg, currentSentenceIndex.value + 1);
      }
    }

    /** The effect of opening the translation popup on `text`. */
    twostate predicate PopupOpened(text: string)
      reads this
    {
      selection == Some(text) && QueueKept()
      && if old(speakingState) == Playing then speakingState == Paused && pausedForTranslation
         else speakingState == old(speakingState) && pausedForTranslation == old(pausedForTranslation)
    }

    /** The branch shared by the mouse-up and double-click handlers: reading
        in progress is paused for the translation, then the popup shows
        `text`. */
    method OpenPopup(text: string)
      requires Valid()
      modifies this
      ensures Valid() && PopupOpened(text)
    {
      if speakingState == Playing {
        speakingState := Paused;
        pausedForTranslation := true;
      }
      selection := Some(text);
    }

    /** The screen's own mouse-up handler: a trimmed selection with a space
        in it, made inside the transcript and not inside the popup, opens
        the popup. */
    method HandleMouseUp(raw: string, targetInPopup: bool, anchorInContainer: bool)
      requires Valid()
      modifies this
      ensures Valid()
      ensures var t := Trim(raw);
              (t != [] && Contains(t, ' ') && !targetInPopup && anchorInContainer ==> PopupOpened(t))
              && (!(t != [] && Contains(t, ' ') && !targetInPopup && anchorInContainer) ==> unchanged(this))
    {
      var t := Trim(raw);
      if t != [] && Contains(t, ' ') && !targetInPopup && anchorInContainer {
        OpenPopup(t);
      }
    }

    /** The effect of `closePopup`. */
    twostate predicate PopupClosed()
      reads this
    {
      speakingState == ResumeOnClose(old(speakingState), old(pausedForTranslation))
      && !pausedForTranslation && selection == None && QueueKept()
    }

    /** `closePopup`: clears the selection and ends a translation pause. */
    method ClosePopup()
      requires Valid()
      modifies this
      ensures Valid() && PopupClosed()
    {
      speakingState := ResumeOnClose(speakingState, pausedForTranslation);
      pausedForTranslation := false;
      selection := None;
    }

    /** Clears the active message and sentence, as a new or continued game
        does. */
    method ClearActive()
      requires Valid()
      modifies this
      ensures Valid()
      ensures speakingMessageId == None && currentSentenceIndex == None
      ensures speakingState == old(speakingState) && pausedForTranslation == old(pausedForTranslation)
      ensures selection == old(selection) && utterance == old(utterance) && handlers == old(handlers)
      ensures nextToken == old(nextToken)
    {
      speakingMessageId := None;
      currentSentenceIndex := None;
    }
  }

  /** The skip buttons only work while an utterance is current. */
  lemma CanSkipOnlyWhileSpeaking(n: Narrator, msgId: string)
    requires n.Valid()
    ensures n.CanSkip(msgId) ==> n.utterance.Some? && n.utterance.value in n.handlers
  {
  }

  /** The session half of the adventure screen. */
  class Game {
    var theme: string
    var difficulty: Option<Difficulty>
    var numberOfPlayers: Option<int>
    var currentPlayerIndex: int
    /** Whether a backend chat exists, and the history it was created with. */
    var hasChat: bool
    var history: seq<HistoryEntry>
    var messages: seq<Message>
    var isLoading: bool
    var isGameStarted: bool
    var savedGameState: Option<SavedGame>
    var showContinueScreen: bool
    var playedMessageIds: set<string>
    /** What the browser storage holds under the saved-game key. */
    var storage: StoredGame
    const narrator: Narrator
    const deck: Vocabulary.Deck

    constructor (stored: StoredGame, deck: Vocabulary.Deck)
      ensures storage == stored && this.deck == deck && fresh(narrator) && narrator.Valid()
      ensures theme == [] && difficulty == None && numberOfPlayers == None && currentPlayerIndex == 0
      ensures !hasChat && messages == [] && !isLoading && !isGameStarted
      ensures savedGameState == None && !showContinueScreen && playedMessageIds == {}
    {
      theme := [];
      difficulty := None;
      numberOfPlayers := None;
      currentPlayerIndex := 0;
      hasChat := false;
      history := [];
      messages := [];
      isLoading := false;
      isGameStarted := false;
      savedGameState := None;
      showContinueScreen := false;
      playedMessageIds := {};
      storage := stored;
      narrator := new Narrator();
      this.deck := deck;
    }

    /** The setup form: theme, difficulty and number of players. */
    method ChooseSetup(theme: string, difficulty: Option<Difficulty>, numberOfPlayers: Option<int>)
      modifies this
      ensures this.theme == theme && this.difficulty == difficulty && this.numberOfPlayers == numberOfPlayers
      ensures currentPlayerIndex == old(currentPlayerIndex) && messages == old(messages) && storage == old(storage)
      ensures isLoading == old(isLoading) && isGameStarted == old(isGameStarted) && hasChat == old(hasChat)
      ensures savedGameState == old(savedGameState) && showContinueScreen == old(showContinueScreen)
      ensures playedMessageIds == old(playedMessageIds) && history == old(history)
    {
      this.theme := theme;
      this.difficulty := difficulty;
      this.numberOfPlayers := numberOfPlayers;
    }

    /** The fields that only setup, continuing and resetting change. */
    twostate predicate SetupKept()
      reads this
    {
      theme == old(theme) && difficulty == old(difficulty) && numberOfPlayers == old(numberOfPlayers)
      && savedGameState == old(savedGameState) && showContinueScreen == old(showContinueScreen)
      && storage == old(storage) && history == old(history)
    }

    /** The start-up check of the saved game: an accepted game is offered
        for continuing; a rejected or unreadable one is removed. */
    method LoadSaved()
      modifies this
      ensures old(storage).Stored? && Accepts(old(storage).game) ==>
                savedGameState == Some(old(storage).game) && showContinueScreen && storage == old(storage)
      ensures old(storage).Stored? && !Accepts(old(storage).game) ==>
                storage == NoGame && savedGameState == old(savedGameState) && showContinueScreen == old(showContinueScreen)
      ensures old(storage) == Unreadable ==>
                storage == NoGame && savedGameState == old(savedGameState) && showContinueScreen == old(showContinueScreen)
      ensures old(storage) == NoGame ==> unchanged(this)
      ensures theme == old(theme) && difficulty == old(difficulty) && numberOfPlayers == old(numberOfPlayers)
      ensures currentPlayerIndex == old(currentPlayerIndex) && messages == old(messages) && history == old(history)
      ensures isLoading == old(isLoading) && isGameStarted == old(isGameStarted) && hasChat == old(hasChat)
      ensures playedMessageIds == old(playedMessageIds)
    {
      match storage
      case NoGame =>
      case Unreadable =>
        storage := NoGame;
      case Stored(g) =>
        if Accepts(g) {
          savedGameState := Some(g);
          showContinueScreen := true;
        } else {
          storage := NoGame;
        }
    }

    /** The save effect: a started game with a transcript, a theme, a
        difficulty and a player count is written to storage. */
    method Persist()
      modifies this
      ensures var save := old(isGameStarted && messages != [] && theme != [] && difficulty.Some? && numberOfPlayers.Some?);
              (save ==> storage == Stored(SavedGame(theme, messages, difficulty, numberOfPlayers, currentPlayerIndex)))
              && (!save ==> storage == old(storage))
      ensures theme == old(theme) && difficulty == old(difficulty) && numberOfPlayers == old(numberOfPlayers)
      ensures currentPlayerIndex == old(currentPlayerIndex) && messages == old(messages) && history == old(history)
      ensures isLoading == old(isLoading) && isGameStarted == old(isGameStarted) && hasChat == old(hasChat)
      ensures savedGameState == old(savedGameState) && showContinueScreen == old(showContinueScreen)
      ensures playedMessageIds == old(playedMessageIds)
    {
      if isGameStarted && messages != [] && theme != [] && difficulty.Some? && numberOfPlayers.Some? {
        storage := Stored(SavedGame(theme, messages, difficulty, numberOfPlayers, currentPlayerIndex));
      }
    }

    /** The auto-play effect: a new narrator reply is read from its first
        sentence and recorded, so it is read automatically at most once. */
    method AutoPlay()
      requires narrator.Valid()
      modifies this, narrator
      ensures narrator.Valid()
      ensures old(ShouldAutoPlay(messages, isLoading, playedMessageIds)) ==>
                playedMessageIds == old(playedMessageIds) + {old(Last(messages)).id} && narrator.PlayedFrom(old(Last(messages)), 0)
      ensures !old(ShouldAutoPlay(messages, isLoading, playedMessageIds)) ==>
                playedMessageIds == old(playedMessageIds) && unchanged(narrator)
      ensures messages == old(messages) && isLoading == old(isLoading) && SetupKept()
      ensures currentPlayerIndex == old(currentPlayerIndex) && isGameStarted == old(isGameStarted) && hasChat == old(hasChat)
    {
      if ShouldAutoPlay(messages, isLoading, playedMessageIds) {
        var last := Last(messages);
        narrator.PlayFromSentence(last, 0);
        playedMessageIds := playedMessageIds + {last.id};
      }
    }

    /** `handleStartAdventure`: with a theme, a difficulty and a player
        count, a fresh chat opens the story with the reply as it comes
        (unparsed); a reply that never comes leaves the screen loading. */
    method StartAdventure(reply: Option<string>, freshId: string)
      requires narrator.Valid()
      modifies this, narrator
      ensures narrator.Valid()
      ensures var ready := old(!IsBlank(theme) && difficulty.Some? && numberOfPlayers.Some? && numberOfPlayers.value != 0);
              (!ready ==> unchanged(this) && unchanged(narrator))
              && (ready ==> isGameStarted && hasChat && history == [] && narrator.PopupClosed()
                            && (reply.Some? ==> messages == [Message(freshId, Ai, reply.value, None, None)] && !isLoading)
                            && (reply.None? ==> messages == [] && isLoading))
      ensures theme == old(theme) && difficulty == old(difficulty) && numberOfPlayers == old(numberOfPlayers)
      ensures currentPlayerIndex == old(currentPlayerIndex) && playedMessageIds == old(playedMessageIds)
      ensures storage == old(storage) && savedGameState == old(savedGameState) && showContinueScreen == old(showContinueScreen)
    {
      if IsBlank(theme) || difficulty.None? || numberOfPlayers.None? || numberOfPlayers.value == 0 {
        return;
      }
      narrator.ClosePopup();
      var opening := if reply.Some? then Some(Message(freshId, Ai, reply.value, None, None)) else None;
      Open(opening);
    }

    /** The session half of `handleStartAdventure`: the game starts with a
        fresh chat, and the transcript is the opening message once it
        comes. */
    method Open(opening: Option<Message>)
      modifies this
      ensures isGameStarted && hasChat && history == []
      ensures opening.Some? ==> messages == [opening.value] && !isLoading
      ensures opening.None? ==> messages == [] && isLoading
      ensures theme == old(theme) && difficulty == old(difficulty) && numberOfPlayers == old(numberOfPlayers)
      ensures currentPlayerIndex == old(currentPlayerIndex) && playedMessageIds == old(playedMessageIds)
      ensures storage == old(storage) && savedGameState == old(savedGameState) && showContinueScreen == old(showContinueScreen)
    {
      isLoading := true;
      isGameStarted := true;
      hasChat := true;
      history := [];
      messages := [];
      if opening.None? {
        return;
      }
      messages := [opening.value];
      isLoading := false;
    }

    /** `handleSendMessage`: the player's text is recorded with the index of
        the player whose turn it is, playback stops and the popup closes;
        the reply is parsed into the narrator's message and the turn passes
        to the next player. A reply that never comes leaves the screen
        loading with the turn unchanged. */
    method SendMessage(userInput: string, userId: string, aiId: string, reply: Option<string>)
      requires narrator.Valid()
      modifies this, narrator
      ensures narrator.Valid()
      ensures var skip := old(IsBlank(userInput) || isLoading || !hasChat);
              (skip ==> unchanged(this) && unchanged(narrator))
              && (!skip ==>
                    var user := Message(userId, User, userInput, None, Some(old(currentPlayerIndex)));
                    narrator.speakingState == Idle && narrator.utterance == None
                    && !narrator.pausedForTranslation && narrator.selection == None
                    && narrator.speakingMessageId == old(narrator.speakingMessageId)
                    && narrator.currentSentenceIndex == old(narrator.currentSentenceIndex)
                    && narrator.handlers == Detach(old(narrator.handlers), old(narrator.utterance))
                    && narrator.nextToken == old(narrator.nextToken)
                    && (reply.None? ==> messages == old(messages) + [user] && isLoading
                                        && currentPlayerIndex == old(currentPlayerIndex))
                    && (reply.Some? ==>
                          messages == old(messages) + [user, AiMessage(aiId, ResponseParser.ParseInline(reply.value))]
                          && !isLoading
                          && currentPlayerIndex == (if numberOfPlayers.Some? && numberOfPlayers.value > 1
                                                    then NextPlayer(old(currentPlayerIndex), numberOfPlayers.value)
                                                    else old(currentPlayerIndex))))
      ensures numberOfPlayers.Some? && 0 <= old(currentPlayerIndex) < numberOfPlayers.value ==>
                0 <= currentPlayerIndex < numberOfPlayers.value
      ensures SetupKept() && playedMessageIds == old(playedMessageIds)
      ensures isGameStarted == old(isGameStarted) && hasChat == old(hasChat)
    {
      if IsBlank(userInput) || isLoading || !hasChat {
        return;
      }
      narrator.StopPlayback();
      narrator.ClosePopup();
      var answer := if reply.Some? then Some(AiMessage(aiId, ResponseParser.ParseInline(reply.value))) else None;
      Exchange(Message(userId, User, userInput, None, Some(currentPlayerIndex)), answer);
    }

    /** The transcript half of `handleSendMessage`: the player's message is
        appended and the screen waits; when the reply comes, its parsed
        message `answer` is appended, the turn passes on and the wait
        ends. */
    method Exchange(user: Message, answer: Option<Message>)
      modifies this
      ensures answer.None? ==> messages == old(messages) + [user] && isLoading
                               && currentPlayerIndex == old(currentPlayerIndex)
      ensures answer.Some? ==>
                messages == old(messages) + [user, answer.value]
                && !isLoading
                && currentPlayerIndex == (if numberOfPlayers.Some? && numberOfPlayers.value > 1
                                          then NextPlayer(old(currentPlayerIndex), numberOfPlayers.value)
                                          else old(currentPlayerIndex))
      ensures SetupKept() && playedMessageIds == old(playedMessageIds)
      ensures isGameStarted == old(isGameStarted) && hasChat == old(hasChat)
    {
      messages := messages + [user];
      isLoading := true;
      if answer.None? {
        return;
      }
      messages := messages + [answer.value];
      if numberOfPlayers.Some? && numberOfPlayers.value > 1 {
        currentPlayerIndex := NextPlayer(currentPlayerIndex, numberOfPlayers.value);
      }
      isLoading := false;
    }

    /** `startNewGame`: playback stops, the saved game is removed and the
        session returns to the setup screen with nothing played. */
    method StartNewGame()
      requires narrator.Valid()
      modifies this, narrator
      ensures narrator.Valid()
      ensures narrator.speakingState == Idle && narrator.utterance == None
      ensures narrator.speakingMessageId == None && narrator.currentSentenceIndex == None
      ensures storage == NoGame && !isGameStarted && theme == [] && difficulty == None && numberOfPlayers == None
      ensures currentPlayerIndex == 0 && !hasChat && messages == [] && playedMessageIds == {}
      ensures savedGameState == None && !showContinueScreen
      ensures isLoading == old(isLoading)
      ensures narrator.pausedForTranslation == old(narrator.pausedForTranslation) && narrator.selection == old(narrator.selection)
      ensures narrator.handlers == Detach(old(narrator.handlers), old(narrator.utterance))
      ensures narrator.nextToken == old(narrator.nextToken)
    {
      narrator.StopPlayback();
      narrator.ClearActive();
      Reset();
    }

    /** The session half of `startNewGame`. */
    method Reset()
      modifies this
      ensures storage == NoGame && !isGameStarted && theme == [] && difficulty == None && numberOfPlayers == None
      ensures currentPlayerIndex == 0 && !hasChat && messages == [] && playedMessageIds == {}
      ensures savedGameState == None && !showContinueScreen
      ensures isLoading == old(isLoading)
    {
      storage := NoGame;
      isGameStarted := false;
      theme := [];
      difficulty := None;
      numberOfPlayers := None;
      currentPlayerIndex := 0;
      hasChat := false;
      history := [];
      messages := [];
      playedMessageIds := {};
      savedGameState := None;
      showContinueScreen := false;
    }

    /** What restoring the saved game `g` leaves: its fields, a chat whose
        history is built from its transcript, and a narrator with no active
        message or sentence that is otherwise as it was. */
    twostate predicate Continued(g: SavedGame)
      reads this, narrator
    {
      hasChat && history == BuildHistory(g.messages) && theme == g.theme && difficulty == g.difficulty
      && numberOfPlayers == g.numberOfPlayers && currentPlayerIndex == g.currentPlayerIndex
      && messages == g.messages && isGameStarted && !showContinueScreen
      && narrator.speakingMessageId == None && narrator.currentSentenceIndex == None
      && narrator.speakingState == old(narrator.speakingState)
      && narrator.pausedForTranslation == old(narrator.pausedForTranslation)
      && narrator.selection == old(narrator.selection) && narrator.utterance == old(narrator.utterance)
      && narrator.handlers == old(narrator.handlers) && narrator.nextToken == old(narrator.nextToken)
      && isLoading == old(isLoading) && storage == old(storage) && savedGameState == old(savedGameState)
    }

    /** `handleContinueGame` as written: an offered game with a difficulty is
        restored field by field, and a new chat is created with its
        transcript as history; the auto-played ids are left as they were. */
    method ContinueGameAsWritten()
      requires narrator.Valid()
      modifies this, narrator
      ensures narrator.Valid()
      ensures old(savedGameState).None? || old(savedGameState).value.difficulty.None? ==>
                unchanged(this) && unchanged(narrator)
      ensures old(savedGameState).Some? && old(savedGameState).value.difficulty.Some? ==>
                Continued(old(savedGameState).value)
      ensures playedMessageIds == old(playedMessageIds)
    {
      if savedGameState.None? || savedGameState.value.difficulty.None? {
        return;
      }
      var g := savedGameState.value;
      Restore(g, BuildHistory(g.messages));
      narrator.ClearActive();
    }

    /** As written, continuing a game whose last message is a narrator
        message not yet auto-played leaves the auto-play condition true, so
        the auto-play effect (`AutoPlay`) then reads that message aloud. */
    method ContinueArmsAutoPlayAsWritten()
      requires narrator.Valid() && !isLoading
      requires savedGameState.Some? && savedGameState.value.difficulty.Some?
      requires savedGameState.value.messages != [] && Last(savedGameState.value.messages).sender == Ai
      requires Last(savedGameState.value.messages).id !in playedMessageIds
      modifies this, narrator
      ensures narrator.Valid()
      ensures ShouldAutoPlay(messages, isLoading, playedMessageIds)
    {
      ContinueGameAsWritten();
    }

    /** `handleContinueGame`, with the restored messages recorded as
        auto-played, so that, as the source's comment at the reset of the
        active message says, no audio plays automatically. */
    method ContinueGame()
      requires narrator.Valid()
      modifies this, narrator
      ensures narrator.Valid()
      ensures old(savedGameState).None? || old(savedGameState).value.difficulty.None? ==>
                unchanged(this) && unchanged(narrator)
      ensures old(savedGameState).Some? && old(savedGameState).value.difficulty.Some? ==>
                Continued(old(savedGameState).value)
                && playedMessageIds == old(playedMessageIds) + MessageIds(messages)
                && !ShouldAutoPlay(messages, isLoading, playedMessageIds)
    {
      if savedGameState.None? || savedGameState.value.difficulty.None? {
        return;
      }
      var g := savedGameState.value;
      Restore(g, BuildHistory(g.messages));
      narrator.ClearActive();
      playedMessageIds := playedMessageIds + MessageIds(messages);
    }

    /** Continuing a game and then running the auto-play effect starts no
        reading: the narrator keeps its state and has no active message. */
    method ContinueThenAutoPlay()
      requires narrator.Valid()
      requires savedGameState.Some? && savedGameState.value.difficulty.Some?
      modifies this, narrator
      ensures narrator.Valid()
      ensures narrator.speakingState == old(narrator.speakingState) && narrator.speakingMessageId == None
      ensures narrator.utterance == old(narrator.utterance) && narrator.handlers == old(narrator.handlers)
    {
      ContinueGame();
      AutoPlay();
    }

    /** The session half of `handleContinueGame`: `g`'s fields come back and
        a chat is opened with `h` as its history. */
    method Restore(g: SavedGame, h: seq<HistoryEntry>)
      modifies this
      ensures hasChat && history == h && theme == g.theme && difficulty == g.difficulty
      ensures numberOfPlayers == g.numberOfPlayers && currentPlayerIndex == g.currentPlayerIndex
      ensures messages == g.messages && isGameStarted && !showContinueScreen
      ensures isLoading == old(isLoading) && playedMessageIds == old(playedMessageIds) && storage == old(storage)
      ensures savedGameState == old(savedGameState)
    {
      history := h;
      hasChat := true;
      theme := g.theme;
      difficulty := g.difficulty;
      numberOfPlayers := g.numberOfPlayers;
      currentPlayerIndex := g.currentPlayerIndex;
      messages := g.messages;
      isGameStarted := true;
      showContinueScreen := false;
    }

    /** `handleWordDoubleClick`: reading in progress is paused for the
        translation, the word goes to the vocabulary deck, and the popup
        shows it. */
    method HandleWordDoubleClick(word: string, translation: string, freshId: string)
      requires narrator.Valid()
      modifies narrator, deck
      ensures narrator.Valid() && narrator.PopupOpened(word)
      ensures deck.words == Vocabulary.AddWord(old(deck.words), word, translation, freshId)
      ensures deck.isLoading == if Vocabulary.Skips(old(deck.words), Vocabulary.Normalize(word)) then old(deck.isLoading) else false
      ensures Vocabulary.UniqueWords(old(deck.words)) ==> Vocabulary.UniqueWords(deck.words)
    {
      narrator.OpenPopup(word);
      deck.AddVocabWord(word, translation, freshId);
    }
  }
}
