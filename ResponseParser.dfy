/** The three parsers that split an optional leading `Correction: ` line off a
    narrator reply: the shared service parser, the older utility parser (it
    strips double quotes only) and the parser written inline in the adventure
    component (it drops the first and last character unconditionally). */
module ResponseParser {
  import opened TextUtil

  const CorrectionPrefix: string := "Correction: "

  /** `{ correction?: string, story: string }` */
  datatype Parsed = Parsed(correction: Option<string>, story: string)

  /** The first line of a reply: everything before the first newline. */
  function FirstLine(text: string): string {
    text[..IndexOf(text, '\n')]
  }

  /** The text following the correction prefix on the first line. */
  function PrefixRest(text: string): string
    requires StartsWith(FirstLine(text), CorrectionPrefix)
  {
    FirstLine(text)[|CorrectionPrefix|..]
  }

  predicate HasCorrection(text: string) {
    StartsWith(FirstLine(text), CorrectionPrefix)
  }

  /** JavaScript `c.slice(1, -1)`: drops the first and the last character. */
  function SliceInner(c: string): string {
    if |c| >= 2 then c[1..|c| - 1] else ""
  }

  /** `c.startsWith(q) && c.endsWith(q)` */
  predicate WrappedIn(c: string, q: char) {
    |c| >= 1 && c[0] == q && c[|c| - 1] == q
  }

  /** Quote removal of services/parseResponse.ts: one layer of `"…"` or `'…'`. */
  function StripQuotes(c: string): (r: string)
    ensures WrappedIn(c, '"') || WrappedIn(c, '\'') ==> r == if |c| >= 2 then c[1..|c| - 1] else []
    ensures !WrappedIn(c, '"') && !WrappedIn(c, '\'') ==> r == c
    ensures |r| <= |c|
  {
    if WrappedIn(c, '"') || WrappedIn(c, '\'') then SliceInner(c) else c
  }

  /** Quote removal of utils/parseResponse.ts: one layer of `"…"` only. */
  function StripDoubleQuotes(c: string): (r: string)
    ensures WrappedIn(c, '"') ==> r == if |c| >= 2 then c[1..|c| - 1] else []
    ensures !WrappedIn(c, '"') ==> r == c
  {
    if WrappedIn(c, '"') then SliceInner(c) else c
  }

  /** services/parseResponse.ts `parseResponse`. */
  function ParseServices(responseText: string): Parsed {
    var lines := Split(responseText, '\n');
    if |lines| > 0 && StartsWith(lines[0], CorrectionPrefix) then
      var correction := StripQuotes(Trim(lines[0][|CorrectionPrefix|..]));
      Parsed(Some(correction), Trim(Join(lines[1..], '\n')))
    else
      Parsed(None, responseText)
  }

  /** utils/parseResponse.ts `parseResponse`. */
  function ParseUtils(responseText: string): Parsed {
    var lines := Split(responseText, '\n');
    if |lines| > 0 && StartsWith(lines[0], CorrectionPrefix) then
      var correction := StripDoubleQuotes(Trim(lines[0][|CorrectionPrefix|..]));
      Parsed(Some(correction), Trim(Join(lines[1..], '\n')))
    else
      Parsed(None, responseText)
  }

  /** The `parseResponse` written inside the adventure component. */
  function ParseInline(responseText: string): Parsed {
    var lines := Split(responseText, '\n');
    if |lines| > 0 && StartsWith(lines[0], CorrectionPrefix) then
      var correction := SliceInner(Trim(lines[0][|CorrectionPrefix|..]));
      Parsed(Some(correction), Trim(Join(lines[1..], '\n')))
    else
      Parsed(None, responseText)
  }

  /** Without the prefix on the first line, every parser returns the whole
      input as the story and no correction; only the first line is looked at. */
  lemma {:induction false} NoPrefixKeepsInput(text: string)
    requires !HasCorrection(text)
    ensures ParseServices(text) == Parsed(None, text)
    ensures ParseUtils(text) == Parsed(None, text)
    ensures ParseInline(text) == Parsed(None, text)
  {
    SplitFirst(text, '\n');
  }

  /** With the prefix, each parser takes its correction from the trimmed rest
      of the first line and its story from the trimmed text after the first
      newline (empty for a one-line reply). */
  lemma {:induction false} PrefixSplitsCorrection(text: string)
    requires HasCorrection(text)
    ensures ParseServices(text) == Parsed(Some(StripQuotes(Trim(PrefixRest(text)))), Trim(AfterFirst(text, '\n')))
    ensures ParseUtils(text) == Parsed(Some(StripDoubleQuotes(Trim(PrefixRest(text)))), Trim(AfterFirst(text, '\n')))
    ensures ParseInline(text) == Parsed(Some(SliceInner(Trim(PrefixRest(text)))), Trim(AfterFirst(text, '\n')))
    ensures '\n' !in text ==> ParseServices(text).story == ""
  {
    SplitFirst(text, '\n');
  }

  /** The three parsers always agree on the story and on whether there is a
      correction; they differ only in how they unquote it. */
  lemma {:induction false} ParsersAgreeOnStory(text: string)
    ensures ParseServices(text).story == ParseUtils(text).story == ParseInline(text).story
    ensures ParseServices(text).correction.Some? == ParseUtils(text).correction.Some?
                                                  == ParseInline(text).correction.Some?
                                                  == HasCorrection(text)
  {
    SplitFirst(text, '\n');
  }

  /** The inline parser's correction is cut from the first line, so it holds
      no newline, and its story is already trimmed. */
  lemma {:induction false} InlineParts(text: string)
    requires HasCorrection(text)
    ensures ParseInline(text).correction.Some?
    ensures '\n' !in ParseInline(text).correction.value
    ensures Trim(ParseInline(text).story) == ParseInline(text).story
  {
    PrefixSplitsCorrection(text);
    var first := FirstLine(text);
    assert '\n' !in first;
    var rest := PrefixRest(text);
    assert rest == first[|CorrectionPrefix|..];
    assert '\n' !in rest;
    var line := Trim(rest);
    TrimShape(rest);
    assert '\n' !in line;
    assert '\n' !in SliceInner(line);
    TrimTwice(AfterFirst(text, '\n'));
  }

  /** The parsers are total: the empty reply is a story of its own. */
  lemma EmptyInput()
    ensures ParseServices("") == Parsed(None, "")
    ensures ParseUtils("") == Parsed(None, "")
    ensures ParseInline("") == Parsed(None, "")
  {
  }

  /** A reply whose first line carries the correction annotation `line`
      and whose remaining lines are `rest`. */
  function WithCorrection(line: string, rest: string): string {
    CorrectionPrefix + line + "\n" + rest
  }

  /** `line` wrapped in one pair of the quote character `q`. */
  function Quoted(line: string, q: char): string {
    [q] + line + [q]
  }

  /** The first line of `WithCorrection(line, rest)` is the prefixed line, and
      what follows it is `rest`. */
  lemma {:induction false} ComposedLines(line: string, rest: string)
    requires '\n' !in line
    ensures HasCorrection(WithCorrection(line, rest))
    ensures PrefixRest(WithCorrection(line, rest)) == line
    ensures AfterFirst(WithCorrection(line, rest), '\n') == rest
  {
    var text := WithCorrection(line, rest);
    var n := |CorrectionPrefix + line|;
    assert text[..n] == CorrectionPrefix + line;
    assert '\n' !in CorrectionPrefix;
    IndexOfAt(text, '\n', n);
    assert FirstLine(text) == CorrectionPrefix + line;
    assert text[n + 1..] == rest;
  }

  /** Each parser applied to a reply built by `WithCorrection`. */
  lemma {:induction false} ParseWithCorrection(line: string, rest: string)
    requires '\n' !in line
    ensures ParseServices(WithCorrection(line, rest)) == Parsed(Some(StripQuotes(Trim(line))), Trim(rest))
    ensures ParseUtils(WithCorrection(line, rest)) == Parsed(Some(StripDoubleQuotes(Trim(line))), Trim(rest))
    ensures ParseInline(WithCorrection(line, rest)) == Parsed(Some(SliceInner(Trim(line))), Trim(rest))
  {
    ComposedLines(line, rest);
    PrefixSplitsCorrection(WithCorrection(line, rest));
  }

  /** A string with no separator before `i` and a separator at `i` has its
      first separator at `i`. */
  lemma {:induction false} IndexOfAt(s: string, sep: char, i: nat)
    requires i < |s| && s[i] == sep && sep !in s[..i]
    ensures IndexOf(s, sep) == i
    decreases i
  {
    if i > 0 {
      assert s[0] in s[..i];
      assert s[1..][..i - 1] == s[1..i];
      assert forall c :: c in s[1..i] ==> c in s[..i];
      IndexOfAt(s[1..], sep, i - 1);
    }
  }

  /** Exactly one layer of matching quotes is removed by the service parser:
      a doubly quoted correction keeps its inner pair. */
  lemma OneLayerOnly(inner: string, q: char)
    requires q == '"' || q == '\''
    ensures StripQuotes(Quoted(Quoted(inner, q), q)) == Quoted(inner, q)
  {
    var c := Quoted(Quoted(inner, q), q);
    assert c[1..|c| - 1] == Quoted(inner, q);
  }

  /** Mismatched quotes are left in place by the service parser. */
  lemma MismatchedQuotesKept(inner: string)
    ensures StripQuotes(['"'] + inner + ['\'']) == ['"'] + inner + ['\'']
    ensures StripQuotes(['\''] + inner + ['"']) == ['\''] + inner + ['"']
  {
  }

  /** Quote characters are not whitespace, so trimming keeps a quoted line. */
  lemma QuotedTrim(inner: string, q: char)
    requires q == '"' || q == '\''
    ensures Trim(Quoted(inner, q)) == Quoted(inner, q)
  {
    var line := Quoted(inner, q);
    assert line[0] == q && line[|line| - 1] == q;
    TrimOfTrimmed(line);
  }

  /** Dropping the edges of a quoted line gives back what was quoted. */
  lemma QuotedInner(inner: string, q: char)
    ensures SliceInner(Quoted(inner, q)) == inner
  {
    var line := Quoted(inner, q);
    assert line[1..|line| - 1] == inner;
  }

  /** How each parser's unquoting treats a quoted line. */
  lemma QuotedStrip(inner: string, q: char)
    requires q == '"' || q == '\''
    ensures StripQuotes(Quoted(inner, q)) == inner
    ensures StripDoubleQuotes(Quoted(inner, q)) == if q == '"' then inner else Quoted(inner, q)
  {
    QuotedInner(inner, q);
    var line := Quoted(inner, q);
    assert line[0] == q && line[|line| - 1] == q;
  }

  lemma QuotedNoNewline(inner: string, q: char)
    requires q == '"' || q == '\''
    requires '\n' !in inner
    ensures '\n' !in Quoted(inner, q)
  {
  }

  /** A correction in matching quotes: the service parser yields the text
      between the quotes; the utility parser does so for double quotes only
      and keeps single quotes; the inline parser always drops the two quote
      characters. */
  lemma {:induction false} QuotedCorrectionParsed(inner: string, rest: string, q: char)
    requires q == '"' || q == '\''
    requires '\n' !in inner
    ensures ParseServices(WithCorrection(Quoted(inner, q), rest)) == Parsed(Some(inner), Trim(rest))
    ensures ParseInline(WithCorrection(Quoted(inner, q), rest)) == Parsed(Some(inner), Trim(rest))
    ensures ParseUtils(WithCorrection(Quoted(inner, q), rest))
            == Parsed(Some(if q == '"' then inner else Quoted(inner, q)), Trim(rest))
  {
    QuotedTrim(inner, q);
    QuotedInner(inner, q);
    QuotedStrip(inner, q);
    QuotedNoNewline(inner, q);
    ParseWithCorrection(Quoted(inner, q), rest);
  }

  /** An unquoted correction whose edges are not whitespace is kept whole by
      the service and utility parsers, while the inline parser drops its first
      and last characters. */
  lemma {:induction false} UnquotedCorrectionParsed(c: string, rest: string)
    requires '\n' !in c
    requires c == [] || (!IsSpace(c[0]) && !IsSpace(c[|c| - 1]))
    requires !WrappedIn(c, '"') && !WrappedIn(c, '\'')
    ensures ParseServices(WithCorrection(c, rest)) == Parsed(Some(c), Trim(rest))
    ensures ParseUtils(WithCorrection(c, rest)) == Parsed(Some(c), Trim(rest))
    ensures ParseInline(WithCorrection(c, rest)) == Parsed(Some(SliceInner(c)), Trim(rest))
  {
    ParseWithCorrection(c, rest);
    TrimOfTrimmed(c);
  }

  /** tests/parseResponse.test.ts, second case: a one-line reply without the
      prefix is returned as it is. */
  lemma TestNoCorrection(text: string)
    requires text == "You enter the cave."
    ensures ParseServices(text) == Parsed(None, "You enter the cave.")
  {
    assert '\n' !in text;
    IndexOfAbsent(text, '\n');
    assert FirstLine(text) == text;
    NoPrefixKeepsInput(text);
  }

  /** A string without a separator is a single line. */
  lemma {:induction false} IndexOfAbsent(s: string, sep: char)
    requires sep !in s
    ensures IndexOf(s, sep) == |s|
  {
  }
}
