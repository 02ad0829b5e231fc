/** String primitives shared by the model: the JavaScript notions of
    whitespace, `trim`, `split('\n')`, `join('\n')`, `startsWith`,
    `includes` and an ASCII `toLowerCase`. */
module TextUtil {

  datatype Option<+T> = None | Some(value: T)

  /** The characters matched by the JavaScript class `\s`, which is also the
      set `String.prototype.trim` removes (WhiteSpace and LineTerminator). */
  predicate IsSpace(c: char) {
    c == ' ' || c == '\t' || c == '\n' || c == '\r' || c == '\U{000B}' || c == '\U{000C}'
    || c == '\U{00A0}' || c == '\U{1680}' || ('\U{2000}' <= c <= '\U{200A}')
    || c == '\U{2028}' || c == '\U{2029}' || c == '\U{202F}' || c == '\U{205F}'
    || c == '\U{3000}' || c == '\U{FEFF}'
  }

  predicate NoSpace(s: string) {
    forall i :: 0 <= i < |s| ==> !IsSpace(s[i])
  }

  /** `s` with its leading whitespace removed. */
  function TrimStart(s: string): (r: string)
    ensures |r| <= |s| && r == s[|s| - |r|..]
    ensures r == [] || !IsSpace(r[0])
  {
    if s == [] || !IsSpace(s[0]) then s else TrimStart(s[1..])
  }

  /** `s` with its trailing whitespace removed. */
  function TrimEnd(s: string): (r: string)
    ensures |r| <= |s| && r == s[..|r|]
    ensures r == [] || !IsSpace(r[|r| - 1])
  {
    if s == [] || !IsSpace(s[|s| - 1]) then s else TrimEnd(s[..|s| - 1])
  }

  /** JavaScript `s.trim()`. */
  function Trim(s: string): string {
    TrimEnd(TrimStart(s))
  }

  /** Everything `TrimStart` removes is whitespace. */
  lemma {:induction false} TrimStartRemovesSpace(s: string)
    ensures forall i :: 0 <= i < |s| - |TrimStart(s)| ==> IsSpace(s[i])
    decreases |s|
  {
    if s != [] && IsSpace(s[0]) {
      TrimStartRemovesSpace(s[1..]);
      assert forall i :: 1 <= i < |s| - |TrimStart(s)| ==> s[i] == s[1..][i - 1];
    }
  }

  /** Everything `TrimEnd` removes is whitespace. */
  lemma {:induction false} TrimEndRemovesSpace(s: string)
    ensures forall i :: |TrimEnd(s)| <= i < |s| ==> IsSpace(s[i])
    decreases |s|
  {
    if s != [] && IsSpace(s[|s| - 1]) {
      TrimEndRemovesSpace(s[..|s| - 1]);
    }
  }

  /** How many leading characters `trim` removes. */
  function TrimLead(s: string): (a: nat)
    ensures a <= |s|
  {
    |s| - |TrimStart(s)|
  }

  /** Trim yields the slice of its input that starts after the leading
      whitespace, has no whitespace at either edge, and only whitespace was
      cut away on both sides. */
  lemma TrimShape(s: string)
    ensures TrimLead(s) + |Trim(s)| <= |s|
    ensures Trim(s) == s[TrimLead(s)..TrimLead(s) + |Trim(s)|]
    ensures forall i :: 0 <= i < TrimLead(s) ==> IsSpace(s[i])
    ensures forall i :: TrimLead(s) + |Trim(s)| <= i < |s| ==> IsSpace(s[i])
    ensures Trim(s) == [] || (!IsSpace(Trim(s)[0]) && !IsSpace(Trim(s)[|Trim(s)| - 1]))
  {
    TrimIsSlice(s);
    TrimStartRemovesSpace(s);
    TrimEndRemovesSpace(TrimStart(s));
    SuffixTailSpace(s, TrimLead(s), |Trim(s)|);
    TrimEdges(s);
  }

  /** The edges of a trimmed string are not whitespace. */
  lemma TrimEdges(s: string)
    ensures Trim(s) == [] || (!IsSpace(Trim(s)[0]) && !IsSpace(Trim(s)[|Trim(s)| - 1]))
  {
    var t := TrimStart(s);
    var r := TrimEnd(t);
    if r != [] {
      assert r[0] == t[0];
    }
  }

  /** Trim yields a slice of its input. */
  lemma TrimIsSlice(s: string)
    ensures TrimLead(s) + |Trim(s)| <= |s|
    ensures Trim(s) == s[TrimLead(s)..TrimLead(s) + |Trim(s)|]
  {
    SliceOfSuffix(s, TrimLead(s), |Trim(s)|);
  }

  lemma SliceOfSuffix(s: string, a: nat, n: nat)
    requires a + n <= |s|
    ensures s[a..][..n] == s[a..a + n]
  {
  }

  /** Whitespace at the end of a suffix is whitespace at the end of the
      whole string. */
  lemma SuffixTailSpace(s: string, a: nat, n: nat)
    requires a + n <= |s|
    requires forall i :: n <= i < |s[a..]| ==> IsSpace(s[a..][i])
    ensures forall i :: a + n <= i < |s| ==> IsSpace(s[i])
  {
    forall i | a + n <= i < |s| ensures IsSpace(s[i]) {
      assert s[i] == s[a..][i - a];
    }
  }

  /** A string whose edges are not whitespace is its own trim. */
  lemma TrimOfTrimmed(s: string)
    requires s == [] || (!IsSpace(s[0]) && !IsSpace(s[|s| - 1]))
    ensures Trim(s) == s
  {
  }

  /** Trimming is idempotent. */
  lemma TrimTwice(s: string)
    ensures Trim(Trim(s)) == Trim(s)
  {
    TrimShape(s);
    TrimOfTrimmed(Trim(s));
  }

  /** A string of whitespace only (JavaScript `!s.trim()`). */
  predicate IsBlank(s: string) {
    forall i :: 0 <= i < |s| ==> IsSpace(s[i])
  }

  /** A slice of a slice is a slice of the whole. */
  lemma SliceOfSlice(s: string, i: nat, j: nat, x: nat, y: nat)
    requires i <= j <= |s| && x <= y <= j - i
    ensures s[i..j][x..y] == s[i + x..i + y]
  {
    forall k | 0 <= k < y - x ensures s[i..j][x..y][k] == s[i + x..i + y][k] {
      assert s[i..j][x..y][k] == s[i..j][x + k] == s[i + x + k];
    }
  }

  /** A string trims to nothing exactly when it is blank. */
  lemma TrimEmptyIffBlank(s: string)
    ensures Trim(s) == [] <==> IsBlank(s)
  {
    TrimShape(s);
    if !IsBlank(s) {
      var i :| 0 <= i < |s| && !IsSpace(s[i]);
      assert Trim(s) != [];
    }
  }

  /** A string made only of whitespace trims to the empty string. */
  lemma TrimAllSpace(s: string)
    requires forall i :: 0 <= i < |s| ==> IsSpace(s[i])
    ensures Trim(s) == []
  {
  }

  predicate StartsWith(s: string, prefix: string) {
    |prefix| <= |s| && s[..|prefix|] == prefix
  }

  predicate Contains(s: string, c: char) {
    c in s
  }

  /** ASCII lower-casing of one character. */
  function LowerChar(c: char): char {
    if 'A' <= c <= 'Z' then (c as int + 32) as char else c
  }

  /** `s.toLowerCase()`, restricted to the ASCII letters. */
  function ToLower(s: string): (r: string)
    ensures |r| == |s|
    ensures forall i :: 0 <= i < |s| ==> r[i] == LowerChar(s[i])
  {
    seq(|s|, i requires 0 <= i < |s| => LowerChar(s[i]))
  }

  /** `s.split(sep)`: the pieces between the occurrences of `sep`; there is
      always at least one piece and no piece contains `sep`. */
  function Split(s: string, sep: char): (r: seq<string>)
    ensures |r| >= 1
    ensures forall k :: 0 <= k < |r| ==> sep !in r[k]
    decreases |s|
  {
    if s == [] then [""]
    else if s[0] == sep then [""] + Split(s[1..], sep)
    else
      var rest := Split(s[1..], sep);
      [[s[0]] + rest[0]] + rest[1..]
  }

  /** `lines.join(sep)`. */
  function Join(lines: seq<string>, sep: char): string {
    if |lines| == 0 then ""
    else if |lines| == 1 then lines[0]
    else lines[0] + [sep] + Join(lines[1..], sep)
  }

  /** Joining the pieces of a split gives the original string back. */
  lemma {:induction false} JoinSplit(s: string, sep: char)
    ensures Join(Split(s, sep), sep) == s
    decreases |s|
  {
    if s == [] {
    } else if s[0] == sep {
      JoinSplit(s[1..], sep);
      var rest := Split(s[1..], sep);
      assert Split(s, sep) == [""] + rest;
      assert ([""] + rest)[1..] == rest;
    } else {
      JoinSplit(s[1..], sep);
      var rest := Split(s[1..], sep);
      var r := Split(s, sep);
      assert r == [[s[0]] + rest[0]] + rest[1..];
      if |rest| == 1 {
        assert Join(r, sep) == [s[0]] + rest[0];
      } else {
        assert r[1..] == rest[1..];
        assert Join(rest, sep) == rest[0] + [sep] + Join(rest[1..], sep);
        assert Join(r, sep) == [s[0]] + rest[0] + [sep] + Join(rest[1..], sep);
      }
      assert s == [s[0]] + s[1..];
    }
  }

  /** The index of the first `sep` in `s`, or `|s|` when there is none. */
  function IndexOf(s: string, sep: char): (i: nat)
    ensures i <= |s|
    ensures sep !in s[..i]
    ensures i < |s| ==> s[i] == sep
  {
    if s == [] then 0
    else if s[0] == sep then 0
    else
      var j := IndexOf(s[1..], sep);
      assert s[..j + 1] == [s[0]] + s[1..][..j];
      j + 1
  }

  /** Everything after the first `sep` (empty when there is none). */
  function AfterFirst(s: string, sep: char): string {
    var i := IndexOf(s, sep);
    if i < |s| then s[i + 1..] else ""
  }

  /** The first piece of a split is the text before the first separator, and
      the remaining pieces joined back are the text after it. */
  lemma {:induction false} SplitFirst(s: string, sep: char)
    ensures Split(s, sep)[0] == s[..IndexOf(s, sep)]
    ensures Join(Split(s, sep)[1..], sep) == AfterFirst(s, sep)
    decreases |s|
  {
    if s == [] {
    } else if s[0] == sep {
      JoinSplit(s[1..], sep);
      assert (Split(s, sep))[1..] == Split(s[1..], sep);
    } else {
      SplitFirst(s[1..], sep);
      var rest := Split(s[1..], sep);
      assert Split(s, sep)[1..] == rest[1..];
      var j := IndexOf(s[1..], sep);
      assert s[..j + 1] == [s[0]] + s[1..][..j];
      if j < |s[1..]| {
        assert s[j + 2..] == s[1..][j + 1..];
      }
    }
  }
}
