/** The interface language settings: the native and learning languages with
    their swap-on-clash setters, and the message lookup `t`, which picks the
    native language's table, falls back to the key, selects a plural form
    and fills `{{name}}` placeholders from the options. */
module Language {
  import opened TextUtil

  /** An option value: `string | number` (numbers are whole here). */
  datatype OptValue = Str(s: string) | Num(n: int)

  type Options = map<string, OptValue>

  /** A language's table of messages by key. */
  type Table = map<string, string>

  /** JavaScript truthiness of an option value: `""` and `0` are falsy. */
  predicate Truthy(v: OptValue) {
    match v
    case Str(s) => s != []
    case Num(n) => n != 0
  }

  function DigitChar(d: nat): char
    requires d < 10
  {
    ('0' as int + d) as char
  }

  /** The decimal digits of `n`. */
  function NatToString(n: nat): (r: string)
    ensures |r| >= 1
    decreases n
  {
    if n < 10 then [DigitChar(n)] else NatToString(n / 10) + [DigitChar(n % 10)]
  }

  /** The decimal form of a number is made of digits only. */
  lemma {:induction false} NatToStringDigits(n: nat)
    ensures forall i :: 0 <= i < |NatToString(n)| ==> '0' <= NatToString(n)[i] <= '9'
    decreases n
  {
    if n >= 10 {
      NatToStringDigits(n / 10);
      var r := NatToString(n);
      assert r == NatToString(n / 10) + [DigitChar(n % 10)];
      forall i | 0 <= i < |r| ensures '0' <= r[i] <= '9' {
        if i < |NatToString(n / 10)| {
          assert r[i] == NatToString(n / 10)[i];
        }
      }
    }
  }

  /** The number a string of decimal digits denotes, most significant
      digit first; a character that is not a digit counts as zero. */
  function DigitsValue(s: string): nat
    decreases |s|
  {
    if s == [] then 0
    else
      var c := s[|s| - 1];
      DigitsValue(s[..|s| - 1]) * 10 + (if '0' <= c <= '9' then c as int - '0' as int else 0)
  }

  /** Reading the decimal form of `n` back gives `n`. */
  lemma {:induction false} NatToStringValue(n: nat)
    ensures DigitsValue(NatToString(n)) == n
    decreases n
  {
    var r := NatToString(n);
    if n >= 10 {
      NatToStringValue(n / 10);
      assert r[..|r| - 1] == NatToString(n / 10);
    } else {
      assert r[..|r| - 1] == [];
    }
  }

  /** The decimal form starts with `0` only for zero itself, so a number of
      two digits or more has no leading zero. */
  lemma {:induction false} NatToStringLeading(n: nat)
    ensures NatToString(n)[0] == '0' <==> n == 0
    decreases n
  {
    if n >= 10 {
      NatToStringLeading(n / 10);
      assert NatToString(n)[0] == NatToString(n / 10)[0];
    }
  }

  /** `String(v)` */
  function ValueToString(v: OptValue): string {
    match v
    case Str(s) => s
    case Num(n) => if n < 0 then ['-'] + NatToString(-n) else NatToString(n)
  }

  /** `String(options[k] || k)` */
  function Replacement(k: string, options: Options): string {
    if k in options && Truthy(options[k]) then ValueToString(options[k]) else k
  }

  /** The characters of `\w`. */
  predicate IsWordChar(c: char) {
    ('a' <= c <= 'z') || ('A' <= c <= 'Z') || ('0' <= c <= '9') || c == '_'
  }

  /** Greedy `\w*` from `i`. */
  function WordCharsEnd(s: string, i: nat): (e: nat)
    requires i <= |s|
    ensures i <= e <= |s|
    ensures forall k :: i <= k < e ==> IsWordChar(s[k])
    ensures e < |s| ==> !IsWordChar(s[e])
    decreases |s| - i
  {
    if i == |s| || !IsWordChar(s[i]) then i else WordCharsEnd(s, i + 1)
  }

  /** Greedy `[^}]*` from `i`. */
  function NonBraceEnd(s: string, i: nat): (e: nat)
    requires i <= |s|
    ensures i <= e <= |s|
    ensures forall k :: i <= k < e ==> s[k] != '}'
    ensures e < |s| ==> s[e] == '}'
    decreases |s| - i
  {
    if i == |s| || s[i] == '}' then i else NonBraceEnd(s, i + 1)
  }

  predicate StartsAt(s: string, i: nat, p: string) {
    i + |p| <= |s| && s[i..i + |p|] == p
  }

  const PluralOpen: string := "{{count, plural, one{"
  const PluralMiddle: string := "} other{"
  const PluralClose: string := "}}}"

  /** A plural block found at `i`: the `one` text, the `other` text and the
      end of the block. */
  datatype PluralMatch = PluralMatch(one: string, other: string, end: nat)

  /** `{{count, plural, one{([^}]+)} other{([^}]+)}}}` tried at `i`. */
  function PluralAt(s: string, i: nat): (m: Option<PluralMatch>)
    requires i <= |s|
    ensures m.Some? ==> i < m.value.end <= |s|
  {
    if i == |s| || s[i] != '{' || !StartsAt(s, i, PluralOpen) then None
    else
      var a := i + |PluralOpen|;
      var b := NonBraceEnd(s, a);
      if b == a || !StartsAt(s, b, PluralMiddle) then None
      else
        var c := b + |PluralMiddle|;
        var d := NonBraceEnd(s, c);
        if d == c || !StartsAt(s, d, PluralClose) then None
        else Some(PluralMatch(s[a..b], s[c..d], d + |PluralClose|))
  }

  /** The global plural replacement from `i` on: each block becomes its
      `one` text when `isOne` and its `other` text otherwise. */
  function ReplacePlurals(s: string, i: nat, isOne: bool): string
    requires i <= |s|
    decreases |s| - i
  {
    if i == |s| then []
    else match PluralAt(s, i)
      case Some(m) => (if isOne then m.one else m.other) + ReplacePlurals(s, m.end, isOne)
      case None => [s[i]] + ReplacePlurals(s, i + 1, isOne)
  }

  /** The end of a `{{(\w+)}}` placeholder at `i`, if one starts there. */
  function PlaceholderAt(s: string, i: nat): (e: Option<nat>)
    requires i <= |s|
    ensures e.Some? ==> i + 5 <= e.value <= |s|
  {
    if i == |s| || s[i] != '{' || !StartsAt(s, i, "{{") then None
    else
      var w := WordCharsEnd(s, i + 2);
      if w == i + 2 || !StartsAt(s, w, "}}") then None else Some(w + 2)
  }

  /** The global placeholder replacement from `i` on. */
  function ReplacePlaceholders(s: string, i: nat, options: Options): string
    requires i <= |s|
    decreases |s| - i
  {
    if i == |s| then []
    else match PlaceholderAt(s, i)
      case Some(e) => Replacement(s[i + 2..e - 2], options) + ReplacePlaceholders(s, e, options)
      case None => [s[i]] + ReplacePlaceholders(s, i + 1, options)
  }

  /** The message stored for `key`: the native language's table (English
      when the language has none), then the key itself when the entry is
      missing or empty. */
  function Lookup(tables: map<string, Table>, nativeLang: string, key: string): string
    requires "en" in tables
  {
    var table := if nativeLang in tables then tables[nativeLang] else tables["en"];
    if key in table && table[key] != [] then table[key] else key
  }

  /** `t(key, options)` */
  function T(tables: map<string, Table>, nativeLang: string, key: string, options: Option<Options>): string
    requires "en" in tables
  {
    var msg := Lookup(tables, nativeLang, key);
    match options
    case None => msg
    case Some(opts) =>
      var pl := if "count" in opts then ReplacePlurals(msg, 0, opts["count"] == Num(1)) else msg;
      ReplacePlaceholders(pl, 0, opts)
  }

  /** A text with no `{` is copied by both rewrites. */
  lemma {:induction false} PluralsCopyPlain(s: string, i: nat, isOne: bool)
    requires i <= |s| && '{' !in s[i..]
    ensures ReplacePlurals(s, i, isOne) == s[i..]
    decreases |s| - i
  {
    if i < |s| {
      assert s[i] == s[i..][0];
      assert s[i + 1..] == s[i..][1..];
      PluralsCopyPlain(s, i + 1, isOne);
    }
  }

  lemma {:induction false} PlaceholdersCopyPlain(s: string, i: nat, options: Options)
    requires i <= |s| && '{' !in s[i..]
    ensures ReplacePlaceholders(s, i, options) == s[i..]
    decreases |s| - i
  {
    if i < |s| {
      assert s[i] == s[i..][0];
      assert s[i + 1..] == s[i..][1..];
      PlaceholdersCopyPlain(s, i + 1, options);
    }
  }

  /** Scanning a stretch without `{` copies it and carries on after it. */
  lemma {:induction false} PlaceholdersSkipPlain(s: string, i: nat, j: nat, options: Options)
    requires i <= j <= |s| && '{' !in s[i..j]
    ensures ReplacePlaceholders(s, i, options) == s[i..j] + ReplacePlaceholders(s, j, options)
    decreases j - i
  {
    if i < j {
      assert s[i] == s[i..j][0];
      assert s[i + 1..j] == s[i..j][1..];
      calc {
        ReplacePlaceholders(s, i, options);
        [s[i]] + ReplacePlaceholders(s, i + 1, options);
      }
      PlaceholdersSkipPlain(s, i + 1, j, options);
      assert s[i..j] == [s[i]] + s[i + 1..j];
    }
  }

  lemma {:induction false} PluralsSkipPlain(s: string, i: nat, j: nat, isOne: bool)
    requires i <= j <= |s| && '{' !in s[i..j]
    ensures ReplacePlurals(s, i, isOne) == s[i..j] + ReplacePlurals(s, j, isOne)
    decreases j - i
  {
    if i < j {
      assert s[i] == s[i..j][0];
      assert s[i + 1..j] == s[i..j][1..];
      assert ReplacePlurals(s, i, isOne) == [s[i]] + ReplacePlurals(s, i + 1, isOne);
      PluralsSkipPlain(s, i + 1, j, isOne);
      assert s[i..j] == [s[i]] + s[i + 1..j];
    }
  }

  /** Without options the stored message comes back unchanged; with options
      a message without `{` comes back unchanged too. */
  lemma {:induction false} TPlainMessage(tables: map<string, Table>, nativeLang: string, key: string, options: Option<Options>)
    requires "en" in tables
    requires options.Some? ==> '{' !in Lookup(tables, nativeLang, key)
    ensures T(tables, nativeLang, key, options) == Lookup(tables, nativeLang, key)
  {
    var msg := Lookup(tables, nativeLang, key);
    if options.Some? {
      var opts := options.value;
      assert msg[0..] == msg;
      if "count" in opts {
        PluralsCopyPlain(msg, 0, opts["count"] == Num(1));
      }
      PlaceholdersCopyPlain(msg, 0, opts);
    }
  }

  /** The table and key fallbacks: a language without a table reads the
      English one, and a key that is missing or empty in the chosen table
      yields the key itself (English is not consulted for it). */
  lemma {:induction false} LookupFallbacks(tables: map<string, Table>, nativeLang: string, key: string)
    requires "en" in tables
    ensures nativeLang !in tables ==> Lookup(tables, nativeLang, key) == Lookup(tables, "en", key)
    ensures nativeLang in tables && (key !in tables[nativeLang] || tables[nativeLang][key] == [])
            ==> Lookup(tables, nativeLang, key) == key
    ensures nativeLang in tables && key in tables[nativeLang] && tables[nativeLang][key] != []
            ==> Lookup(tables, nativeLang, key) == tables[nativeLang][key]
  {
  }

  /** One placeholder between two texts without `{`: it is replaced by the
      option's text when the option is set and truthy, and by its own name
      otherwise (a count of 0 shows the name). */
  lemma {:induction false} OnePlaceholder(a: string, k: string, b: string, options: Options)
    requires '{' !in a && '{' !in b
    requires |k| > 0 && forall i :: 0 <= i < |k| ==> IsWordChar(k[i])
    ensures ReplacePlaceholders(a + "{{" + k + "}}" + b, 0, options) == a + Replacement(k, options) + b
    ensures k in options && Truthy(options[k]) ==> Replacement(k, options) == ValueToString(options[k])
    ensures k !in options || !Truthy(options[k]) ==> Replacement(k, options) == k
  {
    PlaceholderPieces(a, k, b);
    ReplaceAroundPlaceholder(a + "{{" + k + "}}" + b, a, k, b, options);
  }

  /** `s` is `a`, then `n` characters, then `b`. */
  predicate Around(s: string, a: string, n: nat, b: string) {
    |s| == |a| + n + |b| && s[0..|a|] == a && s[|a| + n..] == b
  }

  lemma {:induction false} AroundConcat(a: string, m: string, b: string)
    ensures Around(a + m + b, a, |m|, b)
  {
  }

  /** `s` is `a`, then the placeholder `{{k}}`, then `b`. */
  predicate PlaceholderLayout(s: string, a: string, k: string, b: string) {
    Around(s, a, 2 + |k| + 2, b)
    && StartsAt(s, |a|, "{{") && s[|a| + 2..|a| + 2 + |k|] == k && StartsAt(s, |a| + 2 + |k|, "}}")
  }

  /** A text that is `a`, then a placeholder named `k`, then `b`, with no
      `{` in `a` or `b`: the placeholder is replaced and the rest copied. */
  lemma {:induction false} ReplaceAroundPlaceholder(s: string, a: string, k: string, b: string, options: Options)
    requires '{' !in a && '{' !in b
    requires |k| > 0 && forall i :: 0 <= i < |k| ==> IsWordChar(k[i])
    requires PlaceholderLayout(s, a, k, b)
    ensures ReplacePlaceholders(s, 0, options) == a + Replacement(k, options) + b
  {
    var p := |a|;
    var e := p + 2 + |k| + 2;
    AroundEnds(s, a, 2 + |k| + 2, b, e);
    PlaceholdersSkipPlain(s, 0, p, options);
    PlaceholderStep(s, p, e, k, options);
    PlaceholdersCopyPlain(s, e, options);
    Assemble(ReplacePlaceholders(s, 0, options), ReplacePlaceholders(s, p, options),
             ReplacePlaceholders(s, e, options), s[0..p], s[e..], a, Replacement(k, options), b);
  }

  /** The two ends of a text laid out by `Around`, with the end of the middle
      written as `e`. */
  lemma {:induction false} AroundEnds(s: string, a: string, n: nat, b: string, e: nat)
    requires Around(s, a, n, b) && e == |a| + n
    ensures s[0..|a|] == a && s[e..] == b
  {
  }

  /** Three rewrites in a row that leave `a`, then `r`, then `b`. */
  lemma {:induction false} Assemble(r0: string, r1: string, r2: string, head: string, tail: string, a: string, r: string, b: string)
    requires r0 == head + r1 && r1 == r + r2 && r2 == tail && head == a && tail == b
    ensures r0 == a + r + b
  {
  }

  /** A placeholder named `k` at `p` is replaced and the scan goes on after
      it. */
  lemma {:induction false} PlaceholderStep(s: string, p: nat, e: nat, k: string, options: Options)
    requires e == p + 2 + |k| + 2 && e <= |s|
    requires StartsAt(s, p, "{{") && StartsAt(s, p + 2 + |k|, "}}")
    requires s[p + 2..p + 2 + |k|] == k
    requires |k| > 0 && forall i :: 0 <= i < |k| ==> IsWordChar(k[i])
    ensures ReplacePlaceholders(s, p, options) == Replacement(k, options) + ReplacePlaceholders(s, e, options)
  {
    PlaceholderFound(s, p, k);
    PlaceholderReplaced(s, p, e, options);
    assert s[p + 2..e - 2] == k;
  }

  /** Where a placeholder is found, its name is replaced and the scan goes on
      after it. */
  lemma {:induction false} PlaceholderReplaced(s: string, i: nat, e: nat, options: Options)
    requires i < |s| && PlaceholderAt(s, i) == Some(e)
    ensures i + 5 <= e <= |s|
    ensures ReplacePlaceholders(s, i, options) == Replacement(s[i + 2..e - 2], options) + ReplacePlaceholders(s, e, options)
  {
    var k := s[i + 2..e - 2];
    var rest := ReplacePlaceholders(s, e, options);
    calc {
      ReplacePlaceholders(s, i, options);
      Replacement(k, options) + rest;
    }
  }

  /** Where the pieces of a placeholder sit in a text that contains it. */
  lemma {:induction false} PlaceholderPieces(a: string, k: string, b: string)
    ensures PlaceholderLayout(a + "{{" + k + "}}" + b, a, k, b)
  {
    var s := a + "{{" + k + "}}" + b;
    AroundConcat(a, "{{" + k + "}}", b);
    assert s == a + ("{{" + k + "}}") + b;
    PieceAt(a, "{{", k + "}}" + b);
    PieceAt(a + "{{", k, "}}" + b);
    PieceAt(a + "{{" + k, "}}", b);
  }

  /** The placeholder whose name sits at `p + 2` is matched at `p`. */
  lemma {:induction false} PlaceholderFound(s: string, p: nat, k: string)
    requires p + 2 + |k| + 2 <= |s|
    requires StartsAt(s, p, "{{") && StartsAt(s, p + 2 + |k|, "}}")
    requires s[p + 2..p + 2 + |k|] == k
    requires |k| > 0 && forall i :: 0 <= i < |k| ==> IsWordChar(k[i])
    ensures PlaceholderAt(s, p) == Some(p + 2 + |k| + 2)
  {
    assert s[p] == "{{"[0];
    assert s[p + 2 + |k|] == "}}"[0];
    WordRunEndsAtBraces(s, p, k);
  }

  lemma {:induction false} WordRunEndsAtBraces(s: string, p: nat, k: string)
    requires p + 2 + |k| + 2 <= |s|
    requires s[p + 2..p + 2 + |k|] == k && s[p + 2 + |k|] == '}'
    requires forall i :: 0 <= i < |k| ==> IsWordChar(k[i])
    ensures WordCharsEnd(s, p + 2) == p + 2 + |k|
  {
  }

  /** The text of a plural block with the given forms. */
  function PluralBlock(one: string, other: string): string {
    PluralOpen + one + PluralMiddle + other + PluralClose
  }

  /** One plural block between two texts without `{`: a count of exactly
      (the number) 1 selects the `one` form, anything else the `other`
      form. */
  lemma {:induction false} OnePluralBlock(a: string, one: string, other: string, b: string, isOne: bool)
    requires '{' !in a && '{' !in b
    requires |one| > 0 && '}' !in one && |other| > 0 && '}' !in other
    ensures ReplacePlurals(a + PluralBlock(one, other) + b, 0, isOne) == a + (if isOne then one else other) + b
  {
    var s := a + PluralBlock(one, other) + b;
    PluralBlockMatches(a, one, other, b);
    AroundConcat(a, PluralBlock(one, other), b);
    ReplaceAroundBlock(s, a, PluralMatch(one, other, |a| + |PluralBlock(one, other)|), b, isOne);
  }

  /** A text that is `a`, then a plural block, then `b`, with no `{` in `a`
      or `b`: the block is rewritten and the rest is copied. */
  lemma {:induction false} ReplaceAroundBlock(s: string, a: string, m: PluralMatch, b: string, isOne: bool)
    requires '{' !in a && '{' !in b
    requires |a| <= m.end && Around(s, a, m.end - |a|, b)
    requires PluralAt(s, |a|) == Some(m)
    ensures ReplacePlurals(s, 0, isOne) == a + (if isOne then m.one else m.other) + b
  {
    var x := if isOne then m.one else m.other;
    calc {
      ReplacePlurals(s, 0, isOne);
    ==  { PluralsSkipPlain(s, 0, |a|, isOne); }
      a + ReplacePlurals(s, |a|, isOne);
    ==  { PluralStep(s, |a|, isOne); }
      a + (x + ReplacePlurals(s, m.end, isOne));
    ==  { PluralsCopyPlain(s, m.end, isOne); }
      a + (x + b);
    ==
      a + x + b;
    }
  }

  /** A plural block matched at `i` is rewritten and the scan goes on after
      it. */
  lemma {:induction false} PluralStep(s: string, i: nat, isOne: bool)
    requires i < |s| && PluralAt(s, i).Some?
    ensures var m := PluralAt(s, i).value;
            ReplacePlurals(s, i, isOne) == (if isOne then m.one else m.other) + ReplacePlurals(s, m.end, isOne)
  {
  }

  /** A plural block is matched where it starts, with its two forms. */
  lemma {:induction false} PluralBlockMatches(a: string, one: string, other: string, b: string)
    requires '}' !in one && |one| > 0 && '}' !in other && |other| > 0
    ensures PluralAt(a + PluralBlock(one, other) + b, |a|)
            == Some(PluralMatch(one, other, |a| + |PluralBlock(one, other)|))
  {
    StartsAtConcat(a, PluralBlock(one, other), b);
    HeldBlockMatches(a + PluralBlock(one, other) + b, |a|, one, other, PluralBlock(one, other));
  }

  /** A plural block held at `i` is matched there. */
  lemma {:induction false} HeldBlockMatches(s: string, i: nat, one: string, other: string, t: string)
    requires '}' !in one && |one| > 0 && '}' !in other && |other| > 0
    requires t == PluralBlock(one, other) && StartsAt(s, i, t)
    ensures PluralAt(s, i) == Some(PluralMatch(one, other, i + |PluralBlock(one, other)|))
  {
    BlockLayoutAt(s, i, one, other);
    BlockAt(s, i, one, other);
  }

  /** The pieces of a plural block with the given forms sit at `i`. */
  predicate BlockLayout(s: string, i: nat, one: string, other: string) {
    i + |PluralOpen| + |one| + |PluralMiddle| + |other| + |PluralClose| <= |s|
    && s[i..i + |PluralOpen|] == PluralOpen
    && s[i + |PluralOpen|..i + |PluralOpen| + |one|] == one
    && s[i + |PluralOpen| + |one|..i + |PluralOpen| + |one| + |PluralMiddle|] == PluralMiddle
    && s[i + |PluralOpen| + |one| + |PluralMiddle|..i + |PluralOpen| + |one| + |PluralMiddle| + |other|] == other
    && s[i + |PluralOpen| + |one| + |PluralMiddle| + |other|..i + |PluralOpen| + |one| + |PluralMiddle| + |other| + |PluralClose|] == PluralClose
  }

  /** A block's own pieces, at offset 0. */
  lemma {:induction false} BlockPieces(one: string, other: string)
    ensures BlockLayout(PluralBlock(one, other), 0, one, other)
  {
    var p1 := PluralOpen + one;
    var p2 := p1 + PluralMiddle;
    var p3 := p2 + other;
    PieceAt([], PluralOpen, one + PluralMiddle + other + PluralClose);
    PieceAt(PluralOpen, one, PluralMiddle + other + PluralClose);
    PieceAt(p1, PluralMiddle, other + PluralClose);
    PieceAt(p2, other, PluralClose);
    PieceAt(p3, PluralClose, []);
  }

  /** The pieces found in a block carry over to a text that holds the block
      at `i`. */
  lemma {:induction false} BlockLayoutAt(s: string, i: nat, one: string, other: string)
    requires i + |PluralBlock(one, other)| <= |s| && s[i..i + |PluralBlock(one, other)|] == PluralBlock(one, other)
    ensures BlockLayout(s, i, one, other)
  {
    var t := PluralBlock(one, other);
    BlockPieces(one, other);
    var o := |PluralOpen|;
    var a := o + |one|;
    var c := a + |PluralMiddle|;
    var d := c + |other|;
    PieceOfHeld(s, i, t, 0, o, PluralOpen);
    PieceOfHeld(s, i, t, o, a, one);
    PieceOfHeld(s, i, t, a, c, PluralMiddle);
    PieceOfHeld(s, i, t, c, d, other);
    PieceOfHeld(s, i, t, d, d + |PluralClose|, PluralClose);
  }

  /** A piece of a held text is the same piece of the holding text. */
  lemma {:induction false} PieceOfHeld(s: string, i: nat, t: string, x: nat, y: nat, p: string)
    requires i + |t| <= |s| && s[i..i + |t|] == t
    requires x <= y <= |t| && t[x..y] == p
    ensures s[i + x..i + y] == p
  {
    forall k | 0 <= k < y - x ensures s[i + x..i + y][k] == p[k] {
      assert p[k] == t[x + k] == s[i..i + |t|][x + k];
    }
  }

  /** The plural block whose pieces sit at `i` is matched there. */
  lemma {:induction false} BlockAt(s: string, i: nat, one: string, other: string)
    requires '}' !in one && |one| > 0 && '}' !in other && |other| > 0
    requires BlockLayout(s, i, one, other)
    ensures PluralAt(s, i) == Some(PluralMatch(one, other, i + |PluralBlock(one, other)|))
  {
    var a := i + |PluralOpen|;
    var b := a + |one|;
    var c := b + |PluralMiddle|;
    var d := c + |other|;
    assert s[i] == PluralOpen[0];
    assert s[b] == PluralMiddle[0];
    assert s[d] == PluralClose[0];
    BraceRunEnds(s, a, one);
    BraceRunEnds(s, c, other);
    PluralAtIntro(s, i, b, d);
    assert |PluralBlock(one, other)| == |PluralOpen| + |one| + |PluralMiddle| + |other| + |PluralClose|;
  }

  /** `PluralAt` spelled out for a block whose runs end where given. */
  lemma {:induction false} PluralAtIntro(s: string, i: nat, b: nat, d: nat)
    requires i < |s| && s[i] == '{' && StartsAt(s, i, PluralOpen)
    requires i + |PluralOpen| < b <= |s| && NonBraceEnd(s, i + |PluralOpen|) == b && StartsAt(s, b, PluralMiddle)
    requires b + |PluralMiddle| < d <= |s| && NonBraceEnd(s, b + |PluralMiddle|) == d && StartsAt(s, d, PluralClose)
    ensures PluralAt(s, i) == Some(PluralMatch(s[i + |PluralOpen|..b], s[b + |PluralMiddle|..d], d + |PluralClose|))
  {
  }

  /** The middle piece of a concatenation of three. */
  lemma {:induction false} PieceAt(x: string, y: string, z: string)
    ensures (x + y + z)[|x|..|x| + |y|] == y
  {
  }

  lemma {:induction false} StartsAtConcat(a: string, t: string, b: string)
    ensures StartsAt(a + t + b, |a|, t)
  {
    PieceAt(a, t, b);
  }

  lemma {:induction false} BraceRunEnds(s: string, i: nat, x: string)
    requires i + |x| < |s| && s[i..i + |x|] == x && '}' !in x && s[i + |x|] == '}'
    ensures NonBraceEnd(s, i) == i + |x|
  {
  }

  /** A text that differs from `p` at its `j`-th character does not start
      with `p` at `i`. */
  lemma {:induction false} Mismatch(s: string, i: nat, p: string, j: nat)
    requires j < |p| && i + j < |s| && s[i + j] != p[j]
    ensures !StartsAt(s, i, p)
  {
    if i + |p| <= |s| {
      assert s[i..i + |p|][j] != p[j];
    }
  }

  /** `s` holds the placeholder `{{k}}` from `q` up to `n`. */
  predicate PlaceholderHeld(s: string, q: nat, n: nat, k: string) {
    n == q + 4 + |k| && n <= |s| && s[q..n] == "{{" + k + "}}"
  }

  /** The characters of a held placeholder. */
  lemma {:induction false} HeldChars(s: string, q: nat, n: nat, k: string)
    requires PlaceholderHeld(s, q, n, k)
    ensures s[q] == '{' && s[q + 1] == '{' && s[q + 2 + |k|] == '}'
    ensures forall i :: 0 <= i < |k| ==> s[q + 2 + i] == k[i]
    ensures s[q + 2..n] == k + "}}"
  {
    var h := "{{" + k + "}}";
    assert s[q] == h[0] && s[q + 1] == h[1] && s[q + 2 + |k|] == h[2 + |k|];
    forall i | 0 <= i < |k| ensures s[q + 2 + i] == k[i] {
      assert s[q + 2 + i] == h[2 + i];
    }
    assert s[q + 2..n] == h[2..];
  }

  /** A name made of word characters holds no brace. */
  lemma {:induction false} WordNoBrace(k: string)
    requires forall i :: 0 <= i < |k| ==> IsWordChar(k[i])
    ensures '{' !in k + "}}"
  {
  }

  /** The plural pattern does not match at either brace of a `{{k}}`
      placeholder, not even for `{{count}}`, so the plural pass copies the
      placeholder. */
  lemma {:induction false} PluralsPassPlaceholder(s: string, q: nat, n: nat, k: string, isOne: bool)
    requires |k| > 0 && forall i :: 0 <= i < |k| ==> IsWordChar(k[i])
    requires PlaceholderHeld(s, q, n, k)
    ensures ReplacePlurals(s, q, isOne) == s[q..n] + ReplacePlurals(s, n, isOne)
  {
    HeldChars(s, q, n, k);
    if |k| >= 6 {
      assert s[q + 2 + 5] == k[5];
      Mismatch(s, q, PluralOpen, 7);
    } else {
      assert PluralOpen[2 + |k|] != '}';
      Mismatch(s, q, PluralOpen, 2 + |k|);
    }
    assert s[q + 1 + 1] == k[0];
    Mismatch(s, q + 1, PluralOpen, 1);
    WordNoBrace(k);
    calc {
      ReplacePlurals(s, q, isOne);
    ==  { PluralsNoMatch(s, q, isOne); }
      [s[q]] + ReplacePlurals(s, q + 1, isOne);
    ==  { PluralsNoMatch(s, q + 1, isOne); }
      [s[q]] + ([s[q + 1]] + ReplacePlurals(s, q + 2, isOne));
    ==  { PluralsSkipPlain(s, q + 2, n, isOne); }
      [s[q]] + ([s[q + 1]] + (s[q + 2..n] + ReplacePlurals(s, n, isOne)));
    ==  { SplitTwo(s, q, n); }
      s[q..n] + ReplacePlurals(s, n, isOne);
    }
  }

  /** Where no plural block starts, one character is copied. */
  lemma {:induction false} PluralsNoMatch(s: string, i: nat, isOne: bool)
    requires i < |s| && !StartsAt(s, i, PluralOpen)
    ensures ReplacePlurals(s, i, isOne) == [s[i]] + ReplacePlurals(s, i + 1, isOne)
  {
  }

  /** The first two characters split off a stretch. */
  lemma {:induction false} SplitTwo(s: string, q: nat, n: nat)
    requires q + 2 <= n <= |s|
    ensures forall r: string {:trigger s[q..n] + r} :: [s[q]] + ([s[q + 1]] + (s[q + 2..n] + r)) == s[q..n] + r
  {
    forall r: string ensures [s[q]] + ([s[q + 1]] + (s[q + 2..n] + r)) == s[q..n] + r {
      assert s[q..n] == [s[q]] + ([s[q + 1]] + s[q + 2..n]);
    }
  }

  /** A held placeholder is replaced and the brace-free rest after it is
      copied. */
  lemma {:induction false} PlaceholderThenPlain(s: string, q: nat, n: nat, k: string, options: Options)
    requires |k| > 0 && forall i :: 0 <= i < |k| ==> IsWordChar(k[i])
    requires PlaceholderHeld(s, q, n, k) && '{' !in s[n..]
    ensures ReplacePlaceholders(s, q, options) == Replacement(k, options) + s[n..]
  {
    PlaceholderHeldStep(s, q, n, k, options);
    PlaceholdersCopyPlain(s, n, options);
  }

  /** A held placeholder is replaced and the scan goes on at its end. */
  lemma {:induction false} PlaceholderHeldStep(s: string, q: nat, n: nat, k: string, options: Options)
    requires |k| > 0 && forall i :: 0 <= i < |k| ==> IsWordChar(k[i])
    requires PlaceholderHeld(s, q, n, k)
    ensures ReplacePlaceholders(s, q, options) == Replacement(k, options) + ReplacePlaceholders(s, n, options)
  {
    HeldChars(s, q, n, k);
    assert StartsAt(s, q, "{{") by {
      assert s[q..q + 2] == [s[q], s[q + 1]];
    }
    assert StartsAt(s, q + 2 + |k|, "}}") by {
      assert s[q + 2 + |k|..n] == (k + "}}")[|k|..];
    }
    assert s[q + 2..q + 2 + |k|] == (k + "}}")[..|k|];
    PlaceholderFound(s, q, k);
    PlaceholderReplaced(s, q, n, options);
    assert s[q + 2..n - 2] == k;
  }

  /** The three parts of `p + {{k}} + r`. */
  lemma {:induction false} PlaceholderConcat(p: string, k: string, r: string, n: nat)
    requires n == |p| + 4 + |k|
    ensures PlaceholderHeld(p + "{{" + k + "}}" + r, |p|, n, k)
    ensures (p + "{{" + k + "}}" + r)[..|p|] == p
    ensures (p + "{{" + k + "}}" + r)[n..] == r
  {
    var s := p + "{{" + k + "}}" + r;
    assert s == p + ("{{" + k + "}}") + r;
    PieceAt(p, "{{" + k + "}}", r);
  }

  /** `p`, then `{{k}}`, then `a`, then a plural block, then `b`: the plural
      pass copies everything but the block, which it rewrites. */
  lemma {:induction false} PluralsAfterPlaceholder(s: string, c: string, q: nat, n: nat, k: string,
                                                   m: PluralMatch, w: nat, b: string, isOne: bool)
    requires |k| > 0 && forall i :: 0 <= i < |k| ==> IsWordChar(k[i])
    requires PlaceholderHeld(c, q, n, k) && '{' !in c[..q] && '{' !in c[n..]
    requires m.end == |c| + w && Around(s, c, w, b) && '{' !in b
    requires PluralAt(s, |c|) == Some(m)
    ensures ReplacePlurals(s, 0, isOne) == c + (if isOne then m.one else m.other) + b
  {
    PluralsSkipHead(s, c, q, isOne);
    PluralsPassHeld(s, c, q, n, k, isOne);
    PluralsSkipTail(s, c, n, m, w, b, isOne);
    Chain(ReplacePlurals(s, 0, isOne), ReplacePlurals(s, q, isOne), ReplacePlurals(s, n, isOne),
          c, q, n, if isOne then m.one else m.other, b);
  }

  /** Three rewrites in a row, over the three pieces of `c`. */
  lemma {:induction false} Chain(r0: string, r1: string, r2: string, c: string, q: nat, n: nat, x: string, b: string)
    requires q <= n <= |c|
    requires r0 == c[..q] + r1 && r1 == c[q..n] + r2 && r2 == c[n..] + (x + b)
    ensures r0 == c + x + b
  {
    assert c[..q] + c[q..n] + c[n..] == c;
  }

  /** The plural pass copies a placeholder held in a prefix `c` of `s`. */
  lemma {:induction false} PluralsPassHeld(s: string, c: string, q: nat, n: nat, k: string, isOne: bool)
    requires |k| > 0 && forall i :: 0 <= i < |k| ==> IsWordChar(k[i])
    requires |c| <= |s| && s[..|c|] == c && PlaceholderHeld(c, q, n, k)
    ensures ReplacePlurals(s, q, isOne) == c[q..n] + ReplacePlurals(s, n, isOne)
  {
    assert q <= n <= |c|;
    forall j | q <= j < n
      ensures s[j] == c[j]
    {
      assert s[j] == s[..|c|][j];
    }
    assert s[q..n] == c[q..n];
    PluralsPassPlaceholder(s, q, n, k, isOne);
  }

  /** A plural block followed by brace-free text to the end. */
  lemma {:induction false} PluralsBlockThenPlain(s: string, c: string, m: PluralMatch, w: nat, b: string, isOne: bool)
    requires m.end == |c| + w && Around(s, c, w, b) && '{' !in b
    requires PluralAt(s, |c|) == Some(m)
    ensures ReplacePlurals(s, |c|, isOne) == (if isOne then m.one else m.other) + b
  {
    PluralStep(s, |c|, isOne);
    PluralsCopyPlain(s, m.end, isOne);
  }

  /** The plural pass copies a brace-free start of a prefix `c` of `s`. */
  lemma {:induction false} PluralsSkipHead(s: string, c: string, q: nat, isOne: bool)
    requires q <= |c| <= |s| && s[..|c|] == c && '{' !in c[..q]
    ensures ReplacePlurals(s, 0, isOne) == c[..q] + ReplacePlurals(s, q, isOne)
  {
    assert s[0..q] == c[..q];
    PluralsSkipPlain(s, 0, q, isOne);
  }

  /** The plural pass copies a brace-free end of a prefix `c` of `s`, then
      rewrites the plural block after it and copies the rest. */
  lemma {:induction false} PluralsSkipTail(s: string, c: string, n: nat, m: PluralMatch, w: nat, b: string, isOne: bool)
    requires n <= |c| && m.end == |c| + w && Around(s, c, w, b) && '{' !in c[n..] && '{' !in b
    requires PluralAt(s, |c|) == Some(m)
    ensures ReplacePlurals(s, n, isOne) == c[n..] + ((if isOne then m.one else m.other) + b)
  {
    assert s[n..|c|] == c[n..];
    PluralsSkipPlain(s, n, |c|, isOne);
    PluralsBlockThenPlain(s, c, m, w, b, isOne);
  }

  /** The plural pass over a counted message `p{{k}}a` + block + `b`. */
  lemma {:induction false} CountedPlurals(p: string, k: string, a: string, one: string, other: string, b: string, isOne: bool)
    requires |k| > 0 && forall i :: 0 <= i < |k| ==> IsWordChar(k[i])
    requires '{' !in p && '{' !in a && '{' !in b
    requires |one| > 0 && '}' !in one && |other| > 0 && '}' !in other
    ensures ReplacePlurals(p + "{{" + k + "}}" + a + PluralBlock(one, other) + b, 0, isOne)
            == p + "{{" + k + "}}" + a + (if isOne then one else other) + b
  {
    var c := p + "{{" + k + "}}" + a;
    var pb := PluralBlock(one, other);
    var n := |p| + 4 + |k|;
    CountedLayout(c, p, k, a, pb, b, n);
    PluralBlockMatches(c, one, other, b);
    PluralsAfterPlaceholder(c + pb + b, c, |p|, n, k, PluralMatch(one, other, |c| + |pb|), |pb|, b, isOne);
  }

  /** Where the placeholder and the plural block of a counted message sit. */
  lemma {:induction false} CountedLayout(c: string, p: string, k: string, a: string, pb: string, b: string, n: nat)
    requires c == p + "{{" + k + "}}" + a && n == |p| + 4 + |k|
    ensures Around(c + pb + b, c, |pb|, b)
    ensures PlaceholderHeld(c, |p|, n, k) && c[..|p|] == p && c[n..] == a
  {
    AroundConcat(c, pb, b);
    PlaceholderConcat(p, k, a, n);
  }

  /** The placeholder pass over `p{{k}}r` with no other brace. */
  lemma {:induction false} CountedPlaceholder(p: string, k: string, r: string, options: Options)
    requires |k| > 0 && forall i :: 0 <= i < |k| ==> IsWordChar(k[i])
    requires '{' !in p && '{' !in r
    ensures ReplacePlaceholders(p + "{{" + k + "}}" + r, 0, options) == p + (Replacement(k, options) + r)
  {
    var s := p + "{{" + k + "}}" + r;
    PlaceholderConcat(p, k, r, |p| + 4 + |k|);
    PlaceholdersSkipPlain(s, 0, |p|, options);
    PlaceholderThenPlain(s, |p|, |p| + 4 + |k|, k, options);
  }

  /** Regroupings of a counted message. */
  lemma {:induction false} Regroup(p: string, h: string, a: string, x: string, b: string)
    ensures p + h + a + x + b == p + h + (a + x + b)
    ensures p + (h + (a + x + b)) == p + h + a + x + b
  {
  }

  /** `t` on a counted message such as `{{count}} {{count, plural, one{Player}
      other{Players}}}` with a `count` option: the block becomes its `one`
      form for the number 1 and its `other` form otherwise, and the
      placeholder becomes the count, or its own name when the count is
      falsy. */
  lemma {:induction false} TCountedMessage(tables: map<string, Table>, nativeLang: string, key: string, opts: Options,
                                           p: string, k: string, a: string, one: string, other: string, b: string)
    requires "en" in tables && "count" in opts
    requires Lookup(tables, nativeLang, key) == p + "{{" + k + "}}" + a + PluralBlock(one, other) + b
    requires |k| > 0 && forall i :: 0 <= i < |k| ==> IsWordChar(k[i])
    requires '{' !in p && '{' !in a && '{' !in b
    requires |one| > 0 && '}' !in one && '{' !in one && |other| > 0 && '}' !in other && '{' !in other
    ensures T(tables, nativeLang, key, Some(opts))
            == p + Replacement(k, opts) + a + (if opts["count"] == Num(1) then one else other) + b
    ensures k == "count" && opts["count"] == Num(1) ==> T(tables, nativeLang, key, Some(opts)) == p + "1" + a + one + b
    ensures k == "count" && opts["count"] == Num(0) ==> T(tables, nativeLang, key, Some(opts)) == p + "count" + a + other + b
  {
    var isOne := opts["count"] == Num(1);
    var x := if isOne then one else other;
    var rest := a + x + b;
    var pl := ReplacePlurals(Lookup(tables, nativeLang, key), 0, isOne);
    CountedPluralsRegrouped(Lookup(tables, nativeLang, key), p, k, a, one, other, b, isOne);
    calc {
      T(tables, nativeLang, key, Some(opts));
    ==
      ReplacePlaceholders(pl, 0, opts);
    ==  { CountedPlaceholder(p, k, rest, opts); }
      p + (Replacement(k, opts) + rest);
    ==  { Regroup(p, Replacement(k, opts), a, x, b); }
      p + Replacement(k, opts) + a + x + b;
    }
    CountReplacement(opts);
  }

  /** The plural pass over a counted message, grouped for the placeholder
      pass. */
  lemma {:induction false} CountedPluralsRegrouped(msg: string, p: string, k: string, a: string, one: string, other: string, b: string, isOne: bool)
    requires msg == p + "{{" + k + "}}" + a + PluralBlock(one, other) + b
    requires |k| > 0 && forall i :: 0 <= i < |k| ==> IsWordChar(k[i])
    requires '{' !in p && '{' !in a && '{' !in b
    requires |one| > 0 && '}' !in one && |other| > 0 && '}' !in other
    ensures ReplacePlurals(msg, 0, isOne) == p + "{{" + k + "}}" + (a + (if isOne then one else other) + b)
  {
    CountedPlurals(p, k, a, one, other, b, isOne);
    Regroup(p, "{{" + k + "}}", a, if isOne then one else other, b);
  }

  /** The `count` placeholder shows the number 1 as `1` and the falsy 0 as
      its own name. */
  lemma {:induction false} CountReplacement(opts: Options)
    requires "count" in opts
    ensures opts["count"] == Num(1) ==> Replacement("count", opts) == "1"
    ensures opts["count"] == Num(0) ==> Replacement("count", opts) == "count"
  {
  }

  /** The native and learning languages as a pair. */
  datatype Langs = Langs(native: string, learning: string)

  /** `setNativeLang`: choosing the current learning language swaps. */
  function WithNative(p: Langs, lang: string): (r: Langs)
    ensures r.native == lang
    ensures lang == p.learning ==> r.learning == p.native
    ensures lang != p.learning ==> r.learning == p.learning
  {
    Langs(lang, if lang == p.learning then p.native else p.learning)
  }

  /** `setLearningLang`: choosing the current native language swaps. */
  function WithLearning(p: Langs, lang: string): (r: Langs)
    ensures r.learning == lang
    ensures lang == p.native ==> r.native == p.learning
    ensures lang != p.native ==> r.native == p.native
  {
    Langs(if lang == p.native then p.learning else p.native, lang)
  }

  /** Both setters keep the two languages apart when they were apart. */
  lemma {:induction false} SettersKeepDistinct(p: Langs, lang: string)
    requires p.native != p.learning
    ensures WithNative(p, lang).native != WithNative(p, lang).learning
    ensures WithLearning(p, lang).native != WithLearning(p, lang).learning
  {
  }

  /** Choosing the learning language as native swaps the pair, and choosing
      the old native language again swaps it back. */
  lemma {:induction false} SwapTwiceRestores(p: Langs)
    requires p.native != p.learning
    ensures WithNative(p, p.learning) == Langs(p.learning, p.native)
    ensures WithNative(WithNative(p, p.learning), p.native) == p
    ensures WithLearning(WithLearning(p, p.native), p.learning) == p
  {
  }

  /** The two languages, as the settings provider keeps them. */
  class LanguageSettings {
    var nativeLang: string
    var learningLang: string

    /** Initial state from storage: a missing or empty stored value falls
        back to Portuguese (native) and English (learning). */
    constructor (storedNative: Option<string>, storedLearning: Option<string>)
      ensures nativeLang == (if storedNative.Some? && storedNative.value != [] then storedNative.value else "pt")
      ensures learningLang == (if storedLearning.Some? && storedLearning.value != [] then storedLearning.value else "en")
    {
      nativeLang := if storedNative.Some? && storedNative.value != [] then storedNative.value else "pt";
      learningLang := if storedLearning.Some? && storedLearning.value != [] then storedLearning.value else "en";
    }

    method SetNativeLang(lang: string)
      modifies this
      ensures Langs(nativeLang, learningLang) == WithNative(Langs(old(nativeLang), old(learningLang)), lang)
      ensures old(nativeLang) != old(learningLang) ==> nativeLang != learningLang
    {
      if lang == learningLang {
        learningLang := nativeLang;
      }
      nativeLang := lang;
    }

    method SetLearningLang(lang: string)
      modifies this
      ensures Langs(nativeLang, learningLang) == WithLearning(Langs(old(nativeLang), old(learningLang)), lang)
      ensures old(nativeLang) != old(learningLang) ==> nativeLang != learningLang
    {
      if lang == nativeLang {
        nativeLang := learningLang;
      }
      learningLang := lang;
    }
  }
}
