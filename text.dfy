/**
 * The .NET string operations the inspection rules rely on, stated over `seq<char>`:
 * String.IsNullOrWhiteSpace / IsNullOrEmpty, Split on one character, Trim,
 * StartsWith, Contains, ToLower / ToUpper (ASCII folding), Boolean.Parse, and the
 * removal of double-quoted literals done with the pattern `"([^"]*)"`.
 */
module Text {
  import opened Wrappers

  /** Char.IsWhiteSpace: the Unicode space separators, U+0009..U+000D, U+0085,
      and the line and paragraph separators. */
  predicate IsWhiteSpace(c: char) {
    || c == ' '
    || ('\t' <= c <= '\r')
    || c == '\U{0085}' || c == '\U{00A0}' || c == '\U{1680}'
    || ('\U{2000}' <= c <= '\U{200A}')
    || c == '\U{2028}' || c == '\U{2029}' || c == '\U{202F}' || c == '\U{205F}' || c == '\U{3000}'
  }

  predicate AllWhiteSpace(s: string) {
    forall i :: 0 <= i < |s| ==> IsWhiteSpace(s[i])
  }

  /** String.IsNullOrWhiteSpace */
  predicate IsBlank(s: Option<string>) {
    s.None? || AllWhiteSpace(s.value)
  }

  /** String.IsNullOrEmpty */
  predicate IsNullOrEmpty(s: Option<string>) {
    s.None? || |s.value| == 0
  }

  // ---------------------------------------------------------------------------
  // Split on one separator character

  /** String.Split(sep): the pieces between separators, in order; an empty
      input gives one empty piece, and no piece holds the separator. */
  function Split(s: string, sep: char): (parts: seq<string>)
    ensures |parts| >= 1
    ensures forall k :: 0 <= k < |parts| ==> sep !in parts[k]
  {
    if |s| == 0 then [""]
    else
      var rest := Split(s[1..], sep);
      if s[0] == sep then [""] + rest
      else [[s[0]] + rest[0]] + rest[1..]
  }

  /** String.Join(sep, parts): the inverse of Split. */
  function Join(parts: seq<string>, sep: char): string {
    if |parts| == 0 then ""
    else if |parts| == 1 then parts[0]
    else parts[0] + [sep] + Join(parts[1..], sep)
  }

  /** Splitting loses nothing: joining the pieces back gives the input. */
  lemma {:induction false} JoinSplit(s: string, sep: char)
    ensures Join(Split(s, sep), sep) == s
  {
    if |s| > 0 {
      var rest := Split(s[1..], sep);
      JoinSplit(s[1..], sep);
      if s[0] == sep {
        assert Split(s, sep) == [""] + rest;
        assert ([""] + rest)[1..] == rest;
      } else {
        var parts := [[s[0]] + rest[0]] + rest[1..];
        assert Split(s, sep) == parts;
        if |rest| > 1 {
          assert parts[1..] == rest[1..];
          assert Join(rest, sep) == rest[0] + [sep] + Join(rest[1..], sep);
        }
      }
    }
  }

  /** A string without the separator splits into itself alone. */
  lemma {:induction false} SplitWithoutSeparator(s: string, sep: char)
    requires sep !in s
    ensures Split(s, sep) == [s]
  {
    if |s| > 0 {
      assert sep !in s[1..];
      SplitWithoutSeparator(s[1..], sep);
      assert [s[0]] + s[1..] == s;
    }
  }

  /** The first piece is everything before the first separator. */
  lemma {:induction false} SplitFirst(a: string, sep: char, b: string)
    requires sep !in a
    ensures Split(a + [sep] + b, sep)[0] == a
  {
    var s := a + [sep] + b;
    if |a| > 0 {
      assert s[1..] == a[1..] + [sep] + b;
      SplitFirst(a[1..], sep, b);
      assert [a[0]] + a[1..] == a;
    }
  }

  // ---------------------------------------------------------------------------
  // Trim

  function TrimStartBy(s: string, drop: char -> bool): string {
    if |s| > 0 && drop(s[0]) then TrimStartBy(s[1..], drop) else s
  }

  function TrimEndBy(s: string, drop: char -> bool): string {
    if |s| > 0 && drop(s[|s| - 1]) then TrimEndBy(s[..|s| - 1], drop) else s
  }

  /** TrimStart keeps a suffix, drops only characters `drop` accepts, and
      stops at the first one it does not. */
  lemma {:induction false} TrimStartByKeepsSuffix(s: string, drop: char -> bool)
    ensures var r := TrimStartBy(s, drop);
      && |r| <= |s| && r == s[|s| - |r|..]
      && (forall i :: 0 <= i < |s| - |r| ==> drop(s[i]))
      && (r == [] || !drop(r[0]))
  {
    if |s| > 0 && drop(s[0]) {
      TrimStartByKeepsSuffix(s[1..], drop);
    }
  }

  /** TrimEnd keeps a prefix, drops only characters `drop` accepts, and stops
      at the last one it does not. */
  lemma {:induction false} TrimEndByKeepsPrefix(s: string, drop: char -> bool)
    ensures var r := TrimEndBy(s, drop);
      && |r| <= |s| && r == s[..|r|]
      && (forall i :: |r| <= i < |s| ==> drop(s[i]))
      && (r == [] || !drop(r[|r| - 1]))
  {
    if |s| > 0 && drop(s[|s| - 1]) {
      TrimEndByKeepsPrefix(s[..|s| - 1], drop);
    }
  }

  /** Both ends stripped of the characters `drop` accepts. */
  function TrimBy(s: string, drop: char -> bool): string {
    TrimEndBy(TrimStartBy(s, drop), drop)
  }

  /** String.Trim() */
  function Trim(s: string): string {
    TrimBy(s, IsWhiteSpace)
  }

  /** Trimming an already trimmed string changes nothing. */
  lemma TrimIdempotent(s: string)
    ensures Trim(Trim(s)) == Trim(s)
  {
    var r := Trim(s);
    var t := TrimStartBy(s, IsWhiteSpace);
    TrimStartByKeepsSuffix(s, IsWhiteSpace);
    TrimEndByKeepsPrefix(t, IsWhiteSpace);
    assert TrimStartBy(r, IsWhiteSpace) == r;
  }

  /** A string is blank exactly when trimming empties it. */
  lemma BlankIffTrimEmpty(s: string)
    ensures AllWhiteSpace(s) <==> Trim(s) == ""
  {
    var t := TrimStartBy(s, IsWhiteSpace);
    TrimStartByKeepsSuffix(s, IsWhiteSpace);
    TrimEndByKeepsPrefix(t, IsWhiteSpace);
    if Trim(s) == "" {
      assert t == [];
    }
  }

  // ---------------------------------------------------------------------------
  // Prefix and substring tests

  /** String.StartsWith(string), compared ordinally; .NET compares with the
      current culture, which is not modelled. */
  predicate StartsWith(s: string, prefix: string) {
    |prefix| <= |s| && s[..|prefix|] == prefix
  }

  /** String.Contains (ordinal, as in .NET): `sub` occurs at some position of `s`. */
  predicate Contains(s: string, sub: string) {
    exists i :: 0 <= i <= |s| && StartsWith(s[i..], sub)
  }

  /** The empty string is contained in every string. */
  lemma ContainsEmpty(s: string)
    ensures Contains(s, "")
  {
    assert StartsWith(s[0..], "");
  }

  // ---------------------------------------------------------------------------
  // Case folding (ASCII)

  function LowerChar(c: char): char {
    if 'A' <= c <= 'Z' then (c as int + 32) as char else c
  }

  function UpperChar(c: char): char {
    if 'a' <= c <= 'z' then (c as int - 32) as char else c
  }

  /** String.ToLower */
  function ToLower(s: string): (r: string)
    ensures |r| == |s|
    ensures forall i :: 0 <= i < |s| ==> r[i] == LowerChar(s[i])
  {
    if |s| == 0 then [] else [LowerChar(s[0])] + ToLower(s[1..])
  }

  /** String.ToUpper */
  function ToUpper(s: string): (r: string)
    ensures |r| == |s|
    ensures forall i :: 0 <= i < |s| ==> r[i] == UpperChar(s[i])
  {
    if |s| == 0 then [] else [UpperChar(s[0])] + ToUpper(s[1..])
  }

  /** Lower-casing works character by character, so it distributes over
      concatenation. */
  lemma ToLowerAppend(a: string, b: string)
    ensures ToLower(a + b) == ToLower(a) + ToLower(b)
  {
    assert forall i :: 0 <= i < |a + b| ==> ToLower(a + b)[i] == (ToLower(a) + ToLower(b))[i];
  }

  /** Lower-casing changes letters only: a character that is not a letter
      is in the result exactly when it is in the input. */
  lemma ToLowerKeepsSymbol(s: string, c: char)
    requires !('A' <= c <= 'Z') && !('a' <= c <= 'z')
    ensures c in ToLower(s) <==> c in s
  {
    if c in ToLower(s) {
      var i :| 0 <= i < |s| && ToLower(s)[i] == c;
      assert s[i] == c;
    }
    if c in s {
      var i :| 0 <= i < |s| && s[i] == c;
      assert ToLower(s)[i] == c;
    }
  }

  /** Lower-casing twice is lower-casing once. */
  lemma ToLowerIdempotent(s: string)
    ensures ToLower(ToLower(s)) == ToLower(s)
  {
  }

  // ---------------------------------------------------------------------------
  // Boolean.Parse

  predicate IsWhiteSpaceOrNul(c: char) {
    IsWhiteSpace(c) || c == '\0'
  }

  /** Boolean.Parse: "True" or "False" in any letter case, with white space and
      NUL characters around it; anything else (and null) does not parse. */
  function ParseBool(s: Option<string>): (r: Option<bool>)
    ensures r.Some? ==> s.Some?
  {
    if s.None? then None
    else
      var t := ToLower(TrimBy(s.value, IsWhiteSpaceOrNul));
      if t == "true" then Some(true)
      else if t == "false" then Some(false)
      else None
  }

  predicate AllPadding(s: string) {
    forall i :: 0 <= i < |s| ==> IsWhiteSpaceOrNul(s[i])
  }

  /** `s` is `word` in some letter case, with only white space and NUL
      characters before and after it. */
  predicate Spells(s: string, word: string) {
    exists i, j :: 0 <= i <= j <= |s| && AllPadding(s[..i]) && AllPadding(s[j..]) && ToLower(s[i..j]) == word
  }

  /** Dropping a leading run of droppable characters leaves TrimStart as it was. */
  lemma {:induction false} TrimStartSkips(a: string, x: string, drop: char -> bool)
    requires forall i :: 0 <= i < |a| ==> drop(a[i])
    ensures TrimStartBy(a + x, drop) == TrimStartBy(x, drop)
  {
    if |a| > 0 {
      assert (a + x)[0] == a[0] && (a + x)[1..] == a[1..] + x;
      TrimStartSkips(a[1..], x, drop);
    } else {
      assert a + x == x;
    }
  }

  /** Dropping a trailing run of droppable characters leaves TrimEnd as it was. */
  lemma {:induction false} TrimEndSkips(x: string, b: string, drop: char -> bool)
    requires forall i :: 0 <= i < |b| ==> drop(b[i])
    ensures TrimEndBy(x + b, drop) == TrimEndBy(x, drop)
  {
    if |b| > 0 {
      assert (x + b)[|x + b| - 1] == b[|b| - 1];
      assert (x + b)[..|x + b| - 1] == x + b[..|b| - 1];
      TrimEndSkips(x, b[..|b| - 1], drop);
    } else {
      assert x + b == x;
    }
  }

  /** Once TrimStart stops inside `x`, what follows `x` is kept as it is. */
  lemma {:induction false} TrimStartStops(x: string, b: string, drop: char -> bool)
    requires exists i :: 0 <= i < |x| && !drop(x[i])
    ensures TrimStartBy(x + b, drop) == TrimStartBy(x, drop) + b
  {
    if drop(x[0]) {
      assert (x + b)[1..] == x[1..] + b;
      var i :| 0 <= i < |x| && !drop(x[i]);
      assert x[1..][i - 1] == x[i];
      TrimStartStops(x[1..], b, drop);
    }
  }

  /** A string made only of droppable characters trims to nothing. */
  lemma TrimAllDropped(s: string, drop: char -> bool)
    requires forall i :: 0 <= i < |s| ==> drop(s[i])
    ensures TrimBy(s, drop) == ""
  {
    TrimStartByKeepsSuffix(s, drop);
    TrimEndByKeepsPrefix(TrimStartBy(s, drop), drop);
  }

  /** Trimming is blind to extra trimmable characters around the text. */
  lemma TrimPadded(a: string, s: string, b: string, drop: char -> bool)
    requires forall i :: 0 <= i < |a| ==> drop(a[i])
    requires forall i :: 0 <= i < |b| ==> drop(b[i])
    ensures TrimBy(a + s + b, drop) == TrimBy(s, drop)
  {
    assert a + s + b == a + (s + b);
    TrimStartSkips(a, s + b, drop);
    if exists i :: 0 <= i < |s| && !drop(s[i]) {
      TrimStartStops(s, b, drop);
      TrimEndSkips(TrimStartBy(s, drop), b, drop);
    } else {
      TrimAllDropped(s, drop);
      TrimAllDropped(a + s + b, drop);
    }
  }

  /** Boolean.Parse ignores white space and NUL characters around the text. */
  lemma ParseBoolPadding(a: string, s: string, b: string)
    requires AllPadding(a) && AllPadding(b)
    ensures ParseBool(Some(a + s + b)) == ParseBool(Some(s))
  {
    TrimPadded(a, s, b, IsWhiteSpaceOrNul);
  }

  /** A word of letters is untouched by trimming. */
  lemma TrimKeepsWord(w: string)
    requires |w| > 0 && !IsWhiteSpaceOrNul(w[0]) && !IsWhiteSpaceOrNul(w[|w| - 1])
    ensures TrimBy(w, IsWhiteSpaceOrNul) == w
  {
  }

  /** The trimmed text sits between padding, so a parsed text spells its word. */
  lemma TrimmedSpells(s: string, word: string)
    requires ToLower(TrimBy(s, IsWhiteSpaceOrNul)) == word
    ensures Spells(s, word)
  {
    var t := TrimStartBy(s, IsWhiteSpaceOrNul);
    TrimStartByKeepsSuffix(s, IsWhiteSpaceOrNul);
    TrimEndByKeepsPrefix(t, IsWhiteSpaceOrNul);
    var i, j := |s| - |t|, |s| - |t| + |TrimBy(s, IsWhiteSpaceOrNul)|;
    assert s[i..j] == TrimBy(s, IsWhiteSpaceOrNul);
    assert AllPadding(s[..i]);
    assert forall k :: j <= k < |s| ==> s[k] == t[k - i];
    assert AllPadding(s[j..]);
  }

  /** A text that spells a word trims to that word in its own letter case. */
  lemma SpellsTrimmed(s: string, word: string)
    requires word == "true" || word == "false"
    requires Spells(s, word)
    ensures ToLower(TrimBy(s, IsWhiteSpaceOrNul)) == word
  {
    var i, j :| 0 <= i <= j <= |s| && AllPadding(s[..i]) && AllPadding(s[j..]) && ToLower(s[i..j]) == word;
    var w := s[i..j];
    LowerWordEnds(w, word);
    assert s == s[..i] + w + s[j..];
    PaddedWordTrims(s[..i], w, s[j..]);
  }

  /** A word that begins and ends with a letter is what trimming its padded
      form leaves. */
  lemma PaddedWordTrims(a: string, w: string, b: string)
    requires AllPadding(a) && AllPadding(b)
    requires |w| > 0 && !IsWhiteSpaceOrNul(w[0]) && !IsWhiteSpaceOrNul(w[|w| - 1])
    ensures TrimBy(a + w + b, IsWhiteSpaceOrNul) == w
  {
    TrimKeepsWord(w);
    TrimPadded(a, w, b, IsWhiteSpaceOrNul);
  }

  /** A text that lower-cases to a word of letters begins and ends with a letter. */
  lemma LowerWordEnds(w: string, word: string)
    requires word == "true" || word == "false"
    requires ToLower(w) == word
    ensures |w| > 0 && !IsWhiteSpaceOrNul(w[0]) && !IsWhiteSpaceOrNul(w[|w| - 1])
  {
    var n := |w| - 1;
    assert |word| == |w| && n >= 0;
    assert ToLower(w)[0] == LowerChar(w[0]) && ToLower(w)[n] == LowerChar(w[n]);
    assert 'a' <= word[0] <= 'z' && 'a' <= word[n] <= 'z';
    LowerLetter(w[0]);
    LowerLetter(w[n]);
  }

  /** Only a letter lower-cases to a letter. */
  lemma LowerLetter(c: char)
    requires 'a' <= LowerChar(c) <= 'z'
    ensures !IsWhiteSpaceOrNul(c)
  {
  }

  /** "True" and "False" in any letter case, padded with white space or NUL. */
  lemma ParseBoolTrue(s: string)
    ensures ParseBool(Some(s)) == Some(true) <==> Spells(s, "true")
  {
    if ParseBool(Some(s)) == Some(true) {
      TrimmedSpells(s, "true");
    }
    if Spells(s, "true") {
      SpellsTrimmed(s, "true");
    }
  }

  lemma ParseBoolFalse(s: string)
    ensures ParseBool(Some(s)) == Some(false) <==> Spells(s, "false")
  {
    if ParseBool(Some(s)) == Some(false) {
      TrimmedSpells(s, "false");
    }
    if Spells(s, "false") {
      SpellsTrimmed(s, "false");
    }
  }

  /** Null and every other text give no value (Boolean.Parse throws). */
  lemma ParseBoolOther(s: Option<string>)
    ensures ParseBool(s) == None <==> s.None? || (!Spells(s.value, "true") && !Spells(s.value, "false"))
  {
    if s.Some? {
      ParseBoolTrue(s.value);
      ParseBoolFalse(s.value);
    }
  }

  // ---------------------------------------------------------------------------
  // Removing double-quoted literals: Regex.Replace(s, "\"([^\"]*)\"", "")

  /** The first position of `c` in `s`, if any. */
  function IndexOf(s: string, c: char): (r: Option<nat>)
    ensures r.None? <==> c !in s
    ensures r.Some? ==> r.value < |s| && s[r.value] == c && c !in s[..r.value]
  {
    if |s| == 0 then None
    else if s[0] == c then Some(0)
    else match IndexOf(s[1..], c)
      case None => None
      case Some(j) => assert s[..j + 1] == [s[0]] + s[1..][..j]; Some(j + 1)
  }

  /** The first `c` of `a + [c] + b` is the one after `a` when `a` has none. */
  lemma IndexOfAfter(a: string, c: char, b: string)
    requires c !in a
    ensures IndexOf(a + [c] + b, c) == Some(|a|)
  {
    var t := a + [c] + b;
    assert t[|a|] == c;
    assert t[..|a|] == a;
  }

  /** Scanning left to right, every `"` that has a later `"` starts a literal
      that runs to that next `"`; each such literal, quotes included, is cut out.
      A final `"` without a partner stays, with the rest of the string. */
  function StripQuoted(s: string): string
    decreases |s|
  {
    if |s| == 0 then ""
    else if s[0] == '"' then
      match IndexOf(s[1..], '"')
      case None => s
      case Some(j) => StripQuoted(s[j + 2..])
    else [s[0]] + StripQuoted(s[1..])
  }

  /** Number of occurrences of `c` in `s`. */
  function Occurrences(s: string, c: char): nat {
    if |s| == 0 then 0 else (if s[0] == c then 1 else 0) + Occurrences(s[1..], c)
  }

  lemma {:induction false} OccurrencesZero(s: string, c: char)
    ensures Occurrences(s, c) == 0 <==> c !in s
  {
    if |s| > 0 {
      OccurrencesZero(s[1..], c);
      assert s == [s[0]] + s[1..];
    }
  }

  /** Stripping leaves at most one double quote behind. */
  lemma {:induction false} StripQuotedLeavesOneQuote(s: string)
    ensures Occurrences(StripQuoted(s), '"') <= 1
    decreases |s|
  {
    if |s| > 0 {
      if s[0] == '"' {
        match IndexOf(s[1..], '"')
        case None =>
          OccurrencesZero(s[1..], '"');
        case Some(j) =>
          StripQuotedLeavesOneQuote(s[j + 2..]);
      } else {
        StripQuotedLeavesOneQuote(s[1..]);
        var r := StripQuoted(s[1..]);
        assert ([s[0]] + r)[1..] == r;
      }
    }
  }

  /** A string with at most one double quote has no literal to strip. */
  lemma {:induction false} StripQuotedKeepsSingleQuote(s: string)
    requires Occurrences(s, '"') <= 1
    ensures StripQuoted(s) == s
    decreases |s|
  {
    if |s| > 0 {
      if s[0] == '"' {
        OccurrencesZero(s[1..], '"');
      } else {
        StripQuotedKeepsSingleQuote(s[1..]);
      }
    }
  }

  /** Text without double quotes is left unchanged. */
  lemma StripQuotedNoQuotes(s: string)
    requires '"' !in s
    ensures StripQuoted(s) == s
  {
    OccurrencesZero(s, '"');
    StripQuotedKeepsSingleQuote(s);
  }

  /** A leading literal is cut out, and the text after it is stripped in turn. */
  lemma StripQuotedLeadingLiteral(lit: string, rest: string)
    requires '"' !in lit
    ensures StripQuoted("\"" + lit + "\"" + rest) == StripQuoted(rest)
  {
    var s := "\"" + lit + "\"" + rest;
    assert s[1..] == lit + ['"'] + rest;
    IndexOfAfter(lit, '"', rest);
    assert s[|lit| + 2..] == rest;
  }

  /** Stripping twice is stripping once. */
  lemma StripQuotedIdempotent(s: string)
    ensures StripQuoted(StripQuoted(s)) == StripQuoted(s)
  {
    StripQuotedLeavesOneQuote(s);
    StripQuotedKeepsSingleQuote(StripQuoted(s));
  }
}
