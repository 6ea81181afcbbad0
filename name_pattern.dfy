/**
 * The default naming pattern of the project and variable naming rules,
 * `^([A-Za-z0-9]+)_([A-Za-z0-9]+)$`, matched as .NET's Regex.Match does:
 * `$` also matches just before a final line feed. On success the value of
 * group 1 (the part before the underscore) is returned.
 */
module NamePattern {
  import opened Wrappers
  import opened Text

  /** [A-Za-z0-9] */
  predicate IsAlnum(c: char) {
    ('A' <= c <= 'Z') || ('a' <= c <= 'z') || ('0' <= c <= '9')
  }

  /** [A-Za-z0-9]+ */
  predicate IsWord(s: string) {
    |s| > 0 && forall i :: 0 <= i < |s| ==> IsAlnum(s[i])
  }

  /** The part `$` can stop before: all of `s`, or all but a final line feed. */
  function BeforeFinalNewline(s: string): string {
    if |s| > 0 && s[|s| - 1] == '\n' then s[..|s| - 1] else s
  }

  /** Group 1 of the default pattern, or None when the name does not match. */
  function MatchDefault(s: string): Option<string> {
    var t := BeforeFinalNewline(s);
    match IndexOf(t, '_')
    case None => None
    case Some(i) => if IsWord(t[..i]) && IsWord(t[i + 1..]) then Some(t[..i]) else None
  }

  /** A match is a word, an underscore and a word, optionally followed by one
      line feed; the group is the first word. */
  lemma MatchDefaultSound(s: string)
    requires MatchDefault(s).Some?
    ensures var g := MatchDefault(s).value;
      var t := BeforeFinalNewline(s);
      && IsWord(g)
      && |g| < |t| && t[..|g|] == g && t[|g|] == '_' && IsWord(t[|g| + 1..])
      && (s == t || s == t + "\n")
  {
    var t := BeforeFinalNewline(s);
    if |s| > 0 && s[|s| - 1] == '\n' {
      assert s == t + "\n";
    }
  }

  /** Every word-underscore-word name, with or without a final line feed,
      matches, and its group is the first word. */
  lemma MatchDefaultComplete(a: string, b: string)
    requires IsWord(a) && IsWord(b)
    ensures MatchDefault(a + "_" + b) == Some(a)
    ensures MatchDefault(a + "_" + b + "\n") == Some(a)
  {
    var t := a + "_" + b;
    assert BeforeFinalNewline(t) == t by {
      assert t[|t| - 1] == b[|b| - 1];
    }
    assert BeforeFinalNewline(t + "\n") == t by {
      assert (t + "\n")[..|t|] == t;
    }
    assert '_' !in a by {
      forall k | 0 <= k < |a| ensures a[k] != '_' {
        assert IsAlnum(a[k]);
      }
    }
    IndexOfAfter(a, '_', b);
    assert t[..|a|] == a;
    assert t[|a| + 1..] == b;
  }
}
