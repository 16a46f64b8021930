/**
 * The e-mail shape check shared by registration and login: the regular
 * expression `^[^\s@]+@[^\s@]+\.[^\s@]+$`, written once as a
 * character-level predicate (what the handlers use) and once as the
 * pattern's own structure (three non-empty runs of characters that are
 * neither `\s` nor `@`, joined by `@` and `.`), with a proof that the two agree.
 */
module Email {
  import opened JsString

  /** A character that `[^\s@]` accepts. */
  predicate IsAtomChar(c: char)
  {
    c != '@' && !IsJsWhitespace(c)
  }

  /** `[^\s@]+`: a non-empty run of characters that are neither whitespace nor `@`. */
  ghost predicate IsAtomRun(s: string)
  {
    |s| > 0 && forall i :: 0 <= i < |s| ==> IsAtomChar(s[i])
  }

  /** `s` is `a@b.c` for the three atom runs `a`, `b` and `c`. */
  ghost predicate SplitsAs(s: string, a: string, b: string, c: string)
  {
    IsAtomRun(a) && IsAtomRun(b) && IsAtomRun(c) && s == a + "@" + b + "." + c
  }

  /** The regular expression read structurally: `s` is `a@b.c` with three atom runs. */
  ghost predicate MatchesPattern(s: string)
  {
    exists a: string, b: string, c: string :: SplitsAs(s, a, b, c)
  }

  /** `@` occurs at index `p` of `s` and nowhere else. */
  predicate OnlyAtSignAt(s: string, p: int)
  {
    0 <= p < |s| && s[p] == '@' && forall i :: 0 <= i < |s| && i != p ==> s[i] != '@'
  }

  /** `d` has a `.` that is neither its first nor its last character. */
  predicate HasInnerDot(d: string)
  {
    exists k | 0 < k < |d| - 1 :: d[k] == '.'
  }

  /**
   * The check as the handlers run it: no whitespace anywhere, exactly one
   * `@`, something before it, and after it a `.` that is neither the first
   * nor the last character.
   */
  predicate IsValidEmail(s: string)
    ensures IsValidEmail(s) ==> |s| >= 5 && '@' in s
  {
    && (forall i :: 0 <= i < |s| ==> !IsJsWhitespace(s[i]))
    && exists p | 0 < p < |s| :: OnlyAtSignAt(s, p) && HasInnerDot(s[p + 1..])
  }

  /** A valid e-mail address is never the empty string. */
  lemma ValidEmailNonEmpty(s: string)
    requires IsValidEmail(s)
    ensures s != "" && Utf16Length(s) > 0
  {
    Utf16LengthZero(s);
  }

  /** A plain address of the expected shape is accepted. */
  lemma ExampleAddressValid()
    ensures IsValidEmail("a@b.com")
  {
    var s := "a@b.com";
    assert OnlyAtSignAt(s, 1);
    assert s[2..][1] == '.';
  }

  /** Whatever the pattern accepts, the character-level check accepts. */
  lemma PatternImpliesValid(s: string)
    requires MatchesPattern(s)
    ensures IsValidEmail(s)
  {
    var a: string, b: string, c: string :| SplitsAs(s, a, b, c);
    var d := b + "." + c;
    var p := |a|;
    assert s == a + ['@'] + d;
    assert |s| == p + 1 + |d|;
    forall i | 0 <= i < |s|
      ensures !IsJsWhitespace(s[i]) && (i != p ==> s[i] != '@')
    {
      if i < p {
        assert s[i] == a[i];
      } else if i > p {
        assert s[i] == d[i - p - 1];
        var j := i - p - 1;
        if j < |b| {
          assert d[j] == b[j];
        } else if j > |b| {
          assert d[j] == c[j - |b| - 1];
        }
      }
    }
    assert s[p + 1..] == d;
    assert d[|b|] == '.';
    assert OnlyAtSignAt(s, p) && HasInnerDot(s[p + 1..]);
  }

  /** A slice of a whitespace-free string that avoids its only `@` is an atom run. */
  lemma SliceIsAtomRun(s: string, p: int, lo: int, hi: int)
    requires forall i :: 0 <= i < |s| ==> !IsJsWhitespace(s[i])
    requires OnlyAtSignAt(s, p)
    requires 0 <= lo < hi <= |s| && (p < lo || hi <= p)
    ensures IsAtomRun(s[lo..hi])
  {
    var t := s[lo..hi];
    forall i | 0 <= i < |t|
      ensures IsAtomChar(t[i])
    {
      assert t[i] == s[lo + i];
    }
  }

  /** Cutting `s` around an `@` at `p` and a `.` at `q` and gluing it back gives `s`. */
  lemma Reassemble(s: string, p: int, q: int)
    requires 0 <= p < q < |s| && s[p] == '@' && s[q] == '.'
    ensures s == s[..p] + "@" + s[p + 1..q] + "." + s[q + 1..]
  {
    assert s[q..] == "." + s[q + 1..];
    assert s[p..] == "@" + s[p + 1..q] + s[q..];
    assert s == s[..p] + s[p..];
  }

  /** Whatever the character-level check accepts, the pattern matches. */
  lemma ValidImpliesPattern(s: string)
    requires IsValidEmail(s)
    ensures MatchesPattern(s)
  {
    var p :| 0 < p < |s| && OnlyAtSignAt(s, p) && HasInnerDot(s[p + 1..]);
    var d := s[p + 1..];
    var k :| 0 < k < |d| - 1 && d[k] == '.';
    var q := p + 1 + k;
    assert s[q] == '.';
    var a, b, c := s[..p], s[p + 1..q], s[q + 1..];
    SliceIsAtomRun(s, p, 0, p);
    SliceIsAtomRun(s, p, p + 1, q);
    SliceIsAtomRun(s, p, q + 1, |s|);
    Reassemble(s, p, q);
    assert SplitsAs(s, a, b, c);
  }

  /** The character-level check decides exactly the regular expression. */
  lemma ValidEmailMatchesPattern(s: string)
    ensures IsValidEmail(s) <==> MatchesPattern(s)
  {
    if IsValidEmail(s) {
      ValidImpliesPattern(s);
    }
    if MatchesPattern(s) {
      PatternImpliesValid(s);
    }
  }
}
