/** The whitespace-cleaning chain both page scrapers apply to the extracted
    page text before handing it on:

      tabs become spaces, runs of two or more spaces become one space,
      runs of three or more line feeds become two, and the ends are trimmed.

    Each step is a separate function so that its own regular expression can be
    checked against it; `Clean` composes them in the program's order. */
module Normalize {
  import opened JsText

  predicate NoTab(s: string) {
    forall i | 0 <= i < |s| :: s[i] != '\t'
  }

  predicate NoDoubleSpace(s: string) {
    forall i | 0 <= i < |s| - 1 :: !(s[i] == ' ' && s[i + 1] == ' ')
  }

  predicate NoTripleNewline(s: string) {
    forall i | 0 <= i < |s| - 2 :: !(s[i] == '\n' && s[i + 1] == '\n' && s[i + 2] == '\n')
  }

  /** Neither end is JavaScript whitespace. */
  predicate IsTrimmed(s: string) {
    |s| == 0 || (!IsWhite(s[0]) && !IsWhite(s[|s| - 1]))
  }

  /** The shape every cleaned text has. */
  predicate IsClean(s: string) {
    NoTab(s) && NoDoubleSpace(s) && NoTripleNewline(s) && IsTrimmed(s)
  }

  /** `k` copies of the character `c`. */
  function Repeat(c: char, k: nat): (r: string)
    ensures |r| == k && forall i | 0 <= i < k :: r[i] == c
  {
    seq(k, _ => c)
  }

  // ---------------------------------------------------------------- step 1

  /** `.replace(/\t/g, " ")`: every tab becomes one space, nothing else moves. */
  function ReplaceTabs(s: string): (r: string)
    ensures |r| == |s|
    ensures NoTab(r)
    ensures forall i | 0 <= i < |s| :: s[i] != '\t' ==> r[i] == s[i]
    ensures forall i | 0 <= i < |s| :: s[i] == '\t' ==> r[i] == ' '
  {
    seq(|s|, i requires 0 <= i < |s| => if s[i] == '\t' then ' ' else s[i])
  }

  // ---------------------------------------------------------------- step 2

  /** `.replace(/ {2,}/g, " ")`, written as "drop a space that another space
      follows": the last space of every run survives, so each run of spaces
      ends up as exactly one (see `CollapseSpacesRun`). */
  function CollapseSpaces(s: string): (r: string)
    ensures |r| <= |s|
    ensures NoDoubleSpace(r)
    ensures forall c | c in r :: c in s
    ensures |s| > 0 ==> |r| > 0 && r[0] == s[0]
  {
    if |s| == 0 then []
    else if |s| >= 2 && s[0] == ' ' && s[1] == ' ' then CollapseSpaces(s[1..])
    else [s[0]] + CollapseSpaces(s[1..])
  }

  /** A maximal run of `k >= 1` spaces collapses to a single space and the text
      after it is processed on its own: the regular expression's greedy,
      left-to-right replacement, run by run. */
  lemma {:induction false} CollapseSpacesRun(k: nat, t: string)
    requires k >= 1
    requires |t| == 0 || t[0] != ' '
    ensures CollapseSpaces(Repeat(' ', k) + t) == " " + CollapseSpaces(t)
    decreases k
  {
    var s := Repeat(' ', k) + t;
    if k == 1 {
      assert s == " " + t;
      assert s[1..] == t;
    } else {
      assert s[0] == ' ' && s[1] == ' ';
      assert s[1..] == Repeat(' ', k - 1) + t;
      CollapseSpacesRun(k - 1, t);
    }
  }

  /** A character other than a space passes through, and the text after it
      is processed on its own. */
  lemma CollapseSpacesKeeps(c: char, t: string)
    requires c != ' '
    ensures CollapseSpaces([c] + t) == [c] + CollapseSpaces(t)
  {
  }

  /** A text whose spaces are already single is left alone. */
  lemma {:induction false} CollapseSpacesFixes(s: string)
    requires NoDoubleSpace(s)
    ensures CollapseSpaces(s) == s
    decreases |s|
  {
    if |s| > 0 {
      assert NoDoubleSpace(s[1..]) by {
        forall i | 0 <= i < |s[1..]| - 1 ensures !(s[1..][i] == ' ' && s[1..][i + 1] == ' ') {
          assert s[1..][i] == s[i + 1] && s[1..][i + 1] == s[i + 2];
        }
      }
      CollapseSpacesFixes(s[1..]);
      assert s == [s[0]] + s[1..];
    }
  }

  // ---------------------------------------------------------------- step 3

  /** `.replace(/\n{3,}/g, "\n\n")`, written as "drop a line feed that two more
      follow": every run of three or more ends up as exactly two, shorter runs
      are kept (see `CollapseNewlinesRun`). Only line feeds count: a space or a
      carriage return between them breaks the run. */
  function CollapseNewlines(s: string): (r: string)
    ensures |r| <= |s|
    ensures NoTripleNewline(r)
    ensures forall c | c in r :: c in s
    ensures |s| >= 1 ==> |r| >= 1 && r[0] == s[0]
    ensures |s| >= 2 ==> |r| >= 2 && r[1] == s[1]
    ensures NoDoubleSpace(s) ==> NoDoubleSpace(r)
  {
    if |s| == 0 then []
    else if |s| >= 3 && s[0] == '\n' && s[1] == '\n' && s[2] == '\n' then
      var r := CollapseNewlines(s[1..]);
      assert NoDoubleSpace(s) ==> NoDoubleSpace(s[1..]) by {
        if NoDoubleSpace(s) {
          forall i | 0 <= i < |s[1..]| - 1 ensures !(s[1..][i] == ' ' && s[1..][i + 1] == ' ') {
            assert s[1..][i] == s[i + 1] && s[1..][i + 1] == s[i + 2];
          }
        }
      }
      r
    else
      var rest := CollapseNewlines(s[1..]);
      assert NoDoubleSpace(s) ==> NoDoubleSpace(s[1..]) by {
        if NoDoubleSpace(s) {
          forall i | 0 <= i < |s[1..]| - 1 ensures !(s[1..][i] == ' ' && s[1..][i + 1] == ' ') {
            assert s[1..][i] == s[i + 1] && s[1..][i + 1] == s[i + 2];
          }
        }
      }
      var r := [s[0]] + rest;
      assert forall i | 1 <= i < |r| :: r[i] == rest[i - 1];
      r
  }

  /** A maximal run of `k` line feeds keeps at most two of them, and the text
      after it is processed on its own. */
  lemma {:induction false} CollapseNewlinesRun(k: nat, t: string)
    requires |t| == 0 || t[0] != '\n'
    ensures CollapseNewlines(Repeat('\n', k) + t) == Repeat('\n', if k < 2 then k else 2) + CollapseNewlines(t)
    decreases k
  {
    var s := Repeat('\n', k) + t;
    if k == 0 {
      assert s == t;
    } else if k == 1 {
      assert s == "\n" + t && s[1..] == t;
    } else if k == 2 {
      assert s[1..] == "\n" + t && s[1..][1..] == t;
      assert CollapseNewlines(s[1..]) == "\n" + CollapseNewlines(t);
      assert Repeat('\n', 2) == "\n\n";
    } else {
      assert s[1..] == Repeat('\n', k - 1) + t;
      CollapseNewlinesRun(k - 1, t);
    }
  }

  /** A character other than a line feed passes through, and the text after
      it is processed on its own. */
  lemma CollapseNewlinesKeeps(c: char, t: string)
    requires c != '\n'
    ensures CollapseNewlines([c] + t) == [c] + CollapseNewlines(t)
  {
  }

  /** A text with no run of three line feeds is left alone. */
  lemma {:induction false} CollapseNewlinesFixes(s: string)
    requires NoTripleNewline(s)
    ensures CollapseNewlines(s) == s
    decreases |s|
  {
    if |s| > 0 {
      assert NoTripleNewline(s[1..]) by {
        forall i | 0 <= i < |s[1..]| - 2
          ensures !(s[1..][i] == '\n' && s[1..][i + 1] == '\n' && s[1..][i + 2] == '\n')
        {
          assert s[1..][i] == s[i + 1] && s[1..][i + 1] == s[i + 2] && s[1..][i + 2] == s[i + 3];
        }
      }
      CollapseNewlinesFixes(s[1..]);
      assert s == [s[0]] + s[1..];
    }
  }

  // ---------------------------------------------------------------- step 4

  /** The index of the first non-whitespace character at or after `i`
      (`|s|` when there is none). */
  function SkipWhite(s: string, i: nat): (a: nat)
    requires i <= |s|
    ensures i <= a <= |s|
    ensures forall k | i <= k < a :: IsWhite(s[k])
    ensures a < |s| ==> !IsWhite(s[a])
    decreases |s| - i
  {
    if i < |s| && IsWhite(s[i]) then SkipWhite(s, i + 1) else i
  }

  /** The end of `s[lo..j]` once its trailing whitespace is dropped. */
  function SkipWhiteBack(s: string, lo: nat, j: nat): (b: nat)
    requires lo <= j <= |s|
    ensures lo <= b <= j
    ensures forall k | b <= k < j :: IsWhite(s[k])
    ensures b > lo ==> !IsWhite(s[b - 1])
    decreases j
  {
    if j > lo && IsWhite(s[j - 1]) then SkipWhiteBack(s, lo, j - 1) else j
  }

  /** Where the text `Trim` keeps starts in its input. */
  function TrimOffset(s: string): (a: nat)
    ensures a <= |s|
  {
    SkipWhite(s, 0)
  }

  /** `.trim()`: the longest middle slice that neither starts nor ends with
      whitespace; everything cut off on either side is whitespace. */
  function Trim(s: string): (r: string)
    ensures IsTrimmed(r)
    ensures TrimOffset(s) + |r| <= |s| && r == s[TrimOffset(s)..TrimOffset(s) + |r|]
    ensures forall i | 0 <= i < TrimOffset(s) :: IsWhite(s[i])
    ensures forall i | TrimOffset(s) + |r| <= i < |s| :: IsWhite(s[i])
  {
    var a := SkipWhite(s, 0);
    var b := SkipWhiteBack(s, a, |s|);
    s[a..b]
  }

  /** A text without whitespace at either end is left alone. */
  lemma TrimFixes(s: string)
    requires IsTrimmed(s)
    ensures Trim(s) == s
  {
  }

  /** The shape properties survive taking a slice, which is all trimming does. */
  lemma SliceKeepsShape(s: string, a: nat, b: nat)
    requires a <= b <= |s|
    ensures NoTab(s) ==> NoTab(s[a..b])
    ensures NoDoubleSpace(s) ==> NoDoubleSpace(s[a..b])
    ensures NoTripleNewline(s) ==> NoTripleNewline(s[a..b])
  {
    var t := s[a..b];
    assert forall i | 0 <= i < |t| :: t[i] == s[a + i];
  }

  // ---------------------------------------------------------------- the chain

  /** The cleaning chain: no tabs, no double spaces, no three line feeds in a
      row, no whitespace at either end, never longer than the input, and every
      character is one of the input's or a space that replaced a tab. */
  function Clean(s: string): (r: string)
    ensures IsClean(r)
    ensures |r| <= |s|
    ensures forall c | c in r :: c in s || (c == ' ' && '\t' in s)
  {
    var t := ReplaceTabs(s);
    var u := CollapseSpaces(t);
    var v := CollapseNewlines(u);
    var r := Trim(v);
    CleanSteps(s, t, u, v, r);
    r
  }

  /** The four steps of `Clean`, one fact at a time. */
  lemma CleanSteps(s: string, t: string, u: string, v: string, r: string)
    requires t == ReplaceTabs(s) && u == CollapseSpaces(t)
    requires v == CollapseNewlines(u) && r == Trim(v)
    ensures IsClean(r)
    ensures forall c | c in r :: c in s || (c == ' ' && '\t' in s)
  {
    assert '\t' !in t;
    assert '\t' !in u;
    assert '\t' !in v;
    assert NoTab(v);
    assert NoDoubleSpace(v);
    var a := TrimOffset(v);
    SliceKeepsShape(v, a, a + |r|);
    forall c | c in r ensures c in s || (c == ' ' && '\t' in s) {
      assert c in t;
      var i :| 0 <= i < |t| && t[i] == c;
    }
  }

  /** Cleaning leaves clean text alone. */
  lemma {:induction false} CleanFixes(s: string)
    requires IsClean(s)
    ensures Clean(s) == s
  {
    assert ReplaceTabs(s) == s;
    CollapseSpacesFixes(s);
    CollapseNewlinesFixes(s);
    TrimFixes(s);
  }

  /** Cleaning twice is cleaning once, so re-normalising stored content never
      makes two equal pages look different. */
  lemma CleanIdempotent(s: string)
    ensures Clean(Clean(s)) == Clean(s)
  {
    CleanFixes(Clean(s));
  }

  /** Only bare line feeds are collapsed: lines holding a single space keep the
      breaks between them, so three line breaks can survive cleaning. */
  lemma WhitespaceLinesSurvive()
    ensures Clean("a\n \n \nb") == "a\n \n \nb"
  {
    var s := "a\n \n \nb";
    assert IsTrimmed(s);
    assert NoTab(s) && NoDoubleSpace(s) && NoTripleNewline(s);
    CleanFixes(s);
  }
}
