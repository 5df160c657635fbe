/** The cleanup applied to every flushed post:
      re.sub(r'\b(\d+)(?:\s*[A-Za-z]*)?\s+\1\b.*', '', text)
    On Twitter pages the engagement counters ("5 likes 5") leak into the
    post text; the substitution cuts from such a number pair to the end of
    the line.

    How the pattern behaves, read off its structure (this is what MatchAt
    encodes):
    - `\d+` must take the whole run of digits: a shorter run leaves a digit
      next, which neither `\s`, `[A-Za-z]` nor `\s+` accepts;
    - after the digits, the only place where `\1` can start is at the end of
      "whitespace, then letters, then whitespace" (each run taken whole), and
      only if the character just before it is whitespace, because `\s+`
      needs at least one and a backtracked shorter run leaves whitespace or
      a letter where `\1` needs a digit;
    - `.*` stops at the first line break, so a match reaches to the end of
      its line and the scan resumes there. */
module Cleanup {
  import opened Text

  predicate IsDigit(c: char) { '0' <= c <= '9' }

  predicate IsLetter(c: char) { ('A' <= c <= 'Z') || ('a' <= c <= 'z') }

  /** `\w` restricted to ASCII. */
  predicate IsWordChar(c: char) { IsDigit(c) || IsLetter(c) || c == '_' }

  /** The end of the longest run of characters satisfying `p` from `i`. */
  function Skip(s: string, i: nat, p: char -> bool): (j: nat)
    requires i <= |s|
    ensures i <= j <= |s|
    decreases |s| - i
  {
    if i < |s| && p(s[i]) then Skip(s, i + 1, p) else i
  }

  /** The run is as long as possible: every skipped character satisfies
      `p`, and the next one does not. */
  lemma {:induction false} SkipSpec(s: string, i: nat, p: char -> bool)
    requires i <= |s|
    ensures forall k :: i <= k < Skip(s, i, p) ==> p(s[k])
    ensures Skip(s, i, p) == |s| || !p(s[Skip(s, i, p)])
    decreases |s| - i
  {
    if i < |s| && p(s[i]) {
      SkipSpec(s, i + 1, p);
    }
  }

  /** Where the digit group `(\d+)` starting at `i` ends. */
  function GroupEnd(s: string, i: nat): nat
    requires i <= |s|
  {
    Skip(s, i, IsDigit)
  }

  /** Where the back-reference `\1` would have to start. */
  function RepeatStart(s: string, i: nat): nat
    requires i <= |s|
  {
    Skip(s, Skip(s, Skip(s, GroupEnd(s, i), IsSpace), IsLetter), IsSpace)
  }

  /** The pattern, up to and including the second `\b`, matches at `i`. */
  predicate MatchAt(s: string, i: nat) {
    && i < |s|
    && IsDigit(s[i])
    && (i == 0 || !IsWordChar(s[i - 1]))
    && var j, q := GroupEnd(s, i), RepeatStart(s, i);
       var n := j - i;
       && IsSpace(s[q - 1])
       && q + n <= |s|
       && s[q..q + n] == s[i..j]
       && (q + n == |s| || !IsWordChar(s[q + n]))
  }

  /** The first line break at or after `k`, or the end of `s`: where `.*`
      stops. */
  function LineEnd(s: string, k: nat): (e: nat)
    requires k <= |s|
    ensures k <= e <= |s|
    decreases |s| - k
  {
    if k == |s| || s[k] == '\n' then k else LineEnd(s, k + 1)
  }

  /** `.*` runs up to the first line break, or to the end. */
  lemma {:induction false} LineEndSpec(s: string, k: nat)
    requires k <= |s|
    ensures forall m :: k <= m < LineEnd(s, k) ==> s[m] != '\n'
    ensures LineEnd(s, k) == |s| || s[LineEnd(s, k)] == '\n'
    decreases |s| - k
  {
    if k < |s| && s[k] != '\n' {
      LineEndSpec(s, k + 1);
    }
  }

  /** Where a match found at `i` ends. */
  function MatchEnd(s: string, i: nat): (e: nat)
    requires MatchAt(s, i)
    ensures i < e <= |s|
  {
    LineEnd(s, RepeatStart(s, i) + (GroupEnd(s, i) - i))
  }

  /** The substitution scanning from `pos`: each match is deleted, every
      other character is kept in order. */
  function Substitute(s: string, pos: nat): string
    requires pos <= |s|
    decreases |s| - pos
  {
    if pos == |s| then ""
    else if MatchAt(s, pos) then Substitute(s, MatchEnd(s, pos))
    else [s[pos]] + Substitute(s, pos + 1)
  }

  function Clean(s: string): string {
    Substitute(s, 0)
  }

  /** `t` is obtained from `s` by deleting characters. */
  predicate IsSubsequence(t: string, s: string)
    decreases |s|
  {
    if t == [] then true
    else if s == [] then false
    else if t[0] == s[0] then IsSubsequence(t[1..], s[1..])
    else IsSubsequence(t, s[1..])
  }

  lemma {:induction false} SubsequenceCons(t: string, u: string, c: char)
    requires IsSubsequence(t, u)
    ensures IsSubsequence(t, [c] + u)
    decreases |u|, 1
  {
    var cu := [c] + u;
    assert cu[1..] == u;
    if t != [] && t[0] == c {
      SubsequenceTail(t, u);
    }
  }

  lemma {:induction false} SubsequenceTail(t: string, u: string)
    requires t != [] && IsSubsequence(t, u)
    ensures IsSubsequence(t[1..], u)
    decreases |u|, 0
  {
    assert u != [];
    assert u == [u[0]] + u[1..];
    if t[0] == u[0] {
      SubsequenceCons(t[1..], u[1..], u[0]);
    } else {
      SubsequenceTail(t, u[1..]);
      SubsequenceCons(t[1..], u[1..], u[0]);
    }
  }

  lemma {:induction false} SubsequenceDrop(t: string, s: string, pos: nat, e: nat)
    requires pos <= e <= |s| && IsSubsequence(t, s[e..])
    ensures IsSubsequence(t, s[pos..])
    decreases e - pos
  {
    if pos < e {
      SubsequenceDrop(t, s, pos + 1, e);
      assert s[pos..] == [s[pos]] + s[pos + 1..];
      SubsequenceCons(t, s[pos + 1..], s[pos]);
    }
  }

  lemma {:induction false} SubsequenceLength(t: string, s: string)
    requires IsSubsequence(t, s)
    ensures |t| <= |s|
    decreases |s|
  {
    if t != [] {
      if t[0] == s[0] {
        SubsequenceLength(t[1..], s[1..]);
      } else {
        SubsequenceLength(t, s[1..]);
      }
    }
  }

  lemma {:induction false} SubstituteDeletes(s: string, pos: nat)
    requires pos <= |s|
    ensures IsSubsequence(Substitute(s, pos), s[pos..])
    decreases |s| - pos
  {
    if pos == |s| {
    } else if MatchAt(s, pos) {
      var e := MatchEnd(s, pos);
      SubstituteDeletes(s, e);
      SubsequenceDrop(Substitute(s, pos), s, pos, e);
    } else {
      SubstituteDeletes(s, pos + 1);
      var rest := Substitute(s, pos + 1);
      var r := [s[pos]] + rest;
      assert s[pos..] == [s[pos]] + s[pos + 1..];
      assert r[0] == s[pos] && r[1..] == rest;
    }
  }

  /** The cleanup only deletes: its result is a subsequence of its input,
      hence never longer. */
  lemma CleanDeletes(s: string)
    ensures IsSubsequence(Clean(s), s)
    ensures |Clean(s)| <= |s|
  {
    SubstituteDeletes(s, 0);
    assert s[0..] == s;
    SubsequenceLength(Clean(s), s);
  }

  lemma {:induction false} SubstituteNoMatch(s: string, pos: nat)
    requires pos <= |s|
    requires forall k :: pos <= k < |s| ==> !MatchAt(s, k)
    ensures Substitute(s, pos) == s[pos..]
    decreases |s| - pos
  {
    if pos < |s| {
      SubstituteNoMatch(s, pos + 1);
      assert s[pos..] == [s[pos]] + s[pos + 1..];
    }
  }

  /** Text without a number pair is left alone. */
  lemma CleanNoMatch(s: string)
    requires forall k :: 0 <= k < |s| ==> !MatchAt(s, k)
    ensures Clean(s) == s
  {
    SubstituteNoMatch(s, 0);
  }

  lemma {:induction false} SubstituteCutsLine(s: string, pos: nat, i: nat)
    requires pos <= i < |s|
    requires forall k :: 0 <= k < |s| ==> s[k] != '\n'
    requires MatchAt(s, i)
    requires forall k :: pos <= k < i ==> !MatchAt(s, k)
    ensures Substitute(s, pos) == s[pos..i]
    decreases i - pos
  {
    if pos == i {
      LineEndSpec(s, RepeatStart(s, i) + (GroupEnd(s, i) - i));
      assert MatchEnd(s, i) == |s|;
    } else {
      SubstituteCutsLine(s, pos + 1, i);
      assert s[pos..i] == [s[pos]] + s[pos + 1..i];
    }
  }

  /** On one line of text, the cleanup keeps exactly what comes before the
      first number pair. */
  lemma CleanCutsLine(s: string, i: nat)
    requires i < |s|
    requires forall k :: 0 <= k < |s| ==> s[k] != '\n'
    requires MatchAt(s, i)
    requires forall k :: 0 <= k < i ==> !MatchAt(s, k)
    ensures Clean(s) == s[..i]
  {
    SubstituteCutsLine(s, 0, i);
  }

  /** The worked example: the counter text goes, and the space before it
      stays, because the result is not stripped again. */
  lemma CleanExample(s: string)
    requires s == "hello world 5 likes 5"
    ensures Clean(s) == "hello world "
  {
    ExampleMatch(s);
    ExampleNoEarlier(s);
    assert forall k :: 0 <= k < |s| ==> s[k] != '\n';
    CleanCutsLine(s, 12);
    assert s[..12] == "hello world ";
  }

  lemma ExampleMatch(s: string)
    requires s == "hello world 5 likes 5"
    ensures MatchAt(s, 12)
  {
    assert s[12] == '5' && s[13] == ' ' && s[14] == 'l' && s[19] == ' ' && s[20] == '5';
    assert Skip(s, 13, IsDigit) == 13;
    assert GroupEnd(s, 12) == 13;
    assert Skip(s, 14, IsSpace) == 14;
    assert Skip(s, 13, IsSpace) == 14;
    assert Skip(s, 20, IsSpace) == 20;
    assert Skip(s, 19, IsSpace) == 20;
    assert Skip(s, 19, IsLetter) == 19;
    assert Skip(s, 18, IsLetter) == 19;
    assert Skip(s, 17, IsLetter) == 19;
    assert Skip(s, 16, IsLetter) == 19;
    assert Skip(s, 15, IsLetter) == 19;
    assert Skip(s, 14, IsLetter) == 19;
    assert RepeatStart(s, 12) == 20;
  }

  lemma ExampleNoEarlier(s: string)
    requires s == "hello world 5 likes 5"
    ensures forall k :: 0 <= k < 12 ==> !MatchAt(s, k)
  {
    assert forall k :: 0 <= k < 12 ==> !IsDigit(s[k]);
  }
}
