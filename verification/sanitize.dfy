/**
 * `sanitizeSection` (try_final1.js): the last text transformation applied to
 * a sample before it is written out. It deletes Markdown heading/emphasis
 * marks, splits the text into lines, trims each line and collapses each of
 * its whitespace runs to one space, drops the lines left empty, joins the
 * rest with newlines and trims the whole.
 */
module Sanitize {
  import opened Text

  /** The Markdown characters the sanitizer deletes. */
  predicate IsMark(c: char) {
    c == '#' || c == '*'
  }

  /** `replace(/[#*]/g, "")`: delete every `#` and `*`, keep everything else. */
  function RemoveMarks(s: string): (r: string)
    ensures forall i :: 0 <= i < |r| ==> !IsMark(r[i])
    ensures forall c :: c in r ==> c in s
    ensures (forall i :: 0 <= i < |s| ==> !IsMark(s[i])) ==> r == s
  {
    if s == [] then [] else (if IsMark(s[0]) then [] else [s[0]]) + RemoveMarks(s[1..])
  }

  /** Marks are deleted one character at a time: the deletion of a concatenation is the concatenation of the deletions. */
  lemma {:induction false} RemoveMarksAppend(a: string, b: string)
    ensures RemoveMarks(a + b) == RemoveMarks(a) + RemoveMarks(b)
    decreases |a|
  {
    if a != [] {
      var c, t := a[0], a[1..];
      assert a == [c] + t;
      assert a + b == [c] + (t + b);
      RemoveMarksCons(c, t + b);
      RemoveMarksCons(c, t);
      RemoveMarksAppend(t, b);
    } else {
      assert a + b == b;
    }
  }

  lemma {:induction false} RemoveMarksCons(c: char, t: string)
    ensures RemoveMarks([c] + t) == (if IsMark(c) then [] else [c]) + RemoveMarks(t)
  {
    assert ([c] + t)[1..] == t;
  }

  /** Trimming before the marks are deleted changes none of the words that are left. */
  lemma {:induction false} TrimKeepsWords(x: string)
    ensures NonSpace(RemoveMarks(Trim(x))) == NonSpace(RemoveMarks(x))
  {
    var o, t := TrimOffset(x), Trim(x);
    TrimRemovesSpaceOnly(x);
    var pre, post := x[..o], x[o + |t|..];
    assert x == pre + t + post;
    assert forall i :: 0 <= i < |pre| ==> IsSpace(pre[i]);
    assert forall i :: 0 <= i < |post| ==> IsSpace(post[i]);
    SpacesKeepNoWords(pre);
    SpacesKeepNoWords(post);
    var m := RemoveMarks(t);
    assert RemoveMarks(x) == RemoveMarks(pre) + m + RemoveMarks(post) by {
      RemoveMarksAppend(pre + t, post);
      RemoveMarksAppend(pre, t);
    }
    NonSpaceAppend(RemoveMarks(pre) + m, RemoveMarks(post));
    NonSpaceAppend(RemoveMarks(pre), m);
  }

  /** Whitespace keeps no words through mark deletion. */
  lemma {:induction false} SpacesKeepNoWords(s: string)
    requires forall i :: 0 <= i < |s| ==> IsSpace(s[i])
    ensures NonSpace(RemoveMarks(s)) == []
  {
    assert RemoveMarks(s) == s;
    NonSpaceOfSpaces(s);
  }

  /**
   * `replace(/\s+/g, " ")`: every maximal run of whitespace becomes one space.
   * Afterwards the only whitespace is ' ', no two whitespace characters are
   * adjacent, and the text starts and ends with whitespace exactly when the
   * input did.
   */
  function Collapse(s: string): (r: string)
    ensures (r == []) == (s == [])
    ensures s != [] ==> IsSpace(r[0]) == IsSpace(s[0]) && IsSpace(r[|r| - 1]) == IsSpace(s[|s| - 1])
    decreases |s|
  {
    if s == [] then []
    else if IsSpace(s[0]) then
      TrimStartShape(s[1..]);
      [' '] + Collapse(TrimStart(s[1..]))
    else [s[0]] + Collapse(s[1..])
  }

  /** The only whitespace character in `r` is ' '. */
  predicate BlankSpaces(r: string) {
    forall i :: 0 <= i < |r| && IsSpace(r[i]) ==> r[i] == ' '
  }

  /** What a character put in front of a text keeps of the text's properties. */
  lemma {:induction false} ConsChars(c: char, rest: string)
    ensures BlankSpaces(rest) && (IsSpace(c) ==> c == ' ') ==> BlankSpaces([c] + rest)
    ensures MarkFree(rest) && !IsMark(c) ==> MarkFree([c] + rest)
  {
    var r := [c] + rest;
    assert forall i :: 0 < i < |r| ==> r[i] == rest[i - 1];
  }

  /** A suffix of a mark-free text is mark-free. */
  lemma {:induction false} MarkFreeSuffix(s: string, k: nat)
    requires MarkFree(s) && k <= |s|
    ensures MarkFree(s[k..])
  {
    assert forall i :: 0 <= i < |s| - k ==> s[k..][i] == s[k + i];
  }

  /** Collapsing writes whitespace only as ' ' and introduces no `#` or `*`. */
  lemma {:induction false} CollapseChars(s: string)
    ensures BlankSpaces(Collapse(s))
    ensures MarkFree(s) ==> MarkFree(Collapse(s))
    decreases |s|
  {
    if s != [] {
      if IsSpace(s[0]) {
        var t := TrimStart(s[1..]);
        TrimStartShape(s[1..]);
        CollapseChars(t);
        if MarkFree(s) {
          MarkFreeSuffix(s, |s| - |t|);
          assert s[|s| - |t|..] == t;
        }
        ConsChars(' ', Collapse(t));
      } else {
        CollapseChars(s[1..]);
        if MarkFree(s) {
          MarkFreeSuffix(s, 1);
        }
        ConsChars(s[0], Collapse(s[1..]));
      }
    }
  }

  /** Putting a character in front of a run-free text keeps it run-free unless both are whitespace. */
  lemma {:induction false} NoRunCons(c: char, rest: string)
    requires NoSpaceRun(rest)
    requires IsSpace(c) && rest != [] ==> !IsSpace(rest[0])
    ensures NoSpaceRun([c] + rest)
  {
    var r := [c] + rest;
    forall i | 0 <= i < |r| - 1 ensures !(IsSpace(r[i]) && IsSpace(r[i + 1])) {
      if i > 0 {
        assert r[i] == rest[i - 1] && r[i + 1] == rest[i];
      }
    }
  }

  /** After collapsing, no two whitespace characters are adjacent. */
  lemma {:induction false} CollapseNoRun(s: string)
    ensures NoSpaceRun(Collapse(s))
    decreases |s|
  {
    if s != [] {
      if IsSpace(s[0]) {
        var t := TrimStart(s[1..]);
        CollapseNoRun(t);
        NoRunCons(' ', Collapse(t));
      } else {
        CollapseNoRun(s[1..]);
        NoRunCons(s[0], Collapse(s[1..]));
      }
    }
  }

  /** One line after `l.trim().replace(/\s+/g, " ")`. */
  function CleanLine(l: string): string {
    Collapse(Trim(l))
  }

  /** `.map(l => l.trim().replace(/\s+/g, " "))` */
  function CleanLines(ls: seq<string>): seq<string> {
    if ls == [] then [] else [CleanLine(ls[0])] + CleanLines(ls[1..])
  }

  /** `.filter(l => l !== "")` */
  function DropEmpty(ls: seq<string>): seq<string> {
    if ls == [] then [] else (if ls[0] == [] then [] else [ls[0]]) + DropEmpty(ls[1..])
  }

  /** The whole `sanitizeSection` chain. */
  function SanitizeSection(text: string): string {
    Trim(Join(DropEmpty(CleanLines(SplitOn(RemoveMarks(text), "\n"))), "\n"))
  }

  /**
   * The shape of sanitized text: no `#` or `*`; the only whitespace
   * characters are ' ' and '\n'; no two whitespace characters are adjacent
   * (so no blank line, no line with surrounding whitespace and no run of
   * spaces); no whitespace at either end.
   */
  predicate Clean(s: string) {
    CleanChars(s) && NoSpaceRun(s) && (s == [] || (!IsSpace(s[0]) && !IsSpace(s[|s| - 1])))
  }

  /** No `#` or `*`, and the only whitespace characters are ' ' and '\n'. */
  predicate CleanChars(s: string) {
    forall i :: 0 <= i < |s| ==> !IsMark(s[i]) && (IsSpace(s[i]) ==> s[i] == ' ' || s[i] == '\n')
  }

  /** No two whitespace characters are adjacent. */
  predicate NoSpaceRun(s: string) {
    forall i :: 0 <= i < |s| - 1 ==> !(IsSpace(s[i]) && IsSpace(s[i + 1]))
  }

  /** Any slice of a clean text has clean characters and no whitespace run. */
  lemma {:induction false} CleanSlice(s: string, a: nat, b: nat)
    requires a <= b <= |s| && CleanChars(s) && NoSpaceRun(s)
    ensures CleanChars(s[a..b]) && NoSpaceRun(s[a..b])
  {
    var t := s[a..b];
    assert forall i :: 0 <= i < |t| ==> t[i] == s[a + i];
  }

  /** A single non-empty clean line. */
  predicate CleanSingleLine(l: string) {
    l != [] && Clean(l) && '\n' !in l
  }

  // ---------------------------------------------------------------------------
  // Shape of the output

  /** No `#` or `*` in `s`. */
  predicate MarkFree(s: string) {
    forall i :: 0 <= i < |s| ==> !IsMark(s[i])
  }

  /** A clean text on one line, possibly empty. */
  predicate CleanOneLine(s: string) {
    Clean(s) && '\n' !in s
  }

  /** A cleaned line of mark-free text is a clean line, possibly empty. */
  lemma {:induction false} CleanLineShape(l: string)
    requires MarkFree(l)
    ensures CleanOneLine(CleanLine(l))
  {
    var t := Trim(l);
    var r := Collapse(t);
    TrimRemovesSpaceOnly(l);
    CollapseNoRun(t);
    CollapseChars(t);
    assert MarkFree(t) by {
      forall i | 0 <= i < |t| ensures !IsMark(t[i]) {
        assert t[i] == l[TrimOffset(l) + i];
      }
    }
    assert CleanChars(r);
    assert forall i :: 0 <= i < |r| ==> r[i] != '\n';
  }

  /** `CleanLines` cleans each line in place. */
  lemma {:induction false} CleanLinesAt(ls: seq<string>)
    ensures |CleanLines(ls)| == |ls|
    ensures forall k :: 0 <= k < |ls| ==> CleanLines(ls)[k] == CleanLine(ls[k])
  {
    if ls != [] {
      CleanLinesAt(ls[1..]);
      var r, rest := CleanLines(ls), CleanLines(ls[1..]);
      assert r == [CleanLine(ls[0])] + rest;
      forall k | 0 < k < |ls| ensures r[k] == CleanLine(ls[k]) {
        assert r[k] == rest[k - 1];
      }
    }
  }

  lemma {:induction false} CleanLinesShape(ls: seq<string>)
    requires forall k :: 0 <= k < |ls| ==> MarkFree(ls[k])
    ensures |CleanLines(ls)| == |ls|
    ensures forall k :: 0 <= k < |ls| ==> CleanOneLine(CleanLines(ls)[k])
  {
    CleanLinesAt(ls);
    forall k | 0 <= k < |ls| ensures CleanOneLine(CleanLines(ls)[k]) {
      CleanLineShape(ls[k]);
    }
  }

  lemma {:induction false} DropEmptyShape(ls: seq<string>)
    requires forall k :: 0 <= k < |ls| ==> CleanOneLine(ls[k])
    ensures forall k :: 0 <= k < |DropEmpty(ls)| ==> CleanSingleLine(DropEmpty(ls)[k])
  {
    if ls != [] {
      DropEmptyShape(ls[1..]);
    }
  }

  /** Two clean texts glued with a newline form a clean text. */
  lemma {:induction false} CleanGlue(a: string, b: string)
    requires a != [] && b != [] && Clean(a) && Clean(b)
    ensures Clean(a + "\n" + b)
  {
    var s := a + "\n" + b;
    assert forall i :: 0 <= i < |a| ==> s[i] == a[i];
    assert s[|a|] == '\n';
    assert forall i :: |a| < i < |s| ==> s[i] == b[i - |a| - 1];
  }

  lemma {:induction false} JoinClean(ls: seq<string>)
    requires forall k :: 0 <= k < |ls| ==> CleanSingleLine(ls[k])
    ensures Clean(Join(ls, "\n")) && (ls != [] ==> Join(ls, "\n") != [])
  {
    if |ls| > 1 {
      JoinClean(ls[1..]);
      CleanGlue(ls[0], Join(ls[1..], "\n"));
    }
  }

  /** The lines of a mark-free text are mark-free. */
  lemma {:induction false} SplitMarkFree(s: string)
    requires MarkFree(s)
    ensures forall k :: 0 <= k < |SplitOn(s, "\n")| ==> MarkFree(SplitOn(s, "\n")[k])
  {
    var parts := SplitOn(s, "\n");
    forall k | 0 <= k < |parts| ensures MarkFree(parts[k]) {
      forall i | 0 <= i < |parts[k]| ensures !IsMark(parts[k][i]) {
        assert parts[k][i] in parts[k];
        assert parts[k][i] in s;
        var j :| 0 <= j < |s| && s[j] == parts[k][i];
      }
    }
  }

  /**
   * Every sanitized text is clean: no `#` or `*`, no blank line, no line with
   * leading or trailing whitespace, and no run of two whitespace characters.
   */
  lemma {:induction false} SanitizeIsClean(text: string)
    ensures Clean(SanitizeSection(text))
  {
    var rm := RemoveMarks(text);
    var parts := SplitOn(rm, "\n");
    SplitMarkFree(rm);
    CleanLinesShape(parts);
    DropEmptyShape(CleanLines(parts));
    var joined := Join(DropEmpty(CleanLines(parts)), "\n");
    JoinClean(DropEmpty(CleanLines(parts)));
    TrimRemovesSpaceOnly(joined);
  }

  // ---------------------------------------------------------------------------
  // Sanitizing clean text changes nothing

  lemma {:induction false} CollapseFixesRunFree(s: string)
    requires forall i :: 0 <= i < |s| && IsSpace(s[i]) ==> s[i] == ' '
    requires forall i :: 0 <= i < |s| - 1 ==> !(IsSpace(s[i]) && IsSpace(s[i + 1]))
    ensures Collapse(s) == s
    decreases |s|
  {
    if s != [] {
      CollapseFixesRunFree(s[1..]);
      if IsSpace(s[0]) {
        assert TrimStart(s[1..]) == s[1..];
      }
    }
  }

  /** The lines of a non-empty clean text are non-empty clean lines. */
  lemma {:induction false} SplitCleanLines(s: string)
    requires s != [] && Clean(s)
    ensures forall k :: 0 <= k < |SplitOn(s, "\n")| ==> CleanSingleLine(SplitOn(s, "\n")[k])
    decreases |s|
  {
    var parts := SplitOn(s, "\n");
    match Find(s, "\n", 0)
    case None =>
      assert parts == [s];
      NoNewlineWithoutOccurrence(s);
    case Some(i) =>
      SplitCleanStep(s, i);
      SplitCleanLines(s[i + 1..]);
      assert parts == [s[..i]] + SplitOn(s[i + 1..], "\n");
  }

  /** Cutting a clean text at its first newline leaves a clean line and a non-empty clean rest. */
  lemma {:induction false} SplitCleanStep(s: string, i: nat)
    requires s != [] && Clean(s)
    requires OccursAt(s, "\n", i) && forall j :: 0 <= j < i ==> !OccursAt(s, "\n", j)
    ensures CleanSingleLine(s[..i]) && s[i + 1..] != [] && Clean(s[i + 1..])
  {
    assert s[i] == '\n' by { assert s[i..i + 1] == "\n"; }
    assert i != 0 && i != |s| - 1;
    var head, tail := s[..i], s[i + 1..];
    CleanSlice(s, 0, i);
    CleanSlice(s, i + 1, |s|);
    assert head[0] == s[0] && head[i - 1] == s[i - 1];
    assert tail[0] == s[i + 1] && tail[|tail| - 1] == s[|s| - 1];
    forall j | 0 <= j < |head| ensures !OccursAt(head, "\n", j) {
      assert !OccursAt(s, "\n", j);
      assert head[j..j + 1] == s[j..j + 1];
    }
    NoNewlineWithoutOccurrence(head);
  }

  /** A string in which "\n" occurs nowhere has no newline character. */
  lemma {:induction false} NoNewlineWithoutOccurrence(s: string)
    requires forall j :: 0 <= j < |s| ==> !OccursAt(s, "\n", j)
    ensures '\n' !in s
  {
    forall j | 0 <= j < |s| ensures s[j] != '\n' {
      assert !OccursAt(s, "\n", j);
      assert s[j..j + 1] == [s[j]];
    }
  }

  lemma {:induction false} CleanLinesFixesCleanLines(ls: seq<string>)
    requires forall k :: 0 <= k < |ls| ==> CleanSingleLine(ls[k])
    ensures CleanLines(ls) == ls && DropEmpty(ls) == ls
  {
    if ls != [] {
      var l := ls[0];
      TrimRemovesSpaceOnly(l);
      CollapseFixesRunFree(l);
      CleanLinesFixesCleanLines(ls[1..]);
    }
  }

  /** Clean text is a fixed point of the sanitizer. */
  lemma {:induction false} SanitizeFixesClean(s: string)
    requires Clean(s)
    ensures SanitizeSection(s) == s
  {
    assert RemoveMarks(s) == s;
    var parts := SplitOn(s, "\n");
    if s == [] {
      assert parts == [[]];
      assert CleanLines(parts) == [[]];
    } else {
      SplitCleanLines(s);
      CleanLinesFixesCleanLines(parts);
    }
    TrimRemovesSpaceOnly(s);
  }

  /** `sanitizeSection` is idempotent. */
  lemma {:induction false} SanitizeIdempotent(text: string)
    ensures SanitizeSection(SanitizeSection(text)) == SanitizeSection(text)
  {
    SanitizeIsClean(text);
    SanitizeFixesClean(SanitizeSection(text));
  }

  /**
   * Read line by line, sanitized text has no blank line and every line is
   * trimmed, mark-free and free of whitespace runs.
   */
  lemma {:induction false} SanitizedLines(text: string)
    requires SanitizeSection(text) != []
    ensures forall k :: 0 <= k < |SplitOn(SanitizeSection(text), "\n")| ==>
      CleanSingleLine(SplitOn(SanitizeSection(text), "\n")[k])
  {
    SanitizeIsClean(text);
    SplitCleanLines(SanitizeSection(text));
  }

  // ---------------------------------------------------------------------------
  // Nothing visible is lost

  /** The non-space characters of a sequence of lines, concatenated. */
  function NonSpaceAll(ls: seq<string>): string {
    if ls == [] then [] else NonSpace(ls[0]) + NonSpaceAll(ls[1..])
  }

  lemma {:induction false} CollapseKeepsNonSpace(s: string)
    ensures NonSpace(Collapse(s)) == NonSpace(s)
    decreases |s|
  {
    if s != [] {
      if IsSpace(s[0]) {
        var rest := TrimStart(s[1..]);
        TrimStartShape(s[1..]);
        CollapseKeepsNonSpace(rest);
        NonSpaceAppend([' '], Collapse(rest));
        var k := |s[1..]| - |rest|;
        assert s[1..] == s[1..][..k] + rest;
        NonSpaceOfSpaces(s[1..][..k]);
        NonSpaceAppend(s[1..][..k], rest);
      } else {
        CollapseKeepsNonSpace(s[1..]);
        NonSpaceAppend([s[0]], Collapse(s[1..]));
      }
    }
  }

  lemma {:induction false} CleanLinesKeepNonSpace(ls: seq<string>)
    ensures NonSpaceAll(CleanLines(ls)) == NonSpaceAll(ls)
  {
    if ls != [] {
      TrimKeepsNonSpace(ls[0]);
      CollapseKeepsNonSpace(Trim(ls[0]));
      CleanLinesKeepNonSpace(ls[1..]);
    }
  }

  lemma {:induction false} DropEmptyKeepsNonSpace(ls: seq<string>)
    ensures NonSpaceAll(DropEmpty(ls)) == NonSpaceAll(ls)
  {
    if ls != [] {
      DropEmptyKeepsNonSpace(ls[1..]);
      var d := DropEmpty(ls);
      if ls[0] == [] {
        assert d == DropEmpty(ls[1..]);
        assert NonSpace(ls[0]) == [];
      } else {
        assert d == [ls[0]] + DropEmpty(ls[1..]);
        assert d[0] == ls[0] && d[1..] == DropEmpty(ls[1..]);
        assert NonSpaceAll(d) == NonSpace(ls[0]) + NonSpaceAll(DropEmpty(ls[1..]));
      }
    }
  }

  lemma {:induction false} JoinKeepsNonSpace(ls: seq<string>)
    ensures NonSpace(Join(ls, "\n")) == NonSpaceAll(ls)
  {
    if |ls| == 1 {
      assert ls[1..] == [];
    } else if |ls| > 1 {
      JoinKeepsNonSpace(ls[1..]);
      NonSpaceAppend(ls[0] + "\n", Join(ls[1..], "\n"));
      NonSpaceAppend(ls[0], "\n");
    }
  }

  /**
   * Sanitizing keeps every visible character except `#` and `*`, in order:
   * only whitespace is collapsed or dropped.
   */
  lemma {:induction false} SanitizeKeepsText(text: string)
    ensures NonSpace(SanitizeSection(text)) == NonSpace(RemoveMarks(text))
  {
    var parts := SplitOn(RemoveMarks(text), "\n");
    var joined := Join(DropEmpty(CleanLines(parts)), "\n");
    TrimKeepsNonSpace(joined);
    JoinKeepsNonSpace(DropEmpty(CleanLines(parts)));
    DropEmptyKeepsNonSpace(CleanLines(parts));
    CleanLinesKeepNonSpace(parts);
    JoinKeepsNonSpace(parts);
  }
}
