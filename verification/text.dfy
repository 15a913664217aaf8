/**
 * Character and string primitives shared by the model: the JavaScript notion
 * of whitespace (the set matched by `\s` and removed by `String.prototype.trim`),
 * trimming, literal substring search, and `split`/`join` on a literal separator.
 * Strings are sequences of Unicode scalar values.
 */
module Text {

  datatype Option<T> = None | Some(value: T)

  /** JavaScript WhiteSpace and LineTerminator code points: what `\s` matches and `trim` removes. */
  predicate IsSpace(c: char) {
    c == '\t' || c == '\n' || c == '\U{000B}' || c == '\U{000C}' || c == '\r' || c == ' '
    || c == '\U{00A0}' || c == '\U{1680}' || ('\U{2000}' <= c <= '\U{200A}')
    || c == '\U{2028}' || c == '\U{2029}' || c == '\U{202F}' || c == '\U{205F}'
    || c == '\U{3000}' || c == '\U{FEFF}'
  }

  /** The characters of `s` that are not whitespace, in order. */
  function NonSpace(s: string): string {
    if s == [] then [] else (if IsSpace(s[0]) then [] else [s[0]]) + NonSpace(s[1..])
  }

  lemma {:induction false} NonSpaceAppend(a: string, b: string)
    ensures NonSpace(a + b) == NonSpace(a) + NonSpace(b)
  {
    if a != [] {
      assert (a + b)[0] == a[0];
      assert (a + b)[1..] == a[1..] + b;
      NonSpaceAppend(a[1..], b);
    } else {
      assert a + b == b;
    }
  }

  lemma {:induction false} NonSpaceOfSpaces(s: string)
    requires forall i :: 0 <= i < |s| ==> IsSpace(s[i])
    ensures NonSpace(s) == []
  {
    if s != [] {
      NonSpaceOfSpaces(s[1..]);
    }
  }

  /** `s` with its leading whitespace removed: it starts with a non-space (see `TrimStartShape`). */
  function TrimStart(s: string): (r: string)
    ensures |r| <= |s|
    ensures r == [] || !IsSpace(r[0])
    decreases |s|
  {
    if s != [] && IsSpace(s[0]) then TrimStart(s[1..]) else s
  }

  /** `TrimStart(s)` is the suffix of `s` left after a run of whitespace. */
  lemma {:induction false} TrimStartShape(s: string)
    ensures TrimStart(s) == s[|s| - |TrimStart(s)|..]
    ensures forall i :: 0 <= i < |s| - |TrimStart(s)| ==> IsSpace(s[i])
    decreases |s|
  {
    if s != [] && IsSpace(s[0]) {
      TrimStartShape(s[1..]);
    }
  }

  /** `s` with its trailing whitespace removed: it ends with a non-space (see `TrimEndShape`). */
  function TrimEnd(s: string): (r: string)
    ensures |r| <= |s|
    ensures r == [] || !IsSpace(r[|r| - 1])
    decreases |s|
  {
    if s != [] && IsSpace(s[|s| - 1]) then TrimEnd(s[..|s| - 1]) else s
  }

  /** `TrimEnd(s)` is the prefix of `s` before a run of whitespace. */
  lemma {:induction false} TrimEndShape(s: string)
    ensures TrimEnd(s) == s[..|TrimEnd(s)|]
    ensures forall i :: |TrimEnd(s)| <= i < |s| ==> IsSpace(s[i])
    decreases |s|
  {
    if s != [] && IsSpace(s[|s| - 1]) {
      TrimEndShape(s[..|s| - 1]);
    }
  }

  /** Where `Trim(s)` starts inside `s`. */
  function TrimOffset(s: string): nat {
    |s| - |TrimStart(s)|
  }

  /** JavaScript `trim`: the result neither starts nor ends with whitespace. */
  function Trim(s: string): (r: string)
    ensures |r| <= |s|
    ensures r == [] || (!IsSpace(r[0]) && !IsSpace(r[|r| - 1]))
  {
    TrimEndShape(TrimStart(s));
    TrimEnd(TrimStart(s))
  }

  /**
   * `Trim(s)` is the slice of `s` left after removing surrounding
   * whitespace, and only whitespace lies outside it; so a text without
   * surrounding whitespace is its own trim.
   */
  lemma {:induction false} TrimRemovesSpaceOnly(s: string)
    ensures TrimOffset(s) + |Trim(s)| <= |s| && Trim(s) == s[TrimOffset(s)..TrimOffset(s) + |Trim(s)|]
    ensures forall i :: 0 <= i < TrimOffset(s) ==> IsSpace(s[i])
    ensures forall i :: TrimOffset(s) + |Trim(s)| <= i < |s| ==> IsSpace(s[i])
    ensures (s == [] || (!IsSpace(s[0]) && !IsSpace(s[|s| - 1]))) ==> Trim(s) == s
  {
    TrimIsSlice(s);
    TrimStartShape(s);
    TrimTailIsSpace(s);
    if s == [] || (!IsSpace(s[0]) && !IsSpace(s[|s| - 1])) {
      assert TrimStart(s) == s;
    }
  }

  lemma {:induction false} TrimIsSlice(s: string)
    ensures TrimOffset(s) + |Trim(s)| <= |s| && Trim(s) == s[TrimOffset(s)..TrimOffset(s) + |Trim(s)|]
  {
    var a := TrimStart(s);
    TrimStartShape(s);
    TrimEndShape(a);
    assert a == s[TrimOffset(s)..];
  }

  lemma {:induction false} TrimTailIsSpace(s: string)
    ensures forall i :: TrimOffset(s) + |Trim(s)| <= i < |s| ==> IsSpace(s[i])
  {
    var a, off, t := TrimStart(s), TrimOffset(s), Trim(s);
    assert t == TrimEnd(a);
    forall i | off + |t| <= i < |s| ensures IsSpace(s[i]) {
      var k := i - off;
      assert a == s[off..] && 0 <= k < |a| && a[k] == s[i] by {
        TrimStartShape(s);
      }
      assert IsSpace(a[k]) by {
        TrimEndShape(a);
      }
    }
  }

  lemma {:induction false} TrimStartKeepsNonSpace(s: string)
    ensures NonSpace(TrimStart(s)) == NonSpace(s)
    decreases |s|
  {
    if s != [] && IsSpace(s[0]) {
      TrimStartKeepsNonSpace(s[1..]);
    }
  }

  lemma {:induction false} TrimEndKeepsNonSpace(s: string)
    ensures NonSpace(TrimEnd(s)) == NonSpace(s)
    decreases |s|
  {
    if s != [] && IsSpace(s[|s| - 1]) {
      var init := s[..|s| - 1];
      TrimEndKeepsNonSpace(init);
      assert s == init + [s[|s| - 1]];
      NonSpaceAppend(init, [s[|s| - 1]]);
    }
  }

  /** Trimming removes whitespace only: every non-space character of `s` survives, in order. */
  lemma {:induction false} TrimKeepsNonSpace(s: string)
    ensures NonSpace(Trim(s)) == NonSpace(s)
  {
    TrimStartKeepsNonSpace(s);
    TrimEndKeepsNonSpace(TrimStart(s));
  }

  /** Leading whitespace in front of a text that starts with a non-space is what `TrimStart` removes. */
  lemma {:induction false} TrimStartPast(a: string, y: string)
    requires forall i :: 0 <= i < |a| ==> IsSpace(a[i])
    requires y == [] || !IsSpace(y[0])
    ensures TrimStart(a + y) == y
    decreases |a|
  {
    if a == [] {
      assert a + y == y;
    } else {
      assert (a + y)[1..] == a[1..] + y;
      TrimStartPast(a[1..], y);
    }
  }

  /** Trailing whitespace after a text that ends with a non-space is what `TrimEnd` removes. */
  lemma {:induction false} TrimEndPast(y: string, b: string)
    requires forall i :: 0 <= i < |b| ==> IsSpace(b[i])
    requires y == [] || !IsSpace(y[|y| - 1])
    ensures TrimEnd(y + b) == y
    decreases |b|
  {
    if b == [] {
      assert y + b == y;
    } else {
      var init := b[..|b| - 1];
      assert (y + b)[..|y + b| - 1] == y + init;
      TrimEndPast(y, init);
    }
  }

  /** Trimming a text padded with whitespace on both sides gives the text back, if it is itself trimmed. */
  lemma {:induction false} TrimPadded(a: string, x: string, b: string)
    requires forall i :: 0 <= i < |a| ==> IsSpace(a[i])
    requires forall i :: 0 <= i < |b| ==> IsSpace(b[i])
    requires x == [] || (!IsSpace(x[0]) && !IsSpace(x[|x| - 1]))
    ensures Trim(a + x + b) == x
  {
    if x == [] {
      assert a + x + b == (a + b) + [];
      TrimStartPast(a + b, []);
    } else {
      assert a + x + b == a + (x + b);
      TrimStartPast(a, x + b);
      TrimEndPast(x, b);
    }
  }

  /** If a string ends with a non-space character, so does its trim, with the same character. */
  lemma {:induction false} TrimKeepsLastChar(s: string)
    requires s != [] && !IsSpace(s[|s| - 1])
    ensures Trim(s) != [] && Trim(s)[|Trim(s)| - 1] == s[|s| - 1]
  {
    TrimStartShape(s);
    var a := TrimStart(s);
    assert a[|a| - 1] == s[|s| - 1];
  }

  /** `pat` occurs in `s` starting at index `i`. */
  predicate OccursAt(s: string, pat: string, i: int) {
    0 <= i && i + |pat| <= |s| && s[i..i + |pat|] == pat
  }

  /** The least index at or after `from` where `pat` occurs in `s`, if any. */
  function Find(s: string, pat: string, from: nat): (r: Option<nat>)
    ensures r.Some? ==> from <= r.value && OccursAt(s, pat, r.value)
    ensures forall j :: from <= j && (r.None? || j < r.value) ==> !OccursAt(s, pat, j)
    decreases |s| - from
  {
    if from + |pat| > |s| then None
    else if s[from..from + |pat|] == pat then Some(from)
    else Find(s, pat, from + 1)
  }

  /**
   * If `pat` occurs at `at` and its first character occurs nowhere in
   * `s[from..at]`, the search from `from` finds `at`.
   */
  lemma {:induction false} FindAt(s: string, pat: string, from: nat, at: nat)
    requires pat != [] && from <= at && OccursAt(s, pat, at)
    requires forall j :: from <= j < at ==> s[j] != pat[0]
    ensures Find(s, pat, from) == Some(at)
  {
    var r := Find(s, pat, from);
    assert r.Some? ==> s[r.value..r.value + |pat|][0] == s[r.value];
  }

  /** The first occurrence at or after `from` is what the search finds. */
  lemma {:induction false} FindFirst(s: string, pat: string, from: nat, at: nat)
    requires from <= at && OccursAt(s, pat, at)
    requires forall j :: from <= j < at ==> !OccursAt(s, pat, j)
    ensures Find(s, pat, from) == Some(at)
  {
  }

  /** If the first character of `pat` does not occur in `s[from..at]`, no match is found before `at`. */
  lemma {:induction false} FindNotBefore(s: string, pat: string, from: nat, at: nat)
    requires pat != [] && from <= at
    requires forall j :: from <= j < at && j < |s| ==> s[j] != pat[0]
    ensures Find(s, pat, from).None? || Find(s, pat, from).value >= at
  {
    var r := Find(s, pat, from);
    assert r.Some? ==> s[r.value..r.value + |pat|][0] == s[r.value];
  }

  /**
   * The text between the first `open` and the first `close` after it: what
   * the JavaScript match `/open([\s\S]*?)close/` captures. Leftmost-first
   * search makes the first `open` the only candidate, since a later `open`
   * has no `close` after it either.
   */
  function Between(s: string, open: string, close: string): Option<string> {
    match Find(s, open, 0)
    case None => None
    case Some(i) =>
      match Find(s, close, i + |open|)
      case None => None
      case Some(j) => Some(s[i + |open|..j])
  }

  /** Where the two searches succeed, `Between` is the text between the two matches. */
  lemma {:induction false} BetweenAt(s: string, open: string, close: string, i: nat, from: nat, j: nat)
    requires Find(s, open, 0) == Some(i)
    requires from == i + |open|
    requires Find(s, close, from) == Some(j)
    ensures from <= j <= |s|
    ensures Between(s, open, close) == Some(s[from..j])
  {
    assert j <= |s|;
  }

  /** `Between` fails exactly when no `open` is followed, without overlap, by a `close`. */
  lemma {:induction false} BetweenNone(s: string, open: string, close: string)
    ensures Between(s, open, close).None? <==>
      forall i, j :: OccursAt(s, open, i) && i + |open| <= j ==> !OccursAt(s, close, j)
  {
    match Find(s, open, 0)
    case None =>
    case Some(i0) =>
      if Find(s, close, i0 + |open|).None? {
        forall i, j | OccursAt(s, open, i) && i + |open| <= j ensures !OccursAt(s, close, j) {
          assert i >= i0;
        }
      }
  }

  /** The text `Between` captures contains no `close`: the match ends at the first one. */
  lemma {:induction false} BetweenNoClose(s: string, open: string, close: string)
    requires close != [] && Between(s, open, close).Some?
    ensures forall k :: !OccursAt(Between(s, open, close).value, close, k)
  {
    var i := Find(s, open, 0).value;
    var from := i + |open|;
    var j := Find(s, close, from).value;
    BetweenAt(s, open, close, i, from, j);
    var x := s[from..j];
    forall k ensures !OccursAt(x, close, k) {
      OccursInSlice(s, close, from, j, k);
    }
  }

  /** An occurrence in a slice is an occurrence in the whole text, shifted by the slice's start. */
  lemma {:induction false} OccursInSlice(x: string, pat: string, a: nat, b: nat, k: int)
    requires a <= b <= |x|
    ensures OccursAt(x[a..b], pat, k) ==> OccursAt(x, pat, a + k)
  {
    var y := x[a..b];
    if OccursAt(y, pat, k) {
      var n := |pat|;
      var u, v := y[k..k + n], x[a + k..a + k + n];
      forall m | 0 <= m < n ensures u[m] == v[m] {
        assert u[m] == y[k + m] == x[a + k + m];
      }
      assert u == v;
    }
  }

  /** A slice of a text in which `pat` does not occur has no occurrence either. */
  lemma {:induction false} NoOccurrenceInSlice(x: string, pat: string, a: nat, b: nat)
    requires a <= b <= |x|
    requires forall k :: !OccursAt(x, pat, k)
    ensures forall k :: !OccursAt(x[a..b], pat, k)
  {
    forall k ensures !OccursAt(x[a..b], pat, k) {
      OccursInSlice(x, pat, a, b, k);
    }
  }

  /** Concatenation of `parts` with `sep` between neighbours (JavaScript `join`). */
  function Join(parts: seq<string>, sep: string): string {
    if |parts| == 0 then []
    else if |parts| == 1 then parts[0]
    else parts[0] + sep + Join(parts[1..], sep)
  }

  /**
   * JavaScript `split` on a non-empty literal separator: the pieces between
   * non-overlapping occurrences taken from the left. No piece contains the
   * separator, every character comes from `s`, and joining the pieces back
   * with the separator gives `s`.
   */
  function SplitOn(s: string, sep: string): (parts: seq<string>)
    requires sep != []
    ensures |parts| >= 1
    ensures Join(parts, sep) == s
    ensures forall k, j :: 0 <= k < |parts| ==> !OccursAt(parts[k], sep, j)
    ensures forall k, c :: 0 <= k < |parts| && c in parts[k] ==> c in s
    decreases |s|
  {
    match Find(s, sep, 0)
    case None => [s]
    case Some(i) =>
      var head := s[..i];
      var rest := SplitOn(s[i + |sep|..], sep);
      assert forall j :: OccursAt(head, sep, j) ==> OccursAt(s, sep, j) by {
        forall j | OccursAt(head, sep, j) ensures OccursAt(s, sep, j) {
          assert head[j..j + |sep|] == s[j..j + |sep|];
        }
      }
      assert s == head + sep + s[i + |sep|..];
      [head] + rest
  }
}
