/**
 * Reading the input file of try_final1.js into samples, and writing a
 * processed sample back out. The input is a sequence of sections, each
 * introduced by `<SAMPLE>` and holding tagged fields:
 *
 *   <SAMPLE>
 *   <PROMPT> …
 *   <RESPONSE> …
 *   <DOMAIN> …
 *   <SOURCE> …
 *
 * Lines `=== END FAILED SAMPLE ===` left by older runs are deleted first.
 */
module Samples {
  import opened Text

  const SampleTag := "<SAMPLE>"
  const PromptTag := "<PROMPT>"
  const ResponseTag := "<RESPONSE>"
  const DomainTag := "<DOMAIN>"
  const SourceTag := "<SOURCE>"

  /** The marker line older versions of the script appended after a failed sample. */
  const EndMarker := "=== END FAILED SAMPLE ==="

  /** Field values used when their tags are missing. */
  const DefaultDomain := "Cognitive Sciences"
  const DefaultSource := "…"

  // ---------------------------------------------------------------------------
  // Deleting the failure markers

  /** What `^` in a multiline JavaScript regular expression accepts before it. */
  predicate IsLineTerminator(c: char) {
    c == '\n' || c == '\r' || c == '\U{2028}' || c == '\U{2029}'
  }

  /**
   * `replace(/^=== END FAILED SAMPLE ===\r?\n?/gm, "")` on `s`, where
   * `atLineStart` says whether the character before `s` (if any) ends a line.
   * A match starts only at the beginning of a line and takes an optional
   * `\r` and an optional `\n` with it.
   */
  function StripMarkers(s: string, atLineStart: bool): string
    decreases |s|
  {
    if atLineStart && OccursAt(s, EndMarker, 0) then
      var k := MarkerLineEnd(s);
      StripMarkers(s[k..], IsLineTerminator(s[k - 1]))
    else if s == [] then []
    else [s[0]] + StripMarkers(s[1..], IsLineTerminator(s[0]))
  }

  /** Where a match of the marker at the start of `s` ends: past the marker, an optional `\r`, an optional `\n`. */
  function MarkerLineEnd(s: string): (k: nat)
    requires OccursAt(s, EndMarker, 0)
    ensures |EndMarker| <= k <= |s| && k <= |EndMarker| + 2
    ensures forall i :: |EndMarker| <= i < k ==> s[i] == '\r' || s[i] == '\n'
  {
    var k1 := if |EndMarker| < |s| && s[|EndMarker|] == '\r' then |EndMarker| + 1 else |EndMarker|;
    if k1 < |s| && s[k1] == '\n' then k1 + 1 else k1
  }

  /** The whole input with its marker lines deleted. */
  function StripFailedMarkers(raw: string): string {
    StripMarkers(raw, true)
  }

  ghost predicate NoMarker(s: string) {
    forall i :: !OccursAt(s, EndMarker, i)
  }

  lemma {:induction false} NoMarkerSuffix(s: string)
    requires s != [] && NoMarker(s)
    ensures NoMarker(s[1..])
  {
    forall i ensures !OccursAt(s[1..], EndMarker, i) {
      assert !OccursAt(s, EndMarker, i + 1);
      assert 0 <= i && i + |EndMarker| <= |s| - 1 ==>
        s[1..][i..i + |EndMarker|] == s[i + 1..i + 1 + |EndMarker|];
    }
  }

  /** A text in which the marker does not occur passes through unchanged. */
  lemma {:induction false} StripWithoutMarker(s: string, atLineStart: bool)
    requires NoMarker(s)
    ensures StripMarkers(s, atLineStart) == s
    decreases |s|
  {
    if s != [] {
      NoMarkerSuffix(s);
      StripWithoutMarker(s[1..], IsLineTerminator(s[0]));
    }
  }

  lemma {:induction false} MarkerHasNoLineBreak()
    ensures forall i :: 0 <= i < |EndMarker| ==> !IsLineTerminator(EndMarker[i])
  {
  }

  /**
   * Text up to the end of a line is stripped on its own, and the text after
   * it is stripped as starting a new line.
   */
  lemma {:induction false} StripAppend(u: string, x: string, atLineStart: bool)
    requires u != [] && IsLineTerminator(u[|u| - 1]) && NoMarker(u)
    ensures StripMarkers(u + x, atLineStart) == StripMarkers(u, atLineStart) + StripMarkers(x, true)
    decreases |u|
  {
    var next := IsLineTerminator(u[0]);
    var rest, tail := StripMarkers(u[1..], next), StripMarkers(x, true);
    var both := StripMarkers(u[1..] + x, next);
    if |u| == 1 {
      assert u[1..] == [] && u[1..] + x == x;
    } else {
      NoMarkerSuffix(u);
      StripAppend(u[1..], x, next);
    }
    StripStep(u, x, atLineStart);
    ConsAssoc(u[0], rest, tail, both);
  }

  lemma {:induction false} ConsAssoc(c: char, rest: string, tail: string, both: string)
    requires both == rest + tail
    ensures [c] + both == ([c] + rest) + tail
  {
  }

  /** The first character of a marker-free text ending a line is kept, whatever follows the text. */
  lemma {:induction false} StripStep(u: string, x: string, atLineStart: bool)
    requires u != [] && IsLineTerminator(u[|u| - 1]) && NoMarker(u)
    ensures StripMarkers(u + x, atLineStart) == [u[0]] + StripMarkers(u[1..] + x, IsLineTerminator(u[0]))
    ensures StripMarkers(u, atLineStart) == [u[0]] + StripMarkers(u[1..], IsLineTerminator(u[0]))
  {
    var s := u + x;
    NoMarkerAtStart(u, x);
    StripKeepsFirst(s, atLineStart);
    StripKeepsFirst(u, atLineStart);
    assert s[0] == u[0] && s[1..] == u[1..] + x;
  }

  /** A text that does not start with the marker keeps its first character. */
  lemma {:induction false} StripKeepsFirst(s: string, atLineStart: bool)
    requires s != [] && !OccursAt(s, EndMarker, 0)
    ensures StripMarkers(s, atLineStart) == [s[0]] + StripMarkers(s[1..], IsLineTerminator(s[0]))
  {
  }

  /** A marker-free text ending a line stays marker-free at its start whatever follows. */
  lemma {:induction false} NoMarkerAtStart(u: string, x: string)
    requires u != [] && IsLineTerminator(u[|u| - 1]) && NoMarker(u)
    ensures !OccursAt(u, EndMarker, 0) && !OccursAt(u + x, EndMarker, 0)
  {
    var s := u + x;
    MarkerHasNoLineBreak();
    if |u| >= |EndMarker| {
      assert s[..|EndMarker|] == u[..|EndMarker|];
      assert !OccursAt(u, EndMarker, 0);
    } else {
      assert s[|u| - 1] == u[|u| - 1];
    }
  }

  /** A marker line that starts a line is deleted together with its line break, `\n` or `\r\n`. */
  lemma {:induction false} MarkerLineDropped(w: string)
    ensures StripMarkers(EndMarker + "\n" + w, true) == StripMarkers(w, true)
    ensures StripMarkers(EndMarker + "\r\n" + w, true) == StripMarkers(w, true)
  {
    var s := EndMarker + "\n" + w;
    assert s[..|EndMarker|] == EndMarker;
    assert s[|EndMarker| + 1..] == w;
    var t := EndMarker + "\r\n" + w;
    assert t[..|EndMarker|] == EndMarker;
    assert t[|EndMarker| + 2..] == w;
  }

  // ---------------------------------------------------------------------------
  // Splitting into samples

  /** `raw.split("<SAMPLE>").slice(1)`: the text after each `<SAMPLE>`, up to the next one. */
  function SplitSamples(raw: string): seq<string> {
    SplitOn(raw, SampleTag)[1..]
  }

  /**
   * A tag: `<`, a name, `>`. Only its first character is `<` and only its
   * last is `>`, and it holds no line break or space, so two occurrences
   * never overlap.
   */
  predicate IsTag(t: string) {
    |t| >= 2 && t[0] == '<' && t[|t| - 1] == '>' &&
    (forall i :: 0 < i < |t| ==> t[i] != '<') &&
    (forall i :: 0 <= i < |t| - 1 ==> t[i] != '>') &&
    (forall i :: 0 <= i < |t| ==> t[i] != '\n' && t[i] != ' ')
  }

  lemma {:induction false} TagsAreTags()
    ensures IsTag(SampleTag) && IsTag(PromptTag) && IsTag(ResponseTag)
    ensures IsTag(DomainTag) && IsTag(SourceTag)
  {
  }

  /** The number of positions of `s` at or after `from` where `tag` occurs. */
  function TagCount(s: string, tag: string, from: nat): nat
    decreases |s| - from
  {
    if from + |tag| > |s| then 0
    else (if OccursAt(s, tag, from) then 1 else 0) + TagCount(s, tag, from + 1)
  }

  lemma {:induction false} CountSkip(s: string, tag: string, from: nat, to: nat)
    requires from <= to
    requires forall j :: from <= j < to ==> !OccursAt(s, tag, j)
    ensures TagCount(s, tag, from) == TagCount(s, tag, to)
    decreases |s| - from
  {
    if from < to && from + |tag| <= |s| {
      CountSkip(s, tag, from + 1, to);
    } else if from < to {
      CountPastEnd(s, tag, to);
    }
  }

  lemma {:induction false} CountPastEnd(s: string, tag: string, from: nat)
    requires from + |tag| > |s|
    ensures TagCount(s, tag, from) == 0
  {
  }

  lemma {:induction false} CountShift(s: string, tag: string, k: nat, from: nat)
    requires k <= |s|
    ensures TagCount(s, tag, k + from) == TagCount(s[k..], tag, from)
    decreases |s| - k - from
  {
    if k + from + |tag| <= |s| {
      assert s[k..][from..from + |tag|] == s[k + from..k + from + |tag|];
      CountShift(s, tag, k, from + 1);
    }
  }

  /** Occurrences of a tag never overlap: inside one occurrence no other starts. */
  lemma {:induction false} TagNoOverlap(s: string, tag: string, i: nat, d: nat)
    requires IsTag(tag) && OccursAt(s, tag, i) && 0 < d < |tag|
    ensures !OccursAt(s, tag, i + d)
  {
    assert s[i + d] == s[i..i + |tag|][d] == tag[d];
    assert i + d + |tag| <= |s| ==> s[i + d] == s[i + d..i + d + |tag|][0];
  }

  /** Without an occurrence, the count is zero. */
  lemma {:induction false} CountNone(s: string, tag: string)
    requires Find(s, tag, 0).None?
    ensures TagCount(s, tag, 0) == 0
  {
    CountSkip(s, tag, 0, |s| + 1);
    CountPastEnd(s, tag, |s| + 1);
  }

  /** The first occurrence counts one, and counting goes on after it. */
  lemma {:induction false} CountAfterFirst(s: string, tag: string, i: nat)
    requires IsTag(tag) && Find(s, tag, 0) == Some(i)
    ensures TagCount(s, tag, 0) == 1 + TagCount(s[i + |tag|..], tag, 0)
  {
    var k := i + |tag|;
    assert OccursAt(s, tag, i) && k <= |s|;
    CountSkip(s, tag, 0, i);
    assert TagCount(s, tag, i) == 1 + TagCount(s, tag, i + 1);
    forall j | i + 1 <= j < k ensures !OccursAt(s, tag, j) {
      TagNoOverlap(s, tag, i, j - i);
    }
    CountSkip(s, tag, i + 1, k);
    CountShift(s, tag, k, 0);
    assert TagCount(s, tag, k) == TagCount(s[k..], tag, 0);
  }

  /** Splitting on a tag gives one piece more than there are occurrences of the tag. */
  lemma {:induction false} SplitCount(s: string, tag: string)
    requires IsTag(tag)
    ensures |SplitOn(s, tag)| == 1 + TagCount(s, tag, 0)
    decreases |s|
  {
    match Find(s, tag, 0)
    case None =>
      CountNone(s, tag);
    case Some(i) =>
      var rest := s[i + |tag|..];
      var n := |SplitOn(rest, tag)|;
      assert |SplitOn(s, tag)| == 1 + n;
      assert n == 1 + TagCount(rest, tag, 0) by {
        SplitCount(rest, tag);
      }
      CountAfterFirst(s, tag, i);
  }

  /**
   * There are as many samples as occurrences of `<SAMPLE>`; whatever comes
   * before the first one belongs to no sample.
   */
  lemma {:induction false} SampleCount(raw: string)
    ensures |SplitSamples(raw)| == TagCount(raw, SampleTag, 0)
  {
    TagsAreTags();
    SplitCount(raw, SampleTag);
  }

  // ---------------------------------------------------------------------------
  // Field extraction

  datatype Fields = Fields(prompt: string, response: string, domain: string, source: string)

  /**
   * `(sec.match(/open([\s\S]*?)close/) || [, dflt])[1].trim()`: the trimmed
   * text between the first `open` and the next `close`, or `dflt`.
   */
  function TaggedField(sec: string, open: string, close: string, dflt: string): string {
    match Between(sec, open, close)
    case None => dflt
    case Some(x) => Trim(x)
  }

  /** `(sec.match(/open([\s\S]*)/) || [, dflt])[1].trim()`: the trimmed rest after the first `open`, or `dflt`. */
  function TailField(sec: string, open: string, dflt: string): string {
    match Find(sec, open, 0)
    case None => dflt
    case Some(i) => Trim(sec[i + |open|..])
  }

  /** Where a search result stands, with the end of the text for "not found". */
  function FoundOrEnd(r: Option<nat>, n: nat): nat {
    if r.None? then n else r.value
  }

  /**
   * The end of the lazy `([\s\S]*?)(stop1|stop2|$)`: the first `stop1` or
   * `stop2` at or after `from`, or the end of the text.
   */
  function FieldEnd(sec: string, from: nat, stop1: string, stop2: string): (end: nat)
    requires from <= |sec|
    ensures from <= end <= |sec|
  {
    var d := FoundOrEnd(Find(sec, stop1, from), |sec|);
    var s := FoundOrEnd(Find(sec, stop2, from), |sec|);
    if d <= s then d else s
  }

  /** `(sec.match(/open([\s\S]*?)(stop1|stop2|$)/) || [,""])[1].trim()` */
  function OpenField(sec: string, open: string, stop1: string, stop2: string): string {
    match Find(sec, open, 0)
    case None => []
    case Some(i) =>
      var from := i + |open|;
      Trim(sec[from..FieldEnd(sec, from, stop1, stop2)])
  }

  /** The prompt: between `<PROMPT>` and `<RESPONSE>`, or empty. */
  function PromptField(sec: string): string {
    TaggedField(sec, PromptTag, ResponseTag, [])
  }

  /** The response: after `<RESPONSE>`, up to `<DOMAIN>`, `<SOURCE>` or the end; empty without `<RESPONSE>`. */
  function ResponseField(sec: string): string {
    OpenField(sec, ResponseTag, DomainTag, SourceTag)
  }

  /** The domain: between `<DOMAIN>` and `<SOURCE>`, or "Cognitive Sciences". */
  function DomainField(sec: string): string {
    TaggedField(sec, DomainTag, SourceTag, DefaultDomain)
  }

  /** The source: everything after `<SOURCE>`, or "…". */
  function SourceField(sec: string): string {
    TailField(sec, SourceTag, DefaultSource)
  }

  function ExtractFields(sec: string): Fields {
    Fields(PromptField(sec), ResponseField(sec), DomainField(sec), SourceField(sec))
  }

  /** Neither starts nor ends with whitespace. */
  predicate Trimmed(x: string) {
    x == [] || (!IsSpace(x[0]) && !IsSpace(x[|x| - 1]))
  }

  /** A tagged field without an `open` followed by a `close` takes its default; either way it is trimmed if the default is. */
  lemma {:induction false} TaggedFieldDefault(sec: string, open: string, close: string, dflt: string)
    ensures (forall i, j :: OccursAt(sec, open, i) && i + |open| <= j ==> !OccursAt(sec, close, j))
      ==> TaggedField(sec, open, close, dflt) == dflt
    ensures Trimmed(dflt) ==> Trimmed(TaggedField(sec, open, close, dflt))
  {
    BetweenNone(sec, open, close);
  }

  lemma {:induction false} DefaultsTrimmed()
    ensures Trimmed(DefaultDomain) && Trimmed(DefaultSource)
  {
  }

  /**
   * A field whose tags are missing takes its default: an empty prompt or
   * response, the domain "Cognitive Sciences", the source "…". Every field
   * comes out trimmed.
   */
  lemma {:induction false} FieldDefaults(sec: string)
    ensures (forall i, j :: OccursAt(sec, PromptTag, i) && i + |PromptTag| <= j ==> !OccursAt(sec, ResponseTag, j))
      ==> PromptField(sec) == []
    ensures (forall i :: !OccursAt(sec, ResponseTag, i)) ==> ResponseField(sec) == []
    ensures (forall i, j :: OccursAt(sec, DomainTag, i) && i + |DomainTag| <= j ==> !OccursAt(sec, SourceTag, j))
      ==> DomainField(sec) == DefaultDomain
    ensures (forall i :: !OccursAt(sec, SourceTag, i)) ==> SourceField(sec) == DefaultSource
    ensures var f := ExtractFields(sec);
      Trimmed(f.prompt) && Trimmed(f.response) && Trimmed(f.domain) && Trimmed(f.source)
  {
    DefaultsTrimmed();
    TaggedFieldDefault(sec, PromptTag, ResponseTag, []);
    TaggedFieldDefault(sec, DomainTag, SourceTag, DefaultDomain);
  }

  // ---------------------------------------------------------------------------
  // Writing a record, and reading it back

  /** One output record: the five tag lines joined with newlines. */
  function RenderRecord(f: Fields): string {
    Join([SampleTag, PromptTag + " " + f.prompt, ResponseTag + " " + f.response,
          DomainTag + " " + f.domain, SourceTag + " " + f.source], "\n")
  }

  /** A line break, a tag, a space and a value. */
  function Seg(tag: string, x: string): string {
    "\n" + tag + " " + x
  }

  /** The record after its `<SAMPLE>` tag: the section a later run would read. */
  function Body(f: Fields): string {
    Seg(PromptTag, f.prompt) + Seg(ResponseTag, f.response) + Seg(DomainTag, f.domain) + Seg(SourceTag, f.source)
  }

  lemma {:induction false} JoinFive(p0: string, p1: string, p2: string, p3: string, p4: string, sep: string)
    ensures Join([p0, p1, p2, p3, p4], sep) == p0 + (sep + p1) + (sep + p2) + (sep + p3) + (sep + p4)
  {
    var ps := [p0, p1, p2, p3, p4];
    assert ps[1..][1..][1..][1..] == [p4];
    assert Join([p3, p4], sep) == p3 + sep + p4;
    assert ps[1..][1..][1..] == [p3, p4];
    assert Join([p2, p3, p4], sep) == p2 + sep + (p3 + sep + p4);
    assert ps[1..][1..] == [p2, p3, p4];
    assert Join([p1, p2, p3, p4], sep) == p1 + sep + (p2 + sep + (p3 + sep + p4));
    assert ps[1..] == [p1, p2, p3, p4];
  }

  lemma {:induction false} SegIsLine(t: string, x: string)
    ensures Seg(t, x) == "\n" + (t + " " + x)
  {
  }

  /** A record is `<SAMPLE>` followed by its body. */
  lemma {:induction false} RenderIsTaggedBody(f: Fields)
    ensures RenderRecord(f) == SampleTag + Body(f)
  {
    JoinFive(SampleTag, PromptTag + " " + f.prompt, ResponseTag + " " + f.response,
             DomainTag + " " + f.domain, SourceTag + " " + f.source, "\n");
    SegIsLine(PromptTag, f.prompt);
    SegIsLine(ResponseTag, f.response);
    SegIsLine(DomainTag, f.domain);
    SegIsLine(SourceTag, f.source);
  }

  predicate NoAngle(x: string) {
    forall i :: 0 <= i < |x| ==> x[i] != '<'
  }

  ghost predicate NoTag(u: string, tag: string) {
    forall j :: !OccursAt(u, tag, j)
  }

  lemma {:induction false} SegLayout(tag: string, x: string)
    ensures var s := Seg(tag, x);
      |s| == |tag| + 2 + |x| && s[0] == '\n' && s[1..1 + |tag|] == tag &&
      s[1 + |tag|] == ' ' && s[2 + |tag|..] == x
  {
  }

  /** An occurrence of `t` at `j` fixes the characters it covers. */
  lemma {:induction false} OccursCovers(s: string, t: string, j: int, k: int)
    requires OccursAt(s, t, j) && j <= k < j + |t|
    ensures s[k] == t[k - j]
  {
    assert s[j..j + |t|][k - j] == s[k];
  }

  lemma {:induction false} OccursInPrefix(p: string, q: string, t: string, j: int)
    requires OccursAt(p + q, t, j) && j + |t| <= |p|
    ensures OccursAt(p, t, j)
  {
    assert (p + q)[j..j + |t|] == p[j..j + |t|];
  }

  lemma {:induction false} OccursPastPrefix(p: string, q: string, t: string, k: int, at: int)
    requires OccursAt(q, t, k) && at == |p| + k
    ensures OccursAt(p + q, t, at)
  {
    assert (p + q)[at..at + |t|] == q[k..k + |t|];
  }

  lemma {:induction false} OccursInSuffix(p: string, q: string, t: string, j: int)
    requires OccursAt(p + q, t, j) && j >= |p|
    ensures OccursAt(q, t, j - |p|)
  {
    assert (p + q)[j..j + |t|] == q[j - |p|..j - |p| + |t|];
  }

  /** The only `<` of a segment whose value has none is the first character of its tag. */
  lemma {:induction false} SegAngle(t: string, x: string, j: int)
    requires IsTag(t) && NoAngle(x) && 0 <= j < |Seg(t, x)| && Seg(t, x)[j] == '<'
    ensures j == 1
  {
    SegLayout(t, x);
  }

  /** A segment holds no tag other than its own, when its value has no `<`. */
  lemma {:induction false} SegNoOtherTag(t1: string, x: string, t2: string)
    requires IsTag(t1) && IsTag(t2) && t1 != t2 && NoAngle(x)
    ensures NoTag(Seg(t1, x), t2)
  {
    var s := Seg(t1, x);
    SegLayout(t1, x);
    forall j | OccursAt(s, t2, j) ensures false {
      OccursCovers(s, t2, j, j);
      SegAngle(t1, x, j);
      if |t2| < |t1| {
        OccursCovers(s, t2, 1, |t2|);
      } else if |t2| > |t1| {
        OccursCovers(s, t2, 1, |t1|);
      }
    }
  }

  /** Gluing a text that starts with a line break to another keeps a tag out of both. */
  lemma {:induction false} NoTagConcat(u: string, v: string, tag: string)
    requires IsTag(tag) && NoTag(u, tag) && NoTag(v, tag) && (v == [] || v[0] == '\n')
    ensures NoTag(u + v, tag)
  {
    var s := u + v;
    forall j | OccursAt(s, tag, j) ensures false {
      if j + |tag| <= |u| {
        OccursInPrefix(u, v, tag, j);
      } else if j >= |u| {
        OccursInSuffix(u, v, tag, j);
      } else {
        OccursCovers(s, tag, j, |u|);
      }
    }
  }

  /**
   * Past a prefix free of a tag, glued to a text that holds the tag right
   * after its leading line break, the first occurrence of the tag is that one.
   */
  lemma {:induction false} FindPastPrefix(u: string, v: string, t: string)
    requires IsTag(t) && NoTag(u, t) && v != [] && v[0] == '\n' && OccursAt(v, t, 1)
    ensures Find(u + v, t, 0) == Some(|u| + 1)
  {
    var s := u + v;
    OccursPastPrefix(u, v, t, 1, |u| + 1);
    forall j | 0 <= j < |u| + 1 ensures !OccursAt(s, t, j) {
      NoEarlierOccurrence(u, v, t, j);
    }
    FindFirst(s, t, 0, |u| + 1);
  }

  lemma {:induction false} NoEarlierOccurrence(u: string, v: string, t: string, j: int)
    requires IsTag(t) && NoTag(u, t) && v != [] && v[0] == '\n'
    requires 0 <= j <= |u|
    ensures !OccursAt(u + v, t, j)
  {
    if OccursAt(u + v, t, j) {
      if j + |t| <= |u| {
        OccursInPrefix(u, v, t, j);
      } else {
        OccursCovers(u + v, t, j, |u|);
      }
    }
  }

  /** The characters after a segment's tag: a space, then the value. */
  lemma {:induction false} AfterTag(u: string, t: string, x: string, w: string, j: int)
    requires |u| + 1 + |t| <= j < |u| + |Seg(t, x)|
    ensures var s := u + Seg(t, x) + w;
      s[j] == ([' '] + x)[j - |u| - 1 - |t|]
  {
    SegLayout(t, x);
    var a := Seg(t, x);
    assert (u + a + w)[j] == a[j - |u|];
    assert a[1 + |t|..] == [' '] + x;
  }

  /** The text between a segment's tag and what follows the segment: a space, the value, one more character. */
  lemma {:induction false} FieldGap(u: string, t: string, x: string, r: string)
    requires r != []
    ensures var s := u + Seg(t, x) + r;
      s[|u| + 1 + |t|..|u| + |Seg(t, x)| + 1] == [' '] + x + [r[0]]
  {
    var a := Seg(t, x);
    SegLayout(t, x);
    var s := u + a + r;
    var from, to := |u| + 1 + |t|, |u| + |a| + 1;
    forall i | 0 <= i < to - from ensures s[from + i] == ([' '] + x + [r[0]])[i] {
      if i < to - from - 1 {
        assert s[from + i] == a[1 + |t| + i];
      }
    }
  }

  /**
   * In `u + Seg(t1, x) + Seg(t2, y) + w`, the first `t1` is the one of the
   * segment, the first `t2` after it is the next segment's, and the text
   * between them is the value `x` padded by a space and a line break.
   */
  lemma {:induction false} FieldAt(s: string, u: string, t1: string, x: string, t2: string, y: string, w: string, i: nat, from: nat, next: nat)
    requires IsTag(t1) && IsTag(t2) && NoAngle(x) && NoTag(u, t1)
    requires s == u + Seg(t1, x) + Seg(t2, y) + w
    requires i == |u| + 1 && from == i + |t1| && next == |u| + |Seg(t1, x)| + 1
    ensures Find(s, t1, 0) == Some(i)
    ensures Find(s, t2, from) == Some(next)
  {
    var r := Seg(t2, y) + w;
    assert s == u + Seg(t1, x) + r;
    SegLayout(t2, y);
    FieldStart(s, u, t1, x, r, i);
    NextTagAt(s, u, t1, x, t2, r, from, next);
  }

  /** The text between a segment's tag and the next segment's is the value padded by a space and a line break. */
  lemma {:induction false} FieldGapAt(u: string, t1: string, x: string, t2: string, y: string, w: string)
    ensures (u + Seg(t1, x) + Seg(t2, y) + w)[|u| + 1 + |t1|..|u| + |Seg(t1, x)| + 1] == [' '] + x + ['\n']
  {
    var a, b := Seg(t1, x), Seg(t2, y);
    assert u + a + b + w == u + a + (b + w);
    SegLayout(t2, y);
    FieldGap(u, t1, x, b + w);
  }

  /** After a segment whose value has no `<`, the next tag is found where the following segment starts. */
  lemma {:induction false} NextTagAt(s: string, u: string, t1: string, x: string, t2: string, r: string, from: nat, next: nat)
    requires t2 != [] && t2[0] == '<' && NoAngle(x) && OccursAt(r, t2, 1) && r[0] == '\n'
    requires s == u + Seg(t1, x) + r
    requires from == |u| + 1 + |t1| && next == |u| + |Seg(t1, x)| + 1
    ensures Find(s, t2, from) == Some(next)
  {
    GapNoAngle(s, u, t1, x, r, from, next);
    OccursPastPrefix(u + Seg(t1, x), r, t2, 1, next);
    FindAt(s, t2, from, next);
  }

  /** Between a segment's tag and the line break that follows the segment there is no `<`. */
  lemma {:induction false} GapNoAngle(s: string, u: string, t: string, x: string, r: string, from: nat, next: nat)
    requires NoAngle(x) && r != [] && r[0] == '\n' && s == u + Seg(t, x) + r
    requires from == |u| + 1 + |t| && next == |u| + |Seg(t, x)| + 1
    ensures from <= next <= |s|
    ensures forall j :: from <= j < next ==> s[j] != '<'
  {
    SegLayout(t, x);
    FieldGap(u, t, x, r);
    var gap := s[from..next];
    assert gap == [' '] + x + ['\n'];
    forall j | from <= j < next ensures s[j] != '<' {
      var i := j - from;
      assert s[j] == gap[i];
      if 0 < i <= |x| {
        assert gap[i] == x[i - 1];
      }
    }
  }

  /** Past a prefix free of `t`, the first `t` is the one of the segment that follows. */
  lemma {:induction false} FieldStart(s: string, u: string, t: string, x: string, r: string, i: nat)
    requires IsTag(t) && NoTag(u, t) && s == u + Seg(t, x) + r && i == |u| + 1
    ensures Find(s, t, 0) == Some(i)
  {
    var a := Seg(t, x);
    var v := a + r;
    SegLayout(t, x);
    assert v[1..1 + |t|] == t;
    FindPastPrefix(u, v, t);
    assert u + v == s;
  }

  /** In `u + Seg(t, x)`, the first `t` is the segment's. */
  lemma {:induction false} LastFieldAt(u: string, t: string, x: string)
    requires IsTag(t) && NoTag(u, t)
    ensures Find(u + Seg(t, x), t, 0) == Some(|u| + 1)
  {
    var a := Seg(t, x);
    SegLayout(t, x);
    assert a[1..1 + |t|] == t;
    FindPastPrefix(u, a, t);
  }

  /** In `u + Seg(t, x)`, the text after the segment's tag is `" " + x`. */
  lemma {:induction false} LastFieldRest(u: string, t: string, x: string)
    ensures |u| + 1 + |t| <= |u + Seg(t, x)| && (u + Seg(t, x))[|u| + 1 + |t|..] == [' '] + x
  {
    var a := Seg(t, x);
    SegLayout(t, x);
    assert (u + a)[|u| + 1 + |t|..] == a[1 + |t|..];
  }

  /** A field value the record format can carry: trimmed and free of `<`. */
  predicate Writable(x: string) {
    Trimmed(x) && NoAngle(x)
  }

  /** A value read back with the space after its tag and the line break after it. */
  lemma {:induction false} PadTrim(g: string, x: string)
    requires Trimmed(x) && g == [' '] + x + ['\n']
    ensures Trim(g) == x
  {
    TrimPadded([' '], x, ['\n']);
  }

  /** A value read back with the space after its tag, at the end of the text. */
  lemma {:induction false} PadTrimLast(g: string, x: string)
    requires Trimmed(x) && g == [' '] + x
    ensures Trim(g) == x
  {
    assert g == [' '] + x + [];
    TrimPadded([' '], x, []);
  }

  /** Trimming the text between a segment's tag and the next segment's gives the value back. */
  lemma {:induction false} GapTrim(s: string, u: string, t1: string, x: string, t2: string, y: string, w: string, from: nat, next: nat)
    requires Trimmed(x) && s == u + Seg(t1, x) + Seg(t2, y) + w
    requires from == |u| + 1 + |t1| && next == |u| + |Seg(t1, x)| + 1
    ensures from <= next <= |s|
    ensures Trim(s[from..next]) == x
  {
    FieldGapAt(u, t1, x, t2, y, w);
    PadTrim(s[from..next], x);
  }

  /** A value written between two segments' tags is read back by `TaggedField`. */
  lemma {:induction false} TaggedFieldAt(u: string, t1: string, x: string, t2: string, y: string, w: string, dflt: string)
    requires IsTag(t1) && IsTag(t2) && Writable(x) && NoTag(u, t1)
    ensures TaggedField(u + Seg(t1, x) + Seg(t2, y) + w, t1, t2, dflt) == x
  {
    var s := u + Seg(t1, x) + Seg(t2, y) + w;
    var i := |u| + 1;
    var from, next := i + |t1|, |u| + |Seg(t1, x)| + 1;
    FieldAt(s, u, t1, x, t2, y, w, i, from, next);
    BetweenAt(s, t1, t2, i, from, next);
    GapTrim(s, u, t1, x, t2, y, w, from, next);
  }


  /** A value written after a segment's tag and before another tag is read back by `OpenField`. */
  lemma {:induction false} OpenFieldAt(u: string, t1: string, x: string, t2: string, y: string, w: string, t3: string)
    requires IsTag(t1) && IsTag(t2) && IsTag(t3) && Writable(x) && NoTag(u, t1)
    ensures OpenField(u + Seg(t1, x) + Seg(t2, y) + w, t1, t2, t3) == x
  {
    var s := u + Seg(t1, x) + Seg(t2, y) + w;
    var i := |u| + 1;
    var from, next := i + |t1|, |u| + |Seg(t1, x)| + 1;
    FieldAt(s, u, t1, x, t2, y, w, i, from, next);
    NoStopInGap(s, u, t1, x, t2, y, w, t3, from, next);
    OpenFieldOf(s, t1, t2, t3, i, from, next);
    GapTrim(s, u, t1, x, t2, y, w, from, next);
  }


  /** `OpenField` in terms of where its searches succeed, when the first stop tag comes first. */
  lemma {:induction false} OpenFieldOf(s: string, open: string, stop1: string, stop2: string, i: nat, from: nat, next: nat)
    requires Find(s, open, 0) == Some(i)
    requires from == i + |open|
    requires Find(s, stop1, from) == Some(next)
    requires Find(s, stop2, from).None? || Find(s, stop2, from).value >= next
    ensures from <= next <= |s|
    ensures OpenField(s, open, stop1, stop2) == Trim(s[from..next])
  {
    assert next <= |s|;
    FieldEndAt(s, from, stop1, stop2, next);
  }

  /** The field ends at the first stop tag when the second one does not come earlier. */
  lemma {:induction false} FieldEndAt(s: string, from: nat, stop1: string, stop2: string, next: nat)
    requires from <= |s| && Find(s, stop1, from) == Some(next)
    requires Find(s, stop2, from).None? || Find(s, stop2, from).value >= next
    ensures FieldEnd(s, from, stop1, stop2) == next
  {
    assert next <= |s|;
  }

  /** No tag starts between a segment's tag and the line break that ends the segment. */
  lemma {:induction false} NoStopInGap(s: string, u: string, t1: string, x: string, t2: string, y: string, w: string, t3: string, from: nat, next: nat)
    requires IsTag(t3) && NoAngle(x) && s == u + Seg(t1, x) + Seg(t2, y) + w
    requires from == |u| + 1 + |t1| && next == |u| + |Seg(t1, x)| + 1
    ensures Find(s, t3, from).None? || Find(s, t3, from).value >= next
  {
    var r := Seg(t2, y) + w;
    assert s == u + Seg(t1, x) + r;
    SegStart(t2, y, w);
    GapNoAngle(s, u, t1, x, r, from, next);
    FindNotBefore(s, t3, from, next);
  }

  /** A segment followed by anything starts with a line break. */
  lemma {:induction false} SegStart(t: string, x: string, w: string)
    ensures Seg(t, x) + w != [] && (Seg(t, x) + w)[0] == '\n'
  {
  }

  /** `TailField` in terms of where its search succeeds. */
  lemma {:induction false} TailFieldOf(s: string, open: string, dflt: string, i: nat, from: nat)
    requires Find(s, open, 0) == Some(i) && from == i + |open|
    ensures from <= |s|
    ensures TailField(s, open, dflt) == Trim(s[from..])
  {
    assert from <= |s|;
  }

  /** A value written in the last segment is read back by `TailField`. */
  lemma {:induction false} TailFieldAt(u: string, t: string, x: string, dflt: string)
    requires IsTag(t) && Trimmed(x) && NoTag(u, t)
    ensures TailField(u + Seg(t, x), t, dflt) == x
  {
    var s := u + Seg(t, x);
    LastFieldAt(u, t, x);
    TailFieldOf(s, t, dflt, |u| + 1, |u| + 1 + |t|);
    LastFieldRest(u, t, x);
    PadTrimLast(s[|u| + 1 + |t|..], x);
  }

  /** A segment after a text free of a tag other than its own keeps the text free of it. */
  lemma {:induction false} SegKeepsNoTag(p: string, t1: string, x: string, t: string)
    requires IsTag(t1) && IsTag(t) && t1 != t && NoAngle(x) && NoTag(p, t)
    ensures NoTag(p + Seg(t1, x), t)
  {
    SegNoOtherTag(t1, x, t);
    SegLayout(t1, x);
    NoTagConcat(p, Seg(t1, x), t);
  }

  lemma {:induction false} TagsDistinct()
    ensures SampleTag != PromptTag && SampleTag != ResponseTag && SampleTag != DomainTag && SampleTag != SourceTag
    ensures PromptTag != ResponseTag && PromptTag != DomainTag && PromptTag != SourceTag
    ensures ResponseTag != DomainTag && ResponseTag != SourceTag && DomainTag != SourceTag
  {
    assert SampleTag[1] != PromptTag[1] && SampleTag[1] != DomainTag[1];
    assert SampleTag[2] != SourceTag[2] && PromptTag[1] != DomainTag[1] && PromptTag[1] != SourceTag[1];
    assert DomainTag[1] != SourceTag[1];
  }

  /** The prompt and the domain are free of the tags that come after them in a body. */
  lemma {:induction false} BodyPrefixes(f: Fields)
    requires NoAngle(f.prompt) && NoAngle(f.response) && NoAngle(f.domain)
    ensures NoTag(Seg(PromptTag, f.prompt) + Seg(ResponseTag, f.response), DomainTag)
    ensures NoTag(Seg(PromptTag, f.prompt) + Seg(ResponseTag, f.response) + Seg(DomainTag, f.domain), SourceTag)
  {
    TagsAreTags();
    TagsDistinct();
    var a, b, c := Seg(PromptTag, f.prompt), Seg(ResponseTag, f.response), Seg(DomainTag, f.domain);
    SegNoOtherTag(PromptTag, f.prompt, DomainTag);
    SegKeepsNoTag(a, ResponseTag, f.response, DomainTag);
    SegNoOtherTag(PromptTag, f.prompt, SourceTag);
    SegKeepsNoTag(a, ResponseTag, f.response, SourceTag);
    SegKeepsNoTag(a + b, DomainTag, f.domain, SourceTag);
  }

  lemma {:induction false} PromptRoundTrip(f: Fields)
    requires Writable(f.prompt)
    ensures PromptField(Body(f)) == f.prompt
  {
    TagsAreTags();
    var a, b := Seg(PromptTag, f.prompt), Seg(ResponseTag, f.response);
    var cd := Seg(DomainTag, f.domain) + Seg(SourceTag, f.source);
    assert Body(f) == [] + a + b + cd;
    TaggedFieldAt([], PromptTag, f.prompt, ResponseTag, f.response, cd, []);
  }

  lemma {:induction false} ResponseRoundTrip(f: Fields)
    requires Writable(f.prompt) && Writable(f.response)
    ensures ResponseField(Body(f)) == f.response
  {
    TagsAreTags();
    TagsDistinct();
    var a, b, c := Seg(PromptTag, f.prompt), Seg(ResponseTag, f.response), Seg(DomainTag, f.domain);
    var d := Seg(SourceTag, f.source);
    assert Body(f) == a + b + c + d;
    SegNoOtherTag(PromptTag, f.prompt, ResponseTag);
    OpenFieldAt(a, ResponseTag, f.response, DomainTag, f.domain, d, SourceTag);
  }

  lemma {:induction false} DomainRoundTrip(f: Fields)
    requires Writable(f.prompt) && Writable(f.response) && Writable(f.domain)
    ensures DomainField(Body(f)) == f.domain
  {
    TagsAreTags();
    var a, b, c := Seg(PromptTag, f.prompt), Seg(ResponseTag, f.response), Seg(DomainTag, f.domain);
    var d := Seg(SourceTag, f.source);
    assert Body(f) == (a + b) + c + d + [];
    BodyPrefixes(f);
    TaggedFieldAt(a + b, DomainTag, f.domain, SourceTag, f.source, [], DefaultDomain);
  }

  lemma {:induction false} SourceRoundTrip(f: Fields)
    requires Writable(f.prompt) && Writable(f.response) && Writable(f.domain) && Trimmed(f.source)
    ensures SourceField(Body(f)) == f.source
  {
    TagsAreTags();
    var a, b, c := Seg(PromptTag, f.prompt), Seg(ResponseTag, f.response), Seg(DomainTag, f.domain);
    var d := Seg(SourceTag, f.source);
    assert Body(f) == (a + b + c) + d;
    BodyPrefixes(f);
    TailFieldAt(a + b + c, SourceTag, f.source, DefaultSource);
  }

  /** A body holds no `<SAMPLE>`, when its values have no `<`. */
  lemma {:induction false} BodyHasNoSampleTag(f: Fields)
    requires NoAngle(f.prompt) && NoAngle(f.response) && NoAngle(f.domain) && NoAngle(f.source)
    ensures NoTag(Body(f), SampleTag)
  {
    TagsAreTags();
    TagsDistinct();
    var a, b, c := Seg(PromptTag, f.prompt), Seg(ResponseTag, f.response), Seg(DomainTag, f.domain);
    var d := Seg(SourceTag, f.source);
    SegNoOtherTag(PromptTag, f.prompt, SampleTag);
    SegKeepsNoTag(a, ResponseTag, f.response, SampleTag);
    SegKeepsNoTag(a + b, DomainTag, f.domain, SampleTag);
    SegKeepsNoTag(a + b + c, SourceTag, f.source, SampleTag);
  }

  /** A text made of a tag and a tail free of it splits into an empty head and the tail. */
  lemma {:induction false} SplitLeadingTag(s: string, tag: string, tail: string)
    requires IsTag(tag) && NoTag(tail, tag) && s == tag + tail
    ensures SplitOn(s, tag)[1..] == [tail]
  {
    assert s[0..|tag|] == tag;
    FindAt(s, tag, 0, 0);
    assert s[|tag|..] == tail;
  }

  /**
   * Reading a written record back: it splits into exactly one sample, whose
   * fields are the ones written, provided each value is trimmed and holds
   * no `<` (so that no value can be taken for a tag).
   */
  lemma {:induction false} RecordRoundTrip(f: Fields)
    requires Writable(f.prompt) && Writable(f.response) && Writable(f.domain) && Writable(f.source)
    ensures SplitSamples(RenderRecord(f)) == [Body(f)]
    ensures ExtractFields(Body(f)) == f
  {
    TagsAreTags();
    RenderIsTaggedBody(f);
    BodyHasNoSampleTag(f);
    SplitLeadingTag(RenderRecord(f), SampleTag, Body(f));
    PromptRoundTrip(f);
    ResponseRoundTrip(f);
    DomainRoundTrip(f);
    SourceRoundTrip(f);
  }
}
