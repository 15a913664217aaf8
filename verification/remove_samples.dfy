/**
 * remove_samples.py: delete `<SAMPLE>…<SOURCE>` sections of a corpus by their
 * 1-based position, given as an explicit list, as "the first N" or as an
 * inclusive range. The sections are located once, then cut out of the text
 * from the highest index down so that the offsets of the lower sections stay
 * valid. Cuts use Python slicing, which clamps offsets past the end.
 */
module RemoveSamples {
  import opened Text

  const SampleTag: string := "<SAMPLE>"
  const SourceTag: string := "<SOURCE>"

  /** A half-open character range `[start, end)` of the text, as `Match.span()` returns it. */
  datatype Span = Span(start: nat, end: nat)

  /** The spans lie inside the text, in ascending order, without overlapping. */
  predicate Ordered(text: string, spans: seq<Span>) {
    && (forall k :: 0 <= k < |spans| ==> spans[k].start <= spans[k].end <= |text|)
    && (forall a, b :: 0 <= a < b < |spans| ==> spans[a].end <= spans[b].start)
  }

  /** `span` starts with `<SAMPLE>` and ends just after the nearest `<SOURCE>` that follows it. */
  predicate IsSection(text: string, span: Span) {
    && span.start + |SampleTag| <= span.end - |SourceTag|
    && OccursAt(text, SampleTag, span.start)
    && OccursAt(text, SourceTag, span.end - |SourceTag|)
    && (forall j :: span.start + |SampleTag| <= j < span.end - |SourceTag| ==> !OccursAt(text, SourceTag, j))
  }

  /**
   * The matches of `<SAMPLE>.*?<SOURCE>` (dot matching newlines) scanned from
   * `pos`: each starts at the next `<SAMPLE>` and stops after the nearest
   * following `<SOURCE>`; the scan resumes after the match.
   */
  function SectionsFrom(text: string, pos: nat): seq<Span>
    decreases |text| - pos
  {
    match Find(text, SampleTag, pos)
    case None => []
    case Some(i) =>
      match Find(text, SourceTag, i + |SampleTag|)
      case None => []
      case Some(j) => [Span(i, j + |SourceTag|)] + SectionsFrom(text, j + |SourceTag|)
  }

  /** Where the scan from `pos` looks for the `<SAMPLE>` of section `k`. */
  function GapStart(spans: seq<Span>, pos: nat, k: nat): nat
    requires k <= |spans|
  {
    if k == 0 then pos else spans[k - 1].end
  }

  /** No `tag` starts at an index in `[lo, hi)`. */
  predicate Absent(text: string, tag: string, lo: nat, hi: int) {
    forall j :: lo <= j < hi ==> !OccursAt(text, tag, j)
  }

  /** No `<SAMPLE>` at or after `from` has a `<SOURCE>` after it. */
  predicate NoSectionAfter(text: string, from: nat) {
    forall i :: from <= i < |text| && OccursAt(text, SampleTag, i) ==> Absent(text, SourceTag, i + |SampleTag|, |text|)
  }

  /** The first section found from `pos` is a section starting at or after `pos`. */
  lemma {:induction false} FirstSection(text: string, pos: nat)
    requires SectionsFrom(text, pos) != []
    ensures var spans := SectionsFrom(text, pos);
      pos <= spans[0].start && IsSection(text, spans[0])
  {
    var i := Find(text, SampleTag, pos).value;
    var j := Find(text, SourceTag, i + |SampleTag|).value;
    assert SectionsFrom(text, pos)[0] == Span(i, j + |SourceTag|);
  }

  /** A non-empty scan from `pos` is its first section followed by the scan from that section's end. */
  lemma {:induction false} SectionsUnfold(text: string, pos: nat)
    requires SectionsFrom(text, pos) != []
    ensures var spans := SectionsFrom(text, pos);
      pos < spans[0].end <= |text| && spans[1..] == SectionsFrom(text, spans[0].end)
  {
    var i := Find(text, SampleTag, pos).value;
    var j := Find(text, SourceTag, i + |SampleTag|).value;
    assert SectionsFrom(text, pos) == [Span(i, j + |SourceTag|)] + SectionsFrom(text, j + |SourceTag|);
  }

  /** Every section the scan finds is a `<SAMPLE>…<SOURCE>` section at or after `pos`. */
  lemma {:induction false} SectionAt(text: string, pos: nat, k: nat)
    requires k < |SectionsFrom(text, pos)|
    ensures var spans := SectionsFrom(text, pos);
      pos <= spans[k].start && IsSection(text, spans[k])
    decreases |text| - pos
  {
    FirstSection(text, pos);
    if k > 0 {
      var spans := SectionsFrom(text, pos);
      SectionsUnfold(text, pos);
      var p := spans[0].end;
      SectionAt(text, p, k - 1);
      assert spans[k] == spans[1..][k - 1];
    }
  }

  /** Each section ends before the next one starts. */
  lemma {:induction false} SectionsChain(text: string, pos: nat, k: nat)
    requires k + 1 < |SectionsFrom(text, pos)|
    ensures var spans := SectionsFrom(text, pos);
      spans[k].end <= spans[k + 1].start
    decreases |text| - pos
  {
    var spans := SectionsFrom(text, pos);
    SectionsUnfold(text, pos);
    var p := spans[0].end;
    if k == 0 {
      SectionAt(text, p, 0);
      assert spans[1] == spans[1..][0];
    } else {
      SectionsChain(text, p, k - 1);
      assert spans[k] == spans[1..][k - 1] && spans[k + 1] == spans[1..][k];
    }
  }

  /** The scan skips no `<SAMPLE>` tag: none starts between a section and the next. */
  lemma {:induction false} SectionGap(text: string, pos: nat, k: nat)
    requires k < |SectionsFrom(text, pos)|
    ensures var spans := SectionsFrom(text, pos);
      Absent(text, SampleTag, GapStart(spans, pos, k), spans[k].start)
    decreases |text| - pos
  {
    var spans := SectionsFrom(text, pos);
    SectionsUnfold(text, pos);
    var p := spans[0].end;
    if k == 0 {
      var i := Find(text, SampleTag, pos).value;
      var j := Find(text, SourceTag, i + |SampleTag|).value;
      assert spans[0] == Span(i, j + |SourceTag|);
    } else {
      SectionGap(text, p, k - 1);
      assert spans[k] == spans[1..][k - 1];
      assert GapStart(spans, pos, k) == GapStart(spans[1..], p, k - 1);
    }
  }

  /** After the last section, no `<SAMPLE>` tag is followed by a `<SOURCE>` tag. */
  lemma {:induction false} LastSection(text: string, pos: nat)
    ensures var spans := SectionsFrom(text, pos);
      NoSectionAfter(text, GapStart(spans, pos, |spans|))
    decreases |text| - pos
  {
    var spans := SectionsFrom(text, pos);
    if spans == [] {
      match Find(text, SampleTag, pos)
      case None =>
      case Some(i) =>
        forall i' | pos <= i' < |text| && OccursAt(text, SampleTag, i')
          ensures Absent(text, SourceTag, i' + |SampleTag|, |text|)
        {
          assert i <= i';
        }
    } else {
      SectionsUnfold(text, pos);
      var p := spans[0].end;
      LastSection(text, p);
      assert GapStart(spans, pos, |spans|) == GapStart(spans[1..], p, |spans| - 1);
    }
  }

  /** Spans inside the text that each end before the next starts are ordered pairwise. */
  lemma {:induction false} ChainOrdered(text: string, spans: seq<Span>)
    requires forall k :: 0 <= k < |spans| ==> spans[k].start <= spans[k].end <= |text|
    requires forall k :: 0 <= k < |spans| - 1 ==> spans[k].end <= spans[k + 1].start
    ensures Ordered(text, spans)
  {
    forall a, b | 0 <= a < b < |spans| ensures spans[a].end <= spans[b].start {
      var c := a;
      while c + 1 < b
        invariant a <= c < b && spans[a].end <= spans[c + 1].start
      {
        c := c + 1;
      }
    }
  }

  /**
   * The scan finds sections in ascending, non-overlapping order, each from a
   * `<SAMPLE>` to just after the nearest `<SOURCE>` after it; it skips no
   * `<SAMPLE>` tag between sections, and after the last section no
   * `<SAMPLE>` tag has a `<SOURCE>` after it.
   */
  lemma {:induction false} SectionsFacts(text: string, pos: nat)
    ensures var spans := SectionsFrom(text, pos);
      && Ordered(text, spans)
      && (forall k :: 0 <= k < |spans| ==> pos <= spans[k].start && IsSection(text, spans[k]))
      && (forall k :: 0 <= k < |spans| ==> Absent(text, SampleTag, GapStart(spans, pos, k), spans[k].start))
      && NoSectionAfter(text, GapStart(spans, pos, |spans|))
  {
    var spans := SectionsFrom(text, pos);
    forall k | 0 <= k < |spans|
      ensures pos <= spans[k].start && IsSection(text, spans[k])
      ensures Absent(text, SampleTag, GapStart(spans, pos, k), spans[k].start)
    {
      SectionAt(text, pos, k);
      SectionGap(text, pos, k);
    }
    forall k | 0 <= k < |spans| - 1 ensures spans[k].end <= spans[k + 1].start {
      SectionsChain(text, pos, k);
    }
    ChainOrdered(text, spans);
    LastSection(text, pos);
  }

  /**
   * `find_sections`: every `<SAMPLE>…<SOURCE>` section of the text, in order
   * and without overlap, each ending at the nearest `<SOURCE>` after its
   * `<SAMPLE>`.
   */
  function FindSections(text: string): (spans: seq<Span>)
    ensures Ordered(text, spans)
    ensures forall k :: 0 <= k < |spans| ==> IsSection(text, spans[k])
  {
    SectionsFacts(text, 0);
    SectionsFrom(text, 0)
  }

  // ---------------------------------------------------------------------------
  // What removing a set of sections means

  /**
   * The text from `pos` on, with the sections `k..` whose index is in `del`
   * left out and every other character kept in order.
   */
  function Keep(text: string, spans: seq<Span>, del: set<nat>, k: nat, pos: nat): string
    requires Ordered(text, spans) && k <= |spans| && pos <= |text|
    requires k < |spans| ==> pos <= spans[k].start
    decreases |spans| - k
  {
    if k == |spans| then text[pos..]
    else
      text[pos..spans[k].start]
      + (if k in del then [] else text[spans[k].start..spans[k].end])
      + Keep(text, spans, del, k + 1, spans[k].end)
  }

  /** The text with exactly the sections whose 0-based index is in `del` removed. */
  function Excise(text: string, spans: seq<Span>, del: set<nat>): string
    requires Ordered(text, spans)
  {
    Keep(text, spans, del, 0, 0)
  }

  /** Total length of the sections `k..` whose index is in `del`. */
  function RemovedLength(spans: seq<Span>, del: set<nat>, k: nat): int
    requires k <= |spans|
    decreases |spans| - k
  {
    if k == |spans| then 0
    else (if k in del then spans[k].end - spans[k].start else 0) + RemovedLength(spans, del, k + 1)
  }

  lemma {:induction false} KeepLength(text: string, spans: seq<Span>, del: set<nat>, k: nat, pos: nat)
    requires Ordered(text, spans) && k <= |spans| && pos <= |text|
    requires k < |spans| ==> pos <= spans[k].start
    ensures |Keep(text, spans, del, k, pos)| == |text| - pos - RemovedLength(spans, del, k)
    decreases |spans| - k
  {
    if k < |spans| {
      KeepLength(text, spans, del, k + 1, spans[k].end);
    }
  }

  /** Removing sections shortens the text by exactly their total length. */
  lemma {:induction false} ExciseLength(text: string, spans: seq<Span>, del: set<nat>)
    requires Ordered(text, spans)
    ensures |Excise(text, spans, del)| == |text| - RemovedLength(spans, del, 0)
  {
    KeepLength(text, spans, del, 0, 0);
  }

  /** Only the indices from `k` on matter to `Keep(…, k, …)`. */
  lemma {:induction false} KeepIgnoresLowerIndices(text: string, spans: seq<Span>, d1: set<nat>, d2: set<nat>, k: nat, pos: nat)
    requires Ordered(text, spans) && k <= |spans| && pos <= |text|
    requires k < |spans| ==> pos <= spans[k].start
    requires forall d :: k <= d ==> (d in d1 <==> d in d2)
    ensures Keep(text, spans, d1, k, pos) == Keep(text, spans, d2, k, pos)
    decreases |spans| - k
  {
    if k < |spans| {
      KeepIgnoresLowerIndices(text, spans, d1, d2, k + 1, spans[k].end);
    }
  }

  /** Sections `k..m-1` that are not deleted come through verbatim, together with the gaps around them. */
  lemma {:induction false} KeepUntouched(text: string, spans: seq<Span>, del: set<nat>, k: nat, pos: nat, m: nat)
    requires Ordered(text, spans) && k <= m <= |spans| && pos <= |text|
    requires k < |spans| ==> pos <= spans[k].start
    requires forall d :: d in del ==> d >= m
    ensures var e := if m == k then pos else spans[m - 1].end;
      pos <= e <= |text| && (m < |spans| ==> e <= spans[m].start)
      && Keep(text, spans, del, k, pos) == text[pos..e] + Keep(text, spans, del, m, e)
    decreases m - k
  {
    if k < m {
      var s0, e0 := spans[k].start, spans[k].end;
      KeepUntouched(text, spans, del, k + 1, e0, m);
      var e := spans[m - 1].end;
      var tail := Keep(text, spans, del, m, e);
      assert k !in del;
      assert Keep(text, spans, del, k, pos) == text[pos..s0] + text[s0..e0] + Keep(text, spans, del, k + 1, e0);
      JoinSlices(text, pos, s0, e0, e, tail);
    }
  }

  /** Adjacent slices of a text, followed by `tail`, join into one slice followed by `tail`. */
  lemma {:induction false} JoinSlices(text: string, a: nat, b: nat, c: nat, d: nat, tail: string)
    requires a <= b <= c <= d <= |text|
    ensures text[a..b] + text[b..c] + (text[c..d] + tail) == text[a..d] + tail
  {
    assert text[a..b] + text[b..c] + text[c..d] == text[a..d];
  }

  /** Removing no section gives the text back. */
  lemma {:induction false} ExciseNothing(text: string, spans: seq<Span>, del: set<nat>)
    requires Ordered(text, spans) && del == {}
    ensures Excise(text, spans, del) == text
  {
    KeepUntouched(text, spans, del, 0, 0, |spans|);
  }

  /**
   * Cutting section `idx` by its original offsets out of a text from which
   * only higher sections were removed gives the text with `idx` removed too:
   * deleting from the back keeps the remaining offsets valid.
   */
  lemma {:induction false} CutBelowRemoved(text: string, spans: seq<Span>, del: set<nat>, idx: nat)
    requires Ordered(text, spans) && idx < |spans|
    requires forall d :: d in del ==> d > idx
    ensures var cur := Excise(text, spans, del);
      spans[idx].end <= |cur|
      && cur[..spans[idx].start] + cur[spans[idx].end..] == Excise(text, spans, del + {idx})
  {
    var s, e := spans[idx].start, spans[idx].end;
    var before := if idx == 0 then 0 else spans[idx - 1].end;
    KeepUntouched(text, spans, del, 0, 0, idx);
    KeepUntouched(text, spans, del + {idx}, 0, 0, idx);
    var rest := Keep(text, spans, del, idx + 1, e);
    KeepIgnoresLowerIndices(text, spans, del, del + {idx}, idx + 1, e);
    var a, b, c := text[0..before], text[before..s], text[s..e];
    assert |a| == before && |b| == s - before && |c| == e - s;
    var cur := Excise(text, spans, del);
    assert cur == a + (b + c + rest);
    assert Keep(text, spans, del + {idx}, idx, before) == b + [] + rest;
    assert b + [] == b;
    assert Excise(text, spans, del + {idx}) == a + (b + rest);
    SpliceOut(a, b, c, rest, s, e);
  }

  /** Cutting the middle piece `c` of `a + (b + c + d)` by its offsets leaves `a + (b + d)`. */
  lemma {:induction false} SpliceOut(a: string, b: string, c: string, d: string, i: nat, j: nat)
    requires i == |a| + |b| && j == i + |c|
    ensures var t := a + (b + c + d);
      j <= |t| && t[..i] + t[j..] == a + (b + d)
  {
    var t := a + (b + c + d);
    assert t[..i] == a + b;
    assert t[j..] == d;
  }

  // ---------------------------------------------------------------------------
  // What `remove_sections` does, step by step

  function Min(a: nat, b: nat): nat {
    if a <= b then a else b
  }

  /** `text[:start] + text[end:]` with Python's clamping of offsets past the end. */
  function PyCut(text: string, start: nat, end: nat): (r: string)
    ensures start <= end <= |text| ==> r == text[..start] + text[end..]
  {
    text[..Min(start, |text|)] + text[Min(end, |text|)..]
  }

  /** The text after the cuts for `order`, in that order, each by the span's original offsets. */
  function ApplyCuts(text: string, spans: seq<Span>, order: seq<nat>): string
    requires forall i :: 0 <= i < |order| ==> order[i] < |spans|
  {
    if order == [] then text
    else
      var last := spans[order[|order| - 1]];
      PyCut(ApplyCuts(text, spans, order[..|order| - 1]), last.start, last.end)
  }

  predicate StrictlyDescending(xs: seq<nat>) {
    forall a, b :: 0 <= a < b < |xs| ==> xs[a] > xs[b]
  }

  /** The values of a sequence, as a set. */
  function Elems(xs: seq<nat>): set<nat> {
    set x | x in xs
  }

  /** Cutting distinct sections from the highest index down removes exactly those sections. */
  lemma {:induction false} CutsFromTheBack(text: string, spans: seq<Span>, order: seq<nat>)
    requires Ordered(text, spans)
    requires forall i :: 0 <= i < |order| ==> order[i] < |spans|
    requires StrictlyDescending(order)
    ensures ApplyCuts(text, spans, order) == Excise(text, spans, Elems(order))
  {
    if order == [] {
      ExciseNothing(text, spans, Elems(order));
    } else {
      var n := |order|;
      var init, idx := order[..n - 1], order[n - 1];
      assert StrictlyDescending(init);
      CutsFromTheBack(text, spans, init);
      var del := Elems(init);
      forall d | d in del ensures d > idx {
        var a :| 0 <= a < n - 1 && init[a] == d;
        assert order[a] == d && order[n - 1] == idx;
      }
      assert order == init + [idx];
      assert Elems(order) == del + {idx};
      CutBelowRemoved(text, spans, del, idx);
    }
  }

  predicate Descending(xs: seq<nat>) {
    forall a, b :: 0 <= a < b < |xs| ==> xs[a] >= xs[b]
  }

  predicate Distinct(xs: seq<nat>) {
    forall a, b :: 0 <= a < b < |xs| ==> xs[a] != xs[b]
  }

  /** Insert `x` into a descending sequence, keeping it descending. */
  function Insert(x: nat, s: seq<nat>): (r: seq<nat>)
    ensures multiset(r) == multiset(s) + multiset{x}
  {
    if s == [] then [x]
    else if x >= s[0] then [x] + s
    else
      assert s == [s[0]] + s[1..];
      [s[0]] + Insert(x, s[1..])
  }

  /** Inserting a value below `m` into a sequence of values below `m` gives values below `m`. */
  lemma {:induction false} InsertBounded(x: nat, s: seq<nat>, m: nat)
    requires x < m && forall i :: 0 <= i < |s| ==> s[i] < m
    ensures forall i :: 0 <= i < |Insert(x, s)| ==> Insert(x, s)[i] < m
  {
    if s != [] && x < s[0] {
      InsertBounded(x, s[1..], m);
      var t := Insert(x, s[1..]);
      assert Insert(x, s) == [s[0]] + t;
      assert forall i :: 0 < i < |Insert(x, s)| ==> Insert(x, s)[i] == t[i - 1];
    }
  }

  /** Inserting into a descending sequence keeps it descending. */
  lemma {:induction false} InsertOrder(x: nat, s: seq<nat>)
    requires Descending(s)
    ensures Descending(Insert(x, s))
  {
    if s != [] && x < s[0] {
      var t := Insert(x, s[1..]);
      InsertOrder(x, s[1..]);
      assert Descending(s[1..]);
      InsertBounded(x, s[1..], s[0] + 1);
      assert Insert(x, s) == [s[0]] + t;
    }
  }

  /** Inserting a new value into a strictly descending sequence keeps it strictly descending. */
  lemma {:induction false} InsertStrictOrder(x: nat, s: seq<nat>)
    requires StrictlyDescending(s) && x !in s
    ensures StrictlyDescending(Insert(x, s))
  {
    if s != [] && x < s[0] {
      var t := Insert(x, s[1..]);
      assert x !in s[1..];
      assert StrictlyDescending(s[1..]);
      InsertStrictOrder(x, s[1..]);
      InsertBounded(x, s[1..], s[0]);
      assert Insert(x, s) == [s[0]] + t;
    }
  }

  /** `sorted(…, reverse=True)` by insertion: a descending permutation of the input. */
  function SortDescending(xs: seq<nat>): (r: seq<nat>)
    ensures multiset(r) == multiset(xs)
    ensures Descending(r)
  {
    if xs == [] then []
    else
      var rest := SortDescending(xs[1..]);
      assert xs == [xs[0]] + xs[1..];
      InsertOrder(xs[0], rest);
      Insert(xs[0], rest)
  }

  /** Sorting distinct values in reverse gives a strictly descending sequence. */
  lemma {:induction false} SortDistinct(xs: seq<nat>)
    ensures Distinct(xs) ==> StrictlyDescending(SortDescending(xs))
  {
    if xs != [] && Distinct(xs) {
      var rest := SortDescending(xs[1..]);
      SortDistinct(xs[1..]);
      assert xs == [xs[0]] + xs[1..];
      assert xs[0] !in multiset(rest);
      InsertStrictOrder(xs[0], rest);
    }
  }

  /** `(i-1 for i in indices if 1 <= i <= n)`: the valid 1-based indices, made 0-based, in list order. */
  function ValidZeroBased(indices: seq<int>, n: nat): (r: seq<nat>)
    ensures forall k :: 0 <= k < |r| ==> r[k] < n
  {
    if indices == [] then []
    else
      var i := indices[0];
      (if 1 <= i <= n then [(i - 1) as nat] else []) + ValidZeroBased(indices[1..], n)
  }

  /** The 0-based positions of the sections the index list selects. */
  function Selected(indices: seq<int>, n: nat): set<nat> {
    set i | i in indices && 1 <= i <= n :: (i - 1) as nat
  }

  /** The generator yields exactly the selected positions: no valid index is dropped, no invalid one kept. */
  lemma {:induction false} ValidZeroBasedSelects(indices: seq<int>, n: nat)
    ensures forall x :: x in ValidZeroBased(indices, n) <==> x in Selected(indices, n)
  {
    if indices != [] {
      var i := indices[0];
      ValidZeroBasedSelects(indices[1..], n);
      assert indices == [i] + indices[1..];
      var rest := ValidZeroBased(indices[1..], n);
      var head: seq<nat> := if 1 <= i <= n then [(i - 1) as nat] else [];
      assert ValidZeroBased(indices, n) == head + rest;
      forall x: nat ensures x in ValidZeroBased(indices, n) <==> x in Selected(indices, n) {
        if x in Selected(indices, n) {
          var j :| j in indices && 1 <= j <= n && x == (j - 1) as nat;
          if j != i {
            assert j in indices[1..];
            assert x in Selected(indices[1..], n);
          }
        }
        if x in head {
          assert i in indices;
        }
        if x in rest {
          assert x in Selected(indices[1..], n);
          var j :| j in indices[1..] && 1 <= j <= n && x == (j - 1) as nat;
          assert j in indices;
        }
      }
    }
  }

  /** Only the empty sequence has no values. */
  lemma {:induction false} NoElems(xs: seq<nat>)
    ensures Elems(xs) == {} ==> xs == []
  {
    if xs != [] {
      assert xs[0] in Elems(xs);
    }
  }

  /** A permutation has the same values. */
  lemma {:induction false} SameElems(xs: seq<nat>, ys: seq<nat>)
    requires multiset(xs) == multiset(ys)
    ensures Elems(xs) == Elems(ys)
  {
    forall x ensures x in xs <==> x in ys {
      assert x in xs <==> x in multiset(xs);
      assert x in ys <==> x in multiset(ys);
    }
  }

  /**
   * `to_del`: the selected 0-based positions, highest first. Each is a valid
   * position, every selected position occurs, and when the valid indices are
   * distinct the order is strictly descending.
   */
  function DeletionOrder(indices: seq<int>, n: nat): (order: seq<nat>)
    ensures forall k :: 0 <= k < |order| ==> order[k] < n
    ensures Descending(order)
    ensures Elems(order) == Selected(indices, n)
    ensures Distinct(ValidZeroBased(indices, n)) ==> StrictlyDescending(order)
  {
    var valid := ValidZeroBased(indices, n);
    var order := SortDescending(valid);
    ValidZeroBasedSelects(indices, n);
    SameElems(order, valid);
    SortDistinct(valid);
    assert forall k :: 0 <= k < |order| ==> order[k] < n by {
      forall k | 0 <= k < |order| ensures order[k] < n {
        assert order[k] in Elems(valid);
      }
    }
    order
  }

  /**
   * `remove_sections`. When the valid indices are distinct, the result is the
   * text with exactly the selected sections removed and every other character
   * kept in order, and it is shorter by their total length; an index list
   * with no valid index leaves the text unchanged. Duplicate indices are not
   * merged: each copy cuts the same offsets again from the shortened text.
   */
  method RemoveSections(text: string, indices: seq<int>) returns (result: string)
    ensures var spans := FindSections(text);
      result == ApplyCuts(text, spans, DeletionOrder(indices, |spans|))
    ensures var spans := FindSections(text);
      Distinct(ValidZeroBased(indices, |spans|)) ==>
        result == Excise(text, spans, Selected(indices, |spans|))
        && |result| == |text| - RemovedLength(spans, Selected(indices, |spans|), 0)
    ensures Selected(indices, |FindSections(text)|) == {} ==> result == text
  {
    var spans := FindSections(text);
    var toDelete := DeletionOrder(indices, |spans|);
    result := text;
    for j := 0 to |toDelete|
      invariant result == ApplyCuts(text, spans, toDelete[..j])
    {
      var span := spans[toDelete[j]];
      assert toDelete[..j + 1][..j] == toDelete[..j];
      result := PyCut(result, span.start, span.end);
    }
    assert toDelete[..|toDelete|] == toDelete;
    if Distinct(ValidZeroBased(indices, |spans|)) {
      CutsFromTheBack(text, spans, toDelete);
      ExciseLength(text, spans, Elems(toDelete));
    }
    NoElems(toDelete);
  }

  /** Removing one section leaves everything before it and everything after its `<SOURCE>` tag. */
  lemma {:induction false} ExciseOne(text: string, spans: seq<Span>, k: nat)
    requires Ordered(text, spans) && k < |spans|
    ensures Excise(text, spans, {k}) == text[..spans[k].start] + text[spans[k].end..]
  {
    ExciseNothing(text, spans, {});
    CutBelowRemoved(text, spans, {}, k);
    assert {} + {k} == {k};
  }

  /**
   * Removing one section of the corpus keeps the value after its `<SOURCE>`
   * tag: the section ends with the tag, and the text from there on is kept
   * verbatim right where the section started.
   */
  lemma {:induction false} RemoveOneKeepsSource(text: string, k: nat)
    requires k < |FindSections(text)|
    ensures var span := FindSections(text)[k];
      var result := Excise(text, FindSections(text), {k});
      && text[span.end - |SourceTag|..span.end] == SourceTag
      && result == text[..span.start] + text[span.end..]
      && result[span.start..] == text[span.end..]
  {
    var spans := FindSections(text);
    ExciseOne(text, spans, k);
    assert OccursAt(text, SourceTag, spans[k].end - |SourceTag|);
  }

  /** An index given twice is kept twice in the deletion order. */
  lemma {:induction false} RepeatedIndexOrder(i: int, n: nat)
    requires 1 <= i <= n
    ensures DeletionOrder([i, i], n) == [i - 1, i - 1]
    ensures Selected([i, i], n) == {i - 1}
  {
    var z := (i - 1) as nat;
    assert [i, i][1..] == [i];
    assert [i][1..] == [];
    assert ValidZeroBased([i], n) == [z];
    assert ValidZeroBased([i, i], n) == [z, z];
    assert [z, z][1..] == [z];
    assert SortDescending([z]) == [z];
    assert SortDescending([z, z]) == [z, z];
    assert i in [i, i];
  }

  /** Cutting section `k` twice by its offsets removes more than the section when text follows it. */
  lemma {:induction false} CutSameTwice(text: string, spans: seq<Span>, k: nat)
    requires k < |spans| && spans[k].start < spans[k].end < |text|
    ensures |ApplyCuts(text, spans, [k, k])| < |text| - (spans[k].end - spans[k].start)
  {
    var s, e := spans[k].start, spans[k].end;
    var cur := text[..s] + text[e..];
    assert [k, k][..1] == [k];
    assert [k][..0] == [];
    assert ApplyCuts(text, spans, [k]) == cur;
    assert ApplyCuts(text, spans, [k, k]) == PyCut(cur, s, e);
  }

  /**
   * Duplicate indices are not merged: when section `k` has any text after it
   * (such as its source value), naming it twice cuts its offsets a second
   * time out of the already shortened text, which loses characters that
   * followed the section. Removing the section once keeps them.
   */
  lemma {:induction false} RepeatedIndexCutsTwice(text: string, k: nat)
    requires k < |FindSections(text)| && FindSections(text)[k].end < |text|
    ensures var spans := FindSections(text);
      var twice := ApplyCuts(text, spans, DeletionOrder([k + 1, k + 1], |spans|));
      var once := Excise(text, spans, Selected([k + 1, k + 1], |spans|));
      once == text[..spans[k].start] + text[spans[k].end..]
      && |twice| < |once|
  {
    var spans := FindSections(text);
    RepeatedIndexOrder(k + 1, |spans|);
    ExciseOne(text, spans, k);
    CutSameTwice(text, spans, k);
  }

  // ---------------------------------------------------------------------------
  // The command line: which indices to remove

  /** The mutually exclusive ways of naming sections: `-i I…`, `--first N`, `--range START END`. */
  datatype Selection = Indices(list: seq<int>) | First(count: int) | Range(start: int, end: int)

  /** The index list `main` builds, or how building it stops. */
  datatype IndexList =
    | Chosen(indices: seq<int>)
    | UsageError(message: string)  // `p.error`: usage message and exit status 2
    | Crash                         // a falsy `-i`/`--first` value reaches `start, end = None`

  /** `list(range(lo, hi))`. */
  function RangeList(lo: int, hi: int): (r: seq<int>)
    ensures |r| == if lo < hi then hi - lo else 0
    ensures forall k :: 0 <= k < |r| ==> r[k] == lo + k
    ensures forall i :: i in r <==> lo <= i < hi
    decreases hi - lo
  {
    if lo < hi then [lo] + RangeList(lo + 1, hi) else []
  }

  /** The positions `lo..hi-1` that are natural numbers. */
  function Positions(lo: int, hi: int): (r: set<nat>)
    ensures forall k: nat :: k in r <==> lo <= k < hi
    decreases hi - lo
  {
    if lo >= hi then {}
    else if lo < 0 then Positions(0, hi)
    else {lo as nat} + Positions(lo + 1, hi)
  }

  function IntMin(a: int, b: int): int {
    if a <= b then a else b
  }

  const RangeMessage: string := "In --range START must be <= END"

  /**
   * The index list of `main`. A non-empty `-i` list is used as given; a
   * non-zero `--first N` gives `1..N` (nothing when N is negative); a range
   * gives `START..END` inclusive and is a usage error when START > END.
   * `--first 0` is falsy and falls through to the range branch, which then
   * unpacks the absent range.
   */
  function BuildIndexList(sel: Selection): (r: IndexList)
    ensures sel.Indices? && sel.list != [] ==> r == Chosen(sel.list)
    ensures sel.First? && sel.count != 0 ==>
      r.Chosen? && forall i :: i in r.indices <==> 1 <= i <= sel.count
    ensures sel.Range? && sel.start > sel.end ==> r == UsageError(RangeMessage)
    ensures sel.Range? && sel.start <= sel.end ==>
      r.Chosen? && |r.indices| == sel.end - sel.start + 1
      && forall i :: i in r.indices <==> sel.start <= i <= sel.end
    ensures (sel.Indices? && sel.list == []) || (sel.First? && sel.count == 0) ==> r == Crash
  {
    if sel.Indices? && sel.list != [] then Chosen(sel.list)
    else if sel.First? && sel.count != 0 then Chosen(RangeList(1, sel.count + 1))
    else if !sel.Range? then Crash
    else if sel.start > sel.end then UsageError(RangeMessage)
    else Chosen(RangeList(sel.start, sel.end + 1))
  }

  predicate Increasing(xs: seq<int>) {
    forall a, b :: 0 <= a < b < |xs| ==> xs[a] < xs[b]
  }

  /** The positions kept from an index list whose entries all exceed `b` all exceed `b - 1`. */
  lemma {:induction false} ValidAbove(xs: seq<int>, n: nat, b: int)
    requires forall i :: 0 <= i < |xs| ==> xs[i] > b
    ensures forall k :: 0 <= k < |ValidZeroBased(xs, n)| ==> ValidZeroBased(xs, n)[k] > b - 1
  {
    if xs != [] {
      ValidAbove(xs[1..], n, b);
    }
  }

  /** Filtering and shifting an increasing index list keeps it increasing, hence free of duplicates. */
  lemma {:induction false} ValidIncreasing(xs: seq<int>, n: nat)
    requires Increasing(xs)
    ensures Distinct(ValidZeroBased(xs, n))
  {
    if xs != [] {
      ValidIncreasing(xs[1..], n);
      ValidAbove(xs[1..], n, xs[0]);
      var rest := ValidZeroBased(xs[1..], n);
      var r := ValidZeroBased(xs, n);
      if 1 <= xs[0] <= n {
        assert r == [(xs[0] - 1) as nat] + rest;
        forall a, b | 0 <= a < b < |r| ensures r[a] != r[b] {
          if a > 0 {
            assert r[a] == rest[a - 1] && r[b] == rest[b - 1];
          } else {
            assert r[b] == rest[b - 1];
          }
        }
      } else {
        assert r == rest;
      }
    }
  }

  /** `--first` and `--range` lists never repeat an index. */
  lemma {:induction false} GeneratedListsDistinct(sel: Selection, n: nat)
    requires !sel.Indices? && BuildIndexList(sel).Chosen?
    ensures Distinct(ValidZeroBased(BuildIndexList(sel).indices, n))
  {
    ValidIncreasing(BuildIndexList(sel).indices, n);
  }

  /** `--first N` selects the first N positions that exist. */
  lemma {:induction false} FirstSelects(count: int, n: nat)
    requires count != 0
    ensures Selected(BuildIndexList(First(count)).indices, n) == Positions(0, IntMin(count, n))
  {
    var indices := BuildIndexList(First(count)).indices;
    var want := Positions(0, IntMin(count, n));
    forall k: nat ensures k in Selected(indices, n) <==> k in want {
      if k in want {
        assert k + 1 in indices;
      }
    }
  }

  /** `--range S E` selects the positions S-1..E-1 that exist. */
  lemma {:induction false} RangeSelects(start: int, end: int, n: nat)
    requires start <= end
    ensures Selected(BuildIndexList(Range(start, end)).indices, n) == Positions(start - 1, IntMin(end, n))
  {
    var indices := BuildIndexList(Range(start, end)).indices;
    var want := Positions(start - 1, IntMin(end, n));
    forall k: nat ensures k in Selected(indices, n) <==> k in want {
      if k in want {
        assert k + 1 in indices;
      }
    }
  }

  /** The outcome of running the command on a corpus. */
  datatype Outcome = Written(output: string) | Refused(message: string) | Failed

  /**
   * `main` without its file handling: build the index list, then remove the
   * sections. An explicit list is handed to `remove_sections` as given;
   * `--first N` removes exactly the first N sections (all of them when there
   * are fewer) and `--range S E` exactly the sections S..E that exist.
   */
  method RunCommand(text: string, sel: Selection) returns (out: Outcome)
    ensures BuildIndexList(sel).UsageError? <==> out.Refused?
    ensures BuildIndexList(sel).Crash? <==> out.Failed?
    ensures var spans := FindSections(text);
      sel.Indices? && sel.list != [] ==>
        out == Written(ApplyCuts(text, spans, DeletionOrder(sel.list, |spans|)))
    ensures var spans := FindSections(text);
      sel.First? && sel.count != 0 ==>
        out == Written(Excise(text, spans, Positions(0, IntMin(sel.count, |spans|))))
    ensures var spans := FindSections(text);
      sel.Range? && sel.start <= sel.end ==>
        out == Written(Excise(text, spans, Positions(sel.start - 1, IntMin(sel.end, |spans|))))
  {
    var built := BuildIndexList(sel);
    match built
    case UsageError(m) => out := Refused(m);
    case Crash => out := Failed;
    case Chosen(indices) =>
      var result := RemoveSections(text, indices);
      out := Written(result);
      var n := |FindSections(text)|;
      if sel.First? {
        GeneratedListsDistinct(sel, n);
        FirstSelects(sel.count, n);
      } else if sel.Range? {
        GeneratedListsDistinct(sel, n);
        RangeSelects(sel.start, sel.end, n);
      }
  }
}
