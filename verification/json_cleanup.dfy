/**
 * The text clean-up `safeJsonParse` (try_final1.js) applies to a model reply
 * before handing it to the JSON5 parser: delete Markdown code fences, trim,
 * take the span from the first `{` to the last `}`, and delete commas that
 * stand before a closing bracket. The parser itself is not part of this model;
 * `Cleanup` yields the text it would be given, or `None` where the function
 * returns `null` before parsing.
 */
module JsonCleanup {
  import opened Text

  const Fence := "```"

  /** The four letters of `json` at `i`, in any case (a case-insensitive match without the `u` flag). */
  predicate JsonAt(s: string, i: nat) {
    i + 4 <= |s| &&
    (s[i] == 'j' || s[i] == 'J') && (s[i + 1] == 's' || s[i + 1] == 'S') &&
    (s[i + 2] == 'o' || s[i + 2] == 'O') && (s[i + 3] == 'n' || s[i + 3] == 'N')
  }

  /** The length of the fence match at the start of `s`: the fence, and `json` after it if present. */
  function FenceMatchEnd(s: string): (k: nat)
    requires OccursAt(s, Fence, 0)
    ensures 3 <= k <= |s|
  {
    if JsonAt(s, 3) then 7 else 3
  }

  /** `replace(/```(?:json)?/gi, "")`: scanning from the left, delete each fence with the `json` that follows it. */
  function StripFences(s: string): (r: string)
    ensures |r| <= |s|
    decreases |s|
  {
    if OccursAt(s, Fence, 0) then StripFences(s[FenceMatchEnd(s)..])
    else if s == [] then []
    else [s[0]] + StripFences(s[1..])
  }

  /** `replace(/```/g, "")`: scanning from the left, delete each fence. */
  function RemoveFences(s: string): (r: string)
    ensures |r| <= |s|
    decreases |s|
  {
    if OccursAt(s, Fence, 0) then RemoveFences(s[3..])
    else if s == [] then []
    else [s[0]] + RemoveFences(s[1..])
  }

  ghost predicate NoFence(s: string) {
    forall i :: !OccursAt(s, Fence, i)
  }

  /** A text that starts with a character other than a backtick keeps that character first. */
  lemma {:induction false} StripFencesKeepsHead(s: string)
    requires s != [] && s[0] != '`'
    ensures StripFences(s) != [] && StripFences(s)[0] == s[0]
  {
    assert !OccursAt(s, Fence, 0) by {
      assert |s| >= 3 ==> s[0..3][0] == s[0];
    }
  }

  /** A text that does not start with two backticks does not give a result that does. */
  lemma {:induction false} StripFencesHead(s: string)
    requires !OccursAt(s, "``", 0)
    ensures !OccursAt(StripFences(s), "``", 0)
  {
    var r := StripFences(s);
    if s != [] && s[0] != '`' {
      StripFencesKeepsHead(s);
      assert |r| >= 2 ==> r[0..2][0] == r[0];
    } else if s != [] {
      assert !OccursAt(s, Fence, 0) by {
        assert |s| >= 3 ==> s[0..3][..2] == s[0..2];
      }
      assert r == [s[0]] + StripFences(s[1..]);
      if |s| >= 2 {
        assert s[1] != '`' by {
          assert s[0..2] == [s[0], s[1]];
        }
        StripFencesKeepsHead(s[1..]);
        assert r[0..2][1] == r[1] == s[1];
      } else {
        assert s[1..] == [];
      }
    }
  }

  /**
   * No fence survives the first replacement: the leftmost scan deletes
   * backticks three at a time, so a run of backticks keeps fewer than three,
   * and runs never merge. The second replacement (`RemoveFencesNoop`) thus
   * never changes anything.
   */
  lemma {:induction false} StripFencesLeavesNoFence(s: string)
    ensures NoFence(StripFences(s))
    decreases |s|
  {
    if OccursAt(s, Fence, 0) {
      StripFencesLeavesNoFence(s[FenceMatchEnd(s)..]);
    } else if s != [] {
      var rest := StripFences(s[1..]);
      StripFencesLeavesNoFence(s[1..]);
      assert StripFences(s) == [s[0]] + rest;
      if s[0] == '`' {
        assert !OccursAt(s[1..], "``", 0) by {
          assert |s| >= 3 ==> s[0..3] == [s[0]] + s[1..][0..2];
        }
        StripFencesHead(s[1..]);
      }
      ConsNoFence(s[0], rest);
    }
  }

  /** A character put in front of a fence-free text makes no fence, unless it is a backtick before two more. */
  lemma {:induction false} ConsNoFence(c: char, rest: string)
    requires NoFence(rest) && (c == '`' ==> !OccursAt(rest, "``", 0))
    ensures NoFence([c] + rest)
  {
    var r := [c] + rest;
    forall i ensures !OccursAt(r, Fence, i) {
      if 1 <= i && i + 3 <= |r| {
        assert r[i..i + 3] == rest[i - 1..i + 2];
        assert !OccursAt(rest, Fence, i - 1);
      } else if i == 0 && 3 <= |r| {
        assert r[0] == c && r[1..3] == rest[0..2];
        assert r[0..3] == [c] + rest[0..2];
        assert Fence[1..3] == "``";
      }
    }
  }

  /** Deleting fences from a text without any is the identity. */
  lemma {:induction false} RemoveFencesNoop(s: string)
    requires NoFence(s)
    ensures RemoveFences(s) == s
    decreases |s|
  {
    if s != [] {
      assert NoFence(s[1..]) by {
        forall i ensures !OccursAt(s[1..], Fence, i) {
          assert !OccursAt(s, Fence, i + 1);
          if 0 <= i && i + 3 <= |s| - 1 {
            assert s[1..][i..i + 3] == s[i + 1..i + 4];
          }
        }
      }
      RemoveFencesNoop(s[1..]);
    }
  }

  /** A text without fences passes the first replacement unchanged. */
  lemma {:induction false} StripFencesNoop(s: string)
    requires NoFence(s)
    ensures StripFences(s) == s
    decreases |s|
  {
    if s != [] {
      assert NoFence(s[1..]) by {
        forall i ensures !OccursAt(s[1..], Fence, i) {
          assert !OccursAt(s, Fence, i + 1);
          if 0 <= i && i + 3 <= |s| - 1 {
            assert s[1..][i..i + 3] == s[i + 1..i + 4];
          }
        }
      }
      StripFencesNoop(s[1..]);
    }
  }

  /** A reply wrapped in a `json` fence, as chat models often send it, is unwrapped. */
  lemma {:induction false} FencedReply(body: string)
    requires NoFence(body) && (body == [] || body[|body| - 1] != '`')
    ensures StripFences("```json" + body + "```") == body
  {
    var s := "```json" + body + "```";
    assert OccursAt(s, Fence, 0) && JsonAt(s, 3) by {
      assert s[0..3] == Fence;
    }
    assert s[7..] == body + Fence;
    StripTail(body);
  }

  /** A closing fence after a fence-free text that does not end in a backtick is deleted. */
  lemma {:induction false} StripTail(body: string)
    requires NoFence(body) && (body == [] || body[|body| - 1] != '`')
    ensures StripFences(body + Fence) == body
    decreases |body|
  {
    var s := body + Fence;
    if body == [] {
      assert s == Fence && s[0..3] == Fence && s[3..] == [];
    } else {
      assert !OccursAt(s, Fence, 0) by {
        if |body| >= 3 {
          assert s[0..3] == body[0..3];
          assert !OccursAt(body, Fence, 0);
        } else {
          assert s[0..3][|body| - 1] == body[|body| - 1];
        }
      }
      assert NoFence(body[1..]) by {
        forall i ensures !OccursAt(body[1..], Fence, i) {
          assert !OccursAt(body, Fence, i + 1);
          if 0 <= i && i + 3 <= |body| - 1 {
            assert body[1..][i..i + 3] == body[i + 1..i + 4];
          }
        }
      }
      assert s[1..] == body[1..] + Fence;
      StripTail(body[1..]);
    }
  }

  /** The first index at or after `from` holding `c`. */
  function IndexOf(s: string, c: char, from: nat): (r: Option<nat>)
    ensures r.Some? ==> from <= r.value < |s| && s[r.value] == c
    ensures forall k :: from <= k < |s| && (r.None? || k < r.value) ==> s[k] != c
    decreases |s| - from
  {
    if from >= |s| then None
    else if s[from] == c then Some(from)
    else IndexOf(s, c, from + 1)
  }

  /** The last index holding `c`. */
  function LastIndexOf(s: string, c: char): (r: Option<nat>)
    ensures r.Some? ==> r.value < |s| && s[r.value] == c
    ensures forall k :: 0 <= k < |s| && (r.None? || r.value < k) ==> s[k] != c
  {
    if s == [] then None
    else if s[|s| - 1] == c then Some(|s| - 1)
    else LastIndexOf(s[..|s| - 1], c)
  }

  /**
   * `t.match(/({[\s\S]*})/m)[1]`: the leftmost `{` that has a `}` somewhere
   * after it, through the last `}` (the greedy star backs off only to it).
   * When the first `{` has no `}` after it, no later one has either.
   */
  function BraceSpan(t: string): Option<string> {
    match IndexOf(t, '{', 0)
    case None => None
    case Some(i) =>
      match LastIndexOf(t, '}')
      case None => None
      case Some(j) => if i < j then Some(t[i..j + 1]) else None
  }

  /** Some `{` comes before some `}`. */
  ghost predicate HasBracePair(t: string) {
    exists i, j :: 0 <= i < j < |t| && t[i] == '{' && t[j] == '}'
  }

  /**
   * The span exists exactly when a `{` precedes a `}`; it runs from a `{`
   * before which the text has none to a `}` after which it has none.
   */
  lemma {:induction false} BraceSpanShape(t: string)
    ensures BraceSpan(t).Some? <==> HasBracePair(t)
    ensures BraceSpan(t).Some? ==> exists i, j ::
      0 <= i < j < |t| && BraceSpan(t).value == t[i..j + 1] &&
      t[i] == '{' && t[j] == '}' &&
      (forall k :: 0 <= k < i ==> t[k] != '{') && (forall k :: j < k < |t| ==> t[k] != '}')
  {
    var fi, lj := IndexOf(t, '{', 0), LastIndexOf(t, '}');
    if HasBracePair(t) {
      var i, j :| 0 <= i < j < |t| && t[i] == '{' && t[j] == '}';
      assert fi.Some? && fi.value <= i;
      assert lj.Some? && j <= lj.value;
    }
  }

  /** The closing brackets a trailing comma is deleted before. */
  predicate IsCloser(c: char) {
    c == ']' || c == '}'
  }

  /** The first index at or after `i` that is not whitespace, or the end. */
  function SkipSpace(s: string, i: nat): (k: nat)
    requires i <= |s|
    ensures i <= k <= |s|
    decreases |s| - i
  {
    if i < |s| && IsSpace(s[i]) then SkipSpace(s, i + 1) else i
  }

  /** `SkipSpace` passes whitespace only, and stops at the end or at a non-space. */
  lemma {:induction false} SkipSpaceShape(s: string, i: nat)
    requires i <= |s|
    ensures forall j :: i <= j < SkipSpace(s, i) ==> IsSpace(s[j])
    ensures SkipSpace(s, i) == |s| || !IsSpace(s[SkipSpace(s, i)])
    decreases |s| - i
  {
    if i < |s| && IsSpace(s[i]) {
      SkipSpaceShape(s, i + 1);
    }
  }

  /** `s` starts with a comma, whitespace and a closing bracket: a match of `/,\s*([\]}])/`. */
  predicate TrailingCommaAt(s: string) {
    s != [] && s[0] == ',' && SkipSpace(s, 1) < |s| && IsCloser(s[SkipSpace(s, 1)])
  }

  /** The index of the next character the deletion keeps: the bracket of a match, otherwise the first one. */
  function KeptAt(s: string): (k: nat)
    requires s != []
    ensures k < |s|
  {
    if TrailingCommaAt(s) then SkipSpace(s, 1) else 0
  }

  /** Before the next kept character there is nothing, or a comma and whitespace. */
  lemma {:induction false} KeptAtShape(s: string)
    requires s != []
    ensures KeptAt(s) == 0 || (s[0] == ',' && IsCloser(s[KeptAt(s)]))
    ensures forall j :: 0 < j < KeptAt(s) ==> IsSpace(s[j])
  {
    if TrailingCommaAt(s) {
      SkipSpaceShape(s, 1);
    }
  }

  /**
   * `replace(/,\s*([\]}])/g, "$1")`: scanning from the left, each comma
   * followed by whitespace and a closing bracket is replaced by the bracket.
   */
  function DropTrailingCommas(s: string): (r: string)
    ensures |r| <= |s|
    decreases |s|
  {
    if s == [] then []
    else
      var k := KeptAt(s);
      [s[k]] + DropTrailingCommas(s[k + 1..])
  }

  /** What the comma deletion may not touch: every character but commas and whitespace. */
  function Solid(s: string): string {
    if s == [] then [] else (if s[0] == ',' || IsSpace(s[0]) then [] else [s[0]]) + Solid(s[1..])
  }

  lemma {:induction false} SolidAppend(a: string, b: string)
    ensures Solid(a + b) == Solid(a) + Solid(b)
    decreases |a|
  {
    if a != [] {
      assert (a + b)[0] == a[0];
      assert (a + b)[1..] == a[1..] + b;
      SolidAppend(a[1..], b);
    } else {
      assert a + b == b;
    }
  }

  /** Whitespace and commas have nothing solid in them. */
  lemma {:induction false} SolidOfFiller(s: string, k: nat)
    requires k <= |s| && (forall j :: 0 <= j < k ==> s[j] == ',' || IsSpace(s[j]))
    ensures Solid(s[..k]) == []
    decreases k
  {
    if k > 0 {
      assert s[..k][1..] == s[1..][..k - 1];
      SolidOfFiller(s[1..], k - 1);
    }
  }

  /** Only commas and whitespace are deleted: everything else stays, in order. */
  lemma {:induction false} DropKeepsSolid(s: string)
    ensures Solid(DropTrailingCommas(s)) == Solid(s)
    decreases |s|
  {
    if s != [] {
      var k := KeptAt(s);
      var d := DropTrailingCommas(s[k + 1..]);
      DropKeepsSolid(s[k + 1..]);
      SolidCons(s[k], d);
      SolidSkip(s, k);
    }
  }

  /** The solid part of a text is that of the next kept character and of what follows it. */
  lemma {:induction false} SolidSkip(s: string, k: nat)
    requires s != [] && k == KeptAt(s)
    ensures k < |s| && Solid(s) == Solid([s[k]]) + Solid(s[k + 1..])
  {
    var c, rest := s[k], s[k + 1..];
    KeptAtShape(s);
    SolidCons(c, rest);
    assert s == s[..k] + ([c] + rest);
    SolidAppend(s[..k], [c] + rest);
    SolidOfFiller(s, k);
  }

  lemma {:induction false} SolidCons(c: char, t: string)
    ensures Solid([c] + t) == Solid([c]) + Solid(t)
  {
    assert ([c] + t)[1..] == t;
    assert [c][1..] == [];
  }

  /** A text without commas is left alone. */
  lemma {:induction false} DropWithoutCommas(s: string)
    requires forall i :: 0 <= i < |s| ==> s[i] != ','
    ensures DropTrailingCommas(s) == s
    decreases |s|
  {
    if s != [] {
      DropWithoutCommas(s[1..]);
      assert s == [s[0]] + s[1..];
    }
  }

  /** The deletion keeps a text's first character unless it is a comma, and its last character if it is a closing bracket. */
  lemma {:induction false} DropKeepsEnds(s: string)
    requires s != []
    ensures DropTrailingCommas(s) != []
    ensures s[0] != ',' ==> DropTrailingCommas(s)[0] == s[0]
    ensures IsCloser(s[|s| - 1]) ==> DropTrailingCommas(s)[|DropTrailingCommas(s)| - 1] == s[|s| - 1]
  {
    if IsCloser(s[|s| - 1]) {
      DropKeepsLast(s);
    }
  }

  /** A closing bracket at the end of a text stays at the end. */
  lemma {:induction false} DropKeepsLast(s: string)
    requires s != [] && IsCloser(s[|s| - 1])
    ensures DropTrailingCommas(s) != []
    ensures DropTrailingCommas(s)[|DropTrailingCommas(s)| - 1] == s[|s| - 1]
    decreases |s|
  {
    var k := KeptAt(s);
    var rest := s[k + 1..];
    var d := DropTrailingCommas(rest);
    assert DropTrailingCommas(s) == [s[k]] + d;
    if rest == [] {
      assert k == |s| - 1 && d == [];
    } else {
      assert rest[|rest| - 1] == s[|s| - 1];
      DropKeepsLast(rest);
    }
  }

  /** The example the source gives: `{ "a":1, }` loses its comma and the space after it. */
  lemma {:induction false} DropExample()
    ensures DropTrailingCommas("{ \"a\":1, }") == "{ \"a\":1}"
  {
    var p := "{ \"a\":1";
    CommaBeforeBracket(" ", '}', []);
    assert [','] + " " + ['}'] + [] == ", }";
    assert DropTrailingCommas([]) == [];
    DropKeepPrefix(p, ", }");
    assert "{ \"a\":1, }" == p + ", }";
  }

  /** A comma-free prefix is kept as it is. */
  lemma {:induction false} DropKeepPrefix(p: string, t: string)
    requires forall i :: 0 <= i < |p| ==> p[i] != ','
    ensures DropTrailingCommas(p + t) == p + DropTrailingCommas(t)
    decreases |p|
  {
    if p == [] {
      assert p + t == t;
    } else {
      assert (p + t)[0] == p[0] && (p + t)[1..] == p[1..] + t;
      DropKeepPrefix(p[1..], t);
    }
  }

  /** `s` starts with a comma, whitespace and another comma. */
  predicate CommaRunAt(s: string) {
    s != [] && s[0] == ',' && SkipSpace(s, 1) < |s| && s[SkipSpace(s, 1)] == ','
  }

  /** No comma of `s` is followed, across whitespace only, by another comma. */
  predicate NoCommaRun(s: string) {
    forall i :: 0 <= i < |s| ==> !CommaRunAt(s[i..])
  }

  /** No comma of `s` is followed, across whitespace only, by a closing bracket. */
  predicate NoTrailingComma(s: string) {
    forall i :: 0 <= i < |s| ==> !TrailingCommaAt(s[i..])
  }

  /** `SkipSpace` from `i` stops at `q` when only whitespace lies between and `q` is the end or a non-space. */
  lemma {:induction false} SkipSpaceTo(s: string, i: nat, q: nat)
    requires i <= q <= |s|
    requires forall j :: i <= j < q ==> IsSpace(s[j])
    requires q == |s| || !IsSpace(s[q])
    ensures SkipSpace(s, i) == q
    decreases q - i
  {
    if i < q {
      SkipSpaceTo(s, i + 1, q);
    }
  }

  /** The first character the deletion produces does not start a trailing comma, unless two commas stand in a row. */
  lemma {:induction false} HeadNotTrailing(s: string)
    requires s != [] && !CommaRunAt(s)
    ensures !TrailingCommaAt(DropTrailingCommas(s))
  {
    var k := KeptAt(s);
    KeptAtShape(s);
    if s[k] == ',' {
      CommaKept(s);
    } else {
      assert DropTrailingCommas(s)[0] == s[k];
    }
  }

  /** A comma that is not trailing is kept, and so is the whitespace and the non-bracket after it. */
  lemma {:induction false} CommaKept(s: string)
    requires s != [] && s[0] == ',' && !TrailingCommaAt(s) && !CommaRunAt(s)
    ensures !TrailingCommaAt(DropTrailingCommas(s))
  {
    var q := SkipSpace(s, 1);
    SkipSpaceShape(s, 1);
    var sp, tail := s[1..q], s[q..];
    var d := DropTrailingCommas(tail);
    KeptCommaSplit(s);
    assert d == [] || (!IsSpace(d[0]) && !IsCloser(d[0])) by {
      if q < |s| {
        DropKeepsEnds(tail);
      } else {
        assert tail == [];
      }
    }
    SkipGlued(sp, d);
  }

  /** A comma that is not trailing is kept together with the whitespace after it. */
  lemma {:induction false} KeptCommaSplit(s: string)
    requires s != [] && s[0] == ',' && !TrailingCommaAt(s)
    ensures var q := SkipSpace(s, 1);
      DropTrailingCommas(s) == [','] + s[1..q] + DropTrailingCommas(s[q..])
  {
    var q := SkipSpace(s, 1);
    var sp, tail := s[1..q], s[q..];
    var d, e := DropTrailingCommas(s[1..]), DropTrailingCommas(tail);
    assert DropTrailingCommas(s) == [','] + d by {
      DropHead(s);
    }
    assert d == sp + e by {
      assert s[1..] == sp + tail;
      assert forall i :: 0 <= i < |sp| ==> sp[i] != ',' by {
        SkipSpaceShape(s, 1);
        assert forall i :: 0 <= i < |sp| ==> IsSpace(sp[i]);
      }
      DropKeepPrefix(sp, tail);
    }
    assert [','] + (sp + e) == [','] + sp + e;
  }

  /** A text whose first character is kept loses nothing in front of the rest. */
  lemma {:induction false} DropHead(s: string)
    requires s != [] && !TrailingCommaAt(s)
    ensures DropTrailingCommas(s) == [s[0]] + DropTrailingCommas(s[1..])
  {
  }

  /** In a comma, whitespace and a text not starting with whitespace, the whitespace ends where the text starts. */
  lemma {:induction false} SkipGlued(sp: string, d: string)
    requires forall i :: 0 <= i < |sp| ==> IsSpace(sp[i])
    requires d == [] || !IsSpace(d[0])
    ensures var r := [','] + sp + d;
      SkipSpace(r, 1) == |sp| + 1 && (d != [] ==> r[|sp| + 1] == d[0])
  {
    var r := [','] + sp + d;
    assert forall j :: 1 <= j < |sp| + 1 ==> r[j] == sp[j - 1];
    SkipSpaceTo(r, 1, |sp| + 1);
  }

  /** A comma followed by whitespace and a closing bracket is deleted with the whitespace. */
  lemma {:induction false} CommaBeforeBracket(sp: string, b: char, rest: string)
    requires forall i :: 0 <= i < |sp| ==> IsSpace(sp[i])
    requires IsCloser(b)
    ensures DropTrailingCommas([','] + sp + [b] + rest) == [b] + DropTrailingCommas(rest)
  {
    var s := [','] + sp + [b] + rest;
    assert s == [','] + sp + ([b] + rest);
    SkipGlued(sp, [b] + rest);
    assert TrailingCommaAt(s) && KeptAt(s) == |sp| + 1;
    assert s[|sp| + 2..] == rest;
  }

  /**
   * After the deletion no comma is followed, across whitespace, by a closing
   * bracket, provided no two commas stand in a row: the single left-to-right
   * pass cannot see the first comma of `,,}` as trailing (`DropCommaPair`).
   */
  lemma {:induction false} DropLeavesNoTrailingComma(s: string)
    requires NoCommaRun(s)
    ensures NoTrailingComma(DropTrailingCommas(s))
    decreases |s|
  {
    if s != [] {
      var k := KeptAt(s);
      var rest := s[k + 1..];
      assert NoCommaRun(rest) by {
        forall i | 0 <= i < |rest| ensures !CommaRunAt(rest[i..]) {
          assert rest[i..] == s[k + 1 + i..];
        }
      }
      DropLeavesNoTrailingComma(rest);
      var d := DropTrailingCommas(rest);
      var r := DropTrailingCommas(s);
      assert r == [s[k]] + d;
      forall i | 0 <= i < |r| ensures !TrailingCommaAt(r[i..]) {
        if i == 0 {
          assert s[0..] == s;
          HeadNotTrailing(s);
          assert r[0..] == r;
        } else {
          assert r[i..] == d[i - 1..];
        }
      }
    }
  }

  /** Two commas in a row before a bracket: only the second is deleted. */
  lemma {:induction false} DropCommaPair()
    ensures DropTrailingCommas(",,}") == ",}"
  {
    var s := ",,}";
    assert SkipSpace(s, 1) == 1;
    assert KeptAt(s) == 0;
    var t := s[1..];
    assert t == ",}";
    assert SkipSpace(t, 1) == 1;
    assert TrailingCommaAt(t) && KeptAt(t) == 1;
    assert t[2..] == [];
    assert DropTrailingCommas(t) == "}";
  }

  /** The text `safeJsonParse` searches for braces: fences deleted, then trimmed. */
  function Unfenced(raw: string): string {
    Trim(RemoveFences(StripFences(raw)))
  }

  /**
   * `safeJsonParse` up to the parser call: `None` for an empty reply or one
   * without a `{ … }` span, otherwise the span with its trailing commas deleted.
   */
  function Cleanup(raw: string): Option<string> {
    if raw == [] then None
    else match BraceSpan(Unfenced(raw))
      case None => None
      case Some(b) => Some(DropTrailingCommas(b))
  }

  /** The clean-up fails exactly for an empty reply or one whose unfenced text has no `{` before a `}`. */
  lemma {:induction false} CleanupFails(raw: string)
    ensures Cleanup(raw).None? <==> raw == [] || !HasBracePair(Unfenced(raw))
  {
    BraceSpanShape(Unfenced(raw));
  }

  /**
   * What the clean-up hands to the parser starts with `{` and ends with `}`,
   * and differs from a brace span of the unfenced text only in deleted
   * commas and whitespace.
   */
  lemma {:induction false} CleanupSpan(raw: string)
    requires Cleanup(raw).Some?
    ensures var c := Cleanup(raw).value;
      c != [] && c[0] == '{' && c[|c| - 1] == '}' &&
      Solid(c) == Solid(BraceSpan(Unfenced(raw)).value)
  {
    var t := Unfenced(raw);
    var b := BraceSpan(t).value;
    BraceSpanEnds(t);
    DropKeepsEnds(b);
    DropKeepsSolid(b);
  }

  /** After the first replacement no fence is left, so the second one changes nothing. */
  lemma {:induction false} SecondReplaceIdle(raw: string)
    ensures NoFence(StripFences(raw))
    ensures RemoveFences(StripFences(raw)) == StripFences(raw)
  {
    StripFencesLeavesNoFence(raw);
    RemoveFencesNoop(StripFences(raw));
  }

  /** The span starts with `{` and ends with `}`. */
  lemma {:induction false} BraceSpanEnds(t: string)
    requires BraceSpan(t).Some?
    ensures |BraceSpan(t).value| >= 2
    ensures BraceSpan(t).value[0] == '{' && BraceSpan(t).value[|BraceSpan(t).value| - 1] == '}'
  {
    var i, j := IndexOf(t, '{', 0).value, LastIndexOf(t, '}').value;
    assert BraceSpan(t).value == t[i..j + 1];
  }
}
