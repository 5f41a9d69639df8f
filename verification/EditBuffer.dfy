/**
 * The text buffer of include/editbuf.h: a flat run of characters, the line arithmetic
 * over it and its searches, against the list of lines a user sees.
 */
module EditBuffer {

  // ---- A text is a list of lines -------------------------------------------------

  predicate Plain(line: string) { '\n' !in line }

  ghost predicate AllPlain(ls: seq<string>) { forall i :: 0 <= i < |ls| ==> Plain(ls[i]) }

  /** Lines separated by newlines; a newline at the end leaves an empty last line. */
  function Join(ls: seq<string>): string
    requires |ls| > 0
  {
    if |ls| == 1 then ls[0] else ls[0] + "\n" + Join(ls[1..])
  }

  /** Characters before the first newline, or all of them. */
  function FirstLine(t: string): string {
    if t == "" || t[0] == '\n' then "" else [t[0]] + FirstLine(t[1..])
  }

  lemma {:induction false} FirstLineSpec(t: string)
    ensures FirstLine(t) <= t && Plain(FirstLine(t))
    ensures |FirstLine(t)| < |t| ==> t[|FirstLine(t)|] == '\n'
  {
    if t != "" && t[0] != '\n' {
      FirstLineSpec(t[1..]);
    }
  }

  function Lines(t: string): (ls: seq<string>)
    ensures |ls| > 0
  {
    FirstLineSpec(t);
    var first := FirstLine(t);
    if |first| == |t| then [t] else [first] + Lines(t[|first| + 1..])
  }

  /** Splitting and joining are inverse: the buffer and its list of lines are the same thing. */
  lemma {:induction false} JoinOfLines(t: string)
    ensures AllPlain(Lines(t)) && Join(Lines(t)) == t
  {
    FirstLineSpec(t);
    var first := FirstLine(t);
    if |first| < |t| {
      JoinOfLines(t[|first| + 1..]);
      assert Lines(t)[1..] == Lines(t[|first| + 1..]);
      assert t == first + "\n" + t[|first| + 1..];
    }
  }

  lemma {:induction false} FirstLineOf(line: string, rest: string)
    requires Plain(line)
    ensures FirstLine(line + "\n" + rest) == line
    ensures FirstLine(line) == line
  {
    if line != "" {
      FirstLineOf(line[1..], rest);
      assert (line + "\n" + rest)[1..] == line[1..] + "\n" + rest;
    }
  }

  lemma {:induction false} LinesOfJoin(ls: seq<string>)
    requires |ls| > 0 && AllPlain(ls)
    ensures Lines(Join(ls)) == ls
  {
    if |ls| == 1 {
      FirstLineOf(ls[0], "");
      assert Join(ls) == ls[0];
    } else {
      LinesOfJoin(ls[1..]);
      var rest := Join(ls[1..]);
      assert Join(ls) == ls[0] + "\n" + rest;
      hide Join, FirstLine;
      LinesOfFirst(ls[0], rest);
      assert ls == [ls[0]] + ls[1..];
    }
  }

  lemma LinesOfFirst(line: string, rest: string)
    requires Plain(line)
    ensures Lines(line + "\n" + rest) == [line] + Lines(rest)
  {
    FirstLineOf(line, rest);
    var t := line + "\n" + rest;
    assert t[|line| + 1..] == rest;
    hide FirstLine;
  }

  /** Offset of the first character of a line. */
  function Start(ls: seq<string>, i: nat): nat
    requires i < |ls|
  {
    if i == 0 then 0 else |ls[0]| + 1 + Start(ls[1..], i - 1)
  }

  /** The line an offset is on. */
  function LineIndex(ls: seq<string>, off: nat): (i: nat)
    requires |ls| > 0
    ensures i < |ls|
  {
    if |ls| == 1 || off <= |ls[0]| then 0 else 1 + LineIndex(ls[1..], off - |ls[0]| - 1)
  }

  /** Where a line sits in the joined text. */
  lemma {:induction false} LineAt(ls: seq<string>, i: nat)
    requires i < |ls|
    ensures Start(ls, i) + |ls[i]| <= |Join(ls)|
    ensures Join(ls)[Start(ls, i)..Start(ls, i) + |ls[i]|] == ls[i]
    ensures i > 0 ==> Start(ls, i) > 0 && Join(ls)[Start(ls, i) - 1] == '\n'
    ensures i < |ls| - 1 ==> Start(ls, i) + |ls[i]| < |Join(ls)| && Join(ls)[Start(ls, i) + |ls[i]|] == '\n'
    ensures i < |ls| - 1 ==> Start(ls, i + 1) == Start(ls, i) + |ls[i]| + 1
    ensures i == |ls| - 1 ==> Start(ls, i) + |ls[i]| == |Join(ls)|
  {
    if i > 0 {
      LineAt(ls[1..], i - 1);
      assert ls[1..][i - 1] == ls[i];
      var s := Start(ls[1..], i - 1);
      var tail := Join(ls[1..]);
      assert Join(ls)[Start(ls, i)..Start(ls, i) + |ls[i]|] == tail[s..s + |ls[i]|];
    }
  }

  /** An offset lies on its line, between its start and its end inclusive. */
  lemma {:induction false} LineIndexSpec(ls: seq<string>, off: nat)
    requires |ls| > 0 && off <= |Join(ls)|
    ensures Start(ls, LineIndex(ls, off)) <= off <= Start(ls, LineIndex(ls, off)) + |ls[LineIndex(ls, off)]|
  {
    if |ls| > 1 && off > |ls[0]| {
      LineIndexSpec(ls[1..], off - |ls[0]| - 1);
    }
  }

  /** Starts increase with the line number, so an offset is on one line only. */
  lemma {:induction false} LineIndexUnique(ls: seq<string>, off: nat, i: nat)
    requires i < |ls| && Start(ls, i) <= off <= Start(ls, i) + |ls[i]|
    ensures LineIndex(ls, off) == i
  {
    if i > 0 {
      LineIndexUnique(ls[1..], off - |ls[0]| - 1, i - 1);
    }
  }

  // ---- Line boundaries in the flat text --------------------------------------------

  function Clamp(t: string, off: int): nat { if off > |t| then |t| else if off < 0 then 0 else off }

  /** `p` is where the line containing `off` starts. */
  predicate IsLineStart(t: string, off: nat, p: int) {
    0 <= p <= off <= |t| && (p == 0 || t[p - 1] == '\n') && '\n' !in t[p..off]
  }

  /** `p` is where the line containing `off` ends: at its newline, or at the end of the text. */
  predicate IsLineEnd(t: string, off: nat, p: int) {
    off <= p <= |t| && (p == |t| || t[p] == '\n') && '\n' !in t[off..p]
  }

  /** The boundaries found by scanning are those of the line in the list. */
  lemma BoundariesAreLines(t: string, off: nat, p: int, q: int)
    requires off <= |t| && IsLineStart(t, off, p) && IsLineEnd(t, off, q)
    ensures p == Start(Lines(t), LineIndex(Lines(t), off))
    ensures q == p + |Lines(t)[LineIndex(Lines(t), off)]|
    ensures t[p..q] == Lines(t)[LineIndex(Lines(t), off)]
    ensures q == |t| <==> LineIndex(Lines(t), off) == |Lines(t)| - 1
  {
    var ls := Lines(t);
    var i := LineIndex(ls, off);
    var s := Start(ls, i);
    LineOf(t, off);
    hide *;
    NoNewlineWithin(t, p, off);
    NoNewlineWithin(t, off, q);
    assert p == s && q == s + |ls[i]|;
  }

  /** The line an offset is on, as a stretch of the text without newlines. */
  lemma LineOf(t: string, off: nat)
    requires off <= |t|
    ensures var i, ls := LineIndex(Lines(t), off), Lines(t);
            var s := Start(ls, i);
            && s <= off <= s + |ls[i]| <= |t| && t[s..s + |ls[i]|] == ls[i]
            && (s == 0 || t[s - 1] == '\n') && (s + |ls[i]| == |t| || t[s + |ls[i]|] == '\n')
            && (s + |ls[i]| == |t| <==> i == |ls| - 1)
            && forall k :: s <= k < s + |ls[i]| ==> t[k] != '\n'
  {
    hide Lines, Join, LineIndex, Start;
    var ls := Lines(t);
    JoinOfLines(t);
    var i := LineIndex(ls, off);
    LineIndexSpec(ls, off);
    LineAt(ls, i);
    assert Plain(ls[i]);
    FirstStart(ls);
    NoNewlineWithin(t, Start(ls, i), Start(ls, i) + |ls[i]|);
  }

  lemma FirstStart(ls: seq<string>)
    requires |ls| > 0
    ensures Start(ls, 0) == 0
  {
  }

  lemma NoNewlineWithin(t: string, s: nat, e: nat)
    requires s <= e <= |t| && Plain(t[s..e])
    ensures forall k :: s <= k < e ==> t[k] != '\n'
  {
    forall k | s <= k < e
      ensures t[k] != '\n'
    {
      assert t[s..e][k - s] == t[k];
    }
  }

  // ---- Deleting a line -------------------------------------------------------------

  /** The list with one line taken out; an emptied buffer keeps one empty line. */
  function WithoutLine(ls: seq<string>, i: nat): seq<string>
    requires i < |ls|
  {
    if |ls| == 1 then [""] else ls[..i] + ls[i + 1..]
  }

  /** The characters eb_line_span removes. */
  function SpanFrom(t: string, start: nat, end: nat): nat {
    if end < |t| then start else if start > 0 then start - 1 else start
  }

  function SpanTo(t: string, end: nat): nat { if end < |t| then end + 1 else end }

  lemma {:induction false} JoinSplit(a: seq<string>, b: seq<string>)
    requires |a| > 0 && |b| > 0
    ensures Join(a + b) == Join(a) + "\n" + Join(b)
  {
    if |a| == 1 {
      assert (a + b)[1..] == b;
    } else {
      JoinSplit(a[1..], b);
      assert (a + b)[1..] == a[1..] + b;
    }
  }

  lemma {:induction false} StartIsPrefix(ls: seq<string>, i: nat)
    requires 0 < i < |ls|
    ensures Start(ls, i) == |Join(ls[..i])| + 1
  {
    if i == 1 {
      assert ls[..1] == [ls[0]];
      assert Start(ls[1..], 0) == 0;
    } else {
      StartIsPrefix(ls[1..], i - 1);
      assert ls[..i][1..] == ls[1..][..i - 1];
    }
  }

  /** The text with a line's span removed. */
  function CutSpan(t: string, start: nat, end: nat): string
    requires start <= end <= |t|
  {
    t[..SpanFrom(t, start, end)] + t[SpanTo(t, end)..]
  }

  /** The line the cursor lands on: the one that moved up, or the new last one. */
  function LandingLine(ls: seq<string>, i: nat): nat
    requires i < |ls|
  {
    if i < |ls| - 1 then i else if i > 0 then i - 1 else 0
  }

  /** Cutting a line and its newline out of the middle of a text. */
  lemma CutInside(t: string, before: string, line: string, after: string)
    requires t == before + line + "\n" + after
    ensures |before| + |line| <= |t|
    ensures CutSpan(t, |before|, |before| + |line|) == before + after
  {
  }

  /** Cutting the last line takes the newline before it. */
  lemma CutAtEnd(t: string, before: string, line: string)
    requires t == before + "\n" + line
    ensures |before| + 1 + |line| <= |t|
    ensures CutSpan(t, |before| + 1, |before| + 1 + |line|) == before
  {
  }

  /** A list around one of its later lines. */
  lemma JoinAround(ls: seq<string>, i: nat)
    requires 0 < i < |ls| - 1
    ensures Join(ls) == (Join(ls[..i]) + "\n") + ls[i] + "\n" + Join(ls[i + 1..])
  {
    assert ls[i..][1..] == ls[i + 1..];
    assert Join(ls[i..]) == ls[i] + "\n" + Join(ls[i + 1..]);
    hide *;
    assert ls == ls[..i] + ls[i..];
    JoinSplit(ls[..i], ls[i..]);
    Regroup(Join(ls[..i]), ls[i], Join(ls[i + 1..]));
  }

  lemma Regroup(a: string, b: string, c: string)
    ensures a + "\n" + (b + "\n" + c) == (a + "\n") + b + "\n" + c
  {
  }

  lemma RemoveOnly(ls: seq<string>)
    requires |ls| == 1
    ensures Start(ls, 0) == 0 && |ls[0]| <= |Join(ls)| && CutSpan(Join(ls), 0, |ls[0]|) == Join(WithoutLine(ls, 0))
  {
    assert Join(ls) == ls[0];
  }

  lemma RemoveFirst(ls: seq<string>)
    requires |ls| > 1
    ensures Start(ls, 0) == 0 && |ls[0]| <= |Join(ls)| && CutSpan(Join(ls), 0, |ls[0]|) == Join(WithoutLine(ls, 0))
  {
    assert WithoutLine(ls, 0) == ls[1..];
    assert Join(ls) == ls[0] + "\n" + Join(ls[1..]);
    var rest := Join(ls[1..]);
    hide Join;
    assert Join(ls) == "" + ls[0] + "\n" + rest;
    CutInside(Join(ls), "", ls[0], rest);
    assert "" + rest == rest;
  }

  lemma RemoveLast(ls: seq<string>)
    requires |ls| > 1
    ensures var i := |ls| - 1;
            && Start(ls, i) + |ls[i]| <= |Join(ls)|
            && CutSpan(Join(ls), Start(ls, i), Start(ls, i) + |ls[i]|) == Join(WithoutLine(ls, i))
  {
    var i := |ls| - 1;
    hide *;
    WithoutLast(ls);
    StartIsPrefix(ls, i);
    JoinLast(ls);
    CutAtEnd(Join(ls), Join(ls[..i]), ls[i]);
  }

  lemma WithoutLast(ls: seq<string>)
    requires |ls| > 1
    ensures WithoutLine(ls, |ls| - 1) == ls[..|ls| - 1]
  {
    hide Join, Lines;
  }

  /** A list before its last line. */
  lemma JoinLast(ls: seq<string>)
    requires |ls| > 1
    ensures Join(ls) == Join(ls[..|ls| - 1]) + "\n" + ls[|ls| - 1]
  {
    var i := |ls| - 1;
    assert Join([ls[i]]) == ls[i];
    hide *;
    assert ls == ls[..i] + [ls[i]];
    JoinSplit(ls[..i], [ls[i]]);
  }

  lemma RemoveMiddle(ls: seq<string>, i: nat)
    requires 0 < i < |ls| - 1
    ensures Start(ls, i) + |ls[i]| <= |Join(ls)|
    ensures CutSpan(Join(ls), Start(ls, i), Start(ls, i) + |ls[i]|) == Join(WithoutLine(ls, i))
  {
    assert WithoutLine(ls, i) == ls[..i] + ls[i + 1..];
    hide *;
    StartIsPrefix(ls, i);
    JoinAround(ls, i);
    JoinSplit(ls[..i], ls[i + 1..]);
    CutInside(Join(ls), Join(ls[..i]) + "\n", ls[i], Join(ls[i + 1..]));
  }

  /** Cutting a line's span out of the text takes exactly that line out of the list. */
  lemma SpanRemovesLine(ls: seq<string>, i: nat)
    requires i < |ls|
    ensures Start(ls, i) + |ls[i]| <= |Join(ls)|
    ensures CutSpan(Join(ls), Start(ls, i), Start(ls, i) + |ls[i]|) == Join(WithoutLine(ls, i))
  {
    hide *;
    if |ls| == 1 {
      RemoveOnly(ls);
    } else if i == 0 {
      RemoveFirst(ls);
    } else if i == |ls| - 1 {
      RemoveLast(ls);
    } else {
      RemoveMiddle(ls, i);
    }
  }

  /** The characters behind a gap moved down over it, one by one. */
  lemma GapClosed(s: string, t: string, from: nat, to: nat)
    requires from <= to <= |t| == |s|
    requires forall k :: 0 <= k < from ==> s[k] == t[k]
    requires forall k :: from <= k < |t| - (to - from) ==> s[k] == t[k + (to - from)]
    ensures s[..|t| - (to - from)] == t[..from] + t[to..]
  {
  }

  // ---- Searching -------------------------------------------------------------------

  predicate MatchAt(t: string, pat: string, off: int) {
    0 <= off && off + |pat| <= |t| && t[off..off + |pat|] == pat
  }

  /** A pattern occurs somewhere; the empty pattern never does. */
  ghost predicate Occurs(t: string, pat: string) { pat != "" && exists off :: MatchAt(t, pat, off) }

  /** No match at any offset from `lo` up to but not including `hi`. */
  ghost predicate NoMatch(t: string, pat: string, lo: int, hi: int) {
    forall off :: lo <= off < hi ==> !MatchAt(t, pat, off)
  }

  /** `r` is the first match strictly after `from`, going round the end of the text. */
  ghost predicate IsNextMatch(t: string, pat: string, from: int, r: int) {
    pat != "" && MatchAt(t, pat, r) &&
    if r > from then NoMatch(t, pat, from + 1, r) else NoMatch(t, pat, from + 1, |t| + 1) && NoMatch(t, pat, 0, r)
  }

  /** `r` is the last match strictly before `from`, going round the start of the text. */
  ghost predicate IsPrevMatch(t: string, pat: string, from: int, r: int) {
    pat != "" && MatchAt(t, pat, r) &&
    if r < from then NoMatch(t, pat, r + 1, from) else NoMatch(t, pat, 0, from) && NoMatch(t, pat, r + 1, |t| + 1)
  }

  /** There is only one nearest match in each direction. */
  lemma NearestIsUnique(t: string, pat: string, from: int, r: int, r': int)
    ensures IsNextMatch(t, pat, from, r) && IsNextMatch(t, pat, from, r') ==> r == r'
    ensures IsPrevMatch(t, pat, from, r) && IsPrevMatch(t, pat, from, r') ==> r == r'
  {
  }

  // ---- The buffer itself -----------------------------------------------------------

  lemma OneMoreBefore(t: string, p: nat, from: nat)
    requires p < from <= |t|
    ensures t[p..from] == [t[p]] + t[p + 1..from]
  {
  }

  lemma OneMoreAfter(t: string, from: nat, p: nat)
    requires from <= p < |t|
    ensures t[from..p + 1] == t[from..p] + [t[p]]
  {
  }

  class EditBuf {
    const data: array<char>
    var len: nat

    /** Room for the text and its terminator. */
    function Cap(): nat { data.Length }

    ghost predicate Valid()
      reads this
    {
      len <= data.Length
    }

    ghost function Text(): string
      requires Valid()
      reads this, data
    {
      data[..len]
    }

    constructor (data: array<char>, len: nat)
      requires len <= data.Length
      ensures Valid() && this.data == data && this.len == len
    {
      this.data, this.len := data, len;
    }

    method LineStart(off: int) returns (p: int)
      requires Valid()
      ensures IsLineStart(Text(), Clamp(Text(), off), p)
    {
      p := off;
      if p > len {
        p := len;
      }
      if p < 0 {
        p := 0;
      }
      ghost var from := p;
      ghost var t := Text();
      while p > 0 && data[p - 1] != '\n'
        invariant 0 <= p <= from
        invariant '\n' !in t[p..from]
      {
        p := p - 1;
        OneMoreBefore(t, p, from);
      }
    }

    method LineEnd(off: int) returns (p: int)
      requires Valid()
      ensures IsLineEnd(Text(), Clamp(Text(), off), p)
    {
      p := off;
      if p > len {
        p := len;
      }
      if p < 0 {
        p := 0;
      }
      ghost var from := p;
      ghost var t := Text();
      while p < len && data[p] != '\n'
        invariant from <= p <= len
        invariant '\n' !in t[from..p]
      {
        OneMoreAfter(t, from, p);
        p := p + 1;
      }
    }

    /** The start of the next line in the list, or -1 on the last one. */
    method NextLine(off: int) returns (p: int)
      requires Valid()
      ensures var ls := Lines(Text());
              var i := LineIndex(ls, Clamp(Text(), off));
              p == if i + 1 < |ls| then Start(ls, i + 1) else -1
    {
      hide Lines, Join, Start, LineIndex;
      var end := LineEnd(off);
      ghost var start := LineStart(off);
      ghost var i := LineIndex(Lines(Text()), Clamp(Text(), off));
      BoundariesAreLines(Text(), Clamp(Text(), off), start, end);
      StartAfter(Text(), i);
      if end >= len {
        return -1;
      }
      p := end + 1;
    }

    /** The start of the previous line in the list, or -1 on the first one. */
    method PrevLine(off: int) returns (p: int)
      requires Valid()
      ensures var ls := Lines(Text());
              var i := LineIndex(ls, Clamp(Text(), off));
              p == if i > 0 then Start(ls, i - 1) else -1
    {
      hide Lines, Join, Start, LineIndex;
      var start := LineStart(off);
      ghost var end := LineEnd(off);
      ghost var i := LineIndex(Lines(Text()), Clamp(Text(), off));
      BoundariesAreLines(Text(), Clamp(Text(), off), start, end);
      StartOfLine(Text(), i);
      if start == 0 {
        return -1;
      }
      StartAfter(Text(), i - 1);
      p := LineStart(start - 1);
      ghost var prevEnd := LineEnd(start - 1);
      LineIndexUnique(Lines(Text()), start - 1, i - 1);
      BoundariesAreLines(Text(), start - 1, p, prevEnd);
    }

    /** The number of lines in the list. */
    method LineCount() returns (lines: int)
      requires Valid()
      ensures lines == |Lines(Text())|
    {
      lines := 1;
      ghost var t := Text();
      for i := 0 to len
        invariant lines == 1 + Newlines(t[..i])
      {
        assert t[..i + 1] == t[..i] + [t[i]];
        NewlinesAppend(t[..i], t[i]);
        if data[i] == '\n' {
          lines := lines + 1;
        }
      }
      assert t[..len] == t;
      CountIsLines(t);
    }

    /** The start of the n-th line counting from one, clamped to the list. */
    method GotoLine(n: int) returns (off: int)
      requires Valid()
      ensures var ls := Lines(Text());
              off == Start(ls, if n < 1 then 0 else if n > |ls| then |ls| - 1 else n - 1)
    {
      hide Lines, Join, Start, LineIndex;
      off := 0;
      var line := if n < 1 then 1 else n;
      StartOfLine(Text(), 0);
      var i := 1;
      while i < line
        invariant 1 <= i <= line && i <= |Lines(Text())|
        invariant off == Start(Lines(Text()), i - 1)
      {
        StartOfLine(Text(), i - 1);
        var next := NextLine(off);
        if next < 0 {
          break;
        }
        off := next;
        i := i + 1;
      }
    }

    method MatchesAt(pat: string, off: int) returns (r: bool)
      requires Valid()
      ensures r <==> MatchAt(Text(), pat, off)
    {
      if off < 0 || off + |pat| > len {
        return false;
      }
      for i := 0 to |pat|
        invariant forall k {:trigger pat[k]} :: 0 <= k < i ==> data[off + k] == pat[k]
      {
        if data[off + i] != pat[i] {
          assert Text()[off..off + |pat|][i] == data[off + i];
          return false;
        }
      }
      assert Text()[off..off + |pat|] == pat;
      r := true;
    }

    /** The nearest match after an offset, or -1 exactly when the pattern occurs nowhere. */
    method FindNext(pat: string, from: int) returns (r: int)
      requires Valid()
      ensures var f := if from < -1 then -1 else if from > len then len as int else from;
              if Occurs(Text(), pat) then IsNextMatch(Text(), pat, f, r) else r == -1
    {
      if |pat| == 0 || |pat| > len {
        return -1;
      }
      var f := from;
      if f < -1 {
        f := -1;
      }
      if f > len {
        f := len;
      }
      var off := f + 1;
      while off + |pat| <= len
        invariant f + 1 <= off
        invariant NoMatch(Text(), pat, f + 1, off)
      {
        var hit := MatchesAt(pat, off);
        if hit {
          return off;
        }
        off := off + 1;
      }
      off := 0;
      while off <= f && off + |pat| <= len
        invariant 0 <= off
        invariant NoMatch(Text(), pat, 0, off)
      {
        var hit := MatchesAt(pat, off);
        if hit {
          return off;
        }
        off := off + 1;
      }
      r := -1;
    }

    /** The nearest match before an offset, or -1 exactly when the pattern occurs nowhere. */
    method FindPrev(pat: string, from: int) returns (r: int)
      requires Valid()
      ensures var f := if from < 0 then 0 else if from > len then len as int else from;
              if Occurs(Text(), pat) then IsPrevMatch(Text(), pat, f, r) else r == -1
    {
      if |pat| == 0 || |pat| > len {
        return -1;
      }
      var f := from;
      if f < 0 {
        f := 0;
      }
      if f > len {
        f := len;
      }
      var off := f - 1;
      while off >= 0
        invariant -1 <= off < f
        invariant NoMatch(Text(), pat, off + 1, f)
      {
        var hit := MatchesAt(pat, off);
        if hit {
          return off;
        }
        off := off - 1;
      }
      off := len - |pat|;
      while off >= f
        invariant off <= len - |pat|
        invariant NoMatch(Text(), pat, off + 1, len + 1)
        decreases off - f
      {
        var hit := MatchesAt(pat, off);
        if hit {
          return off;
        }
        off := off - 1;
      }
      r := -1;
    }

    /** Puts one character in, if it fits; a refusal changes nothing. */
    method Insert(off: int, c: char) returns (ok: bool)
      requires Valid()
      modifies this`len, data
      ensures Valid()
      ensures ok <==> 0 <= off <= old(len) && old(len) + 1 < Cap()
      ensures Text() == if ok then old(Text())[..off] + [c] + old(Text())[off..] else old(Text())
    {
      if off < 0 || off > len {
        return false;
      }
      if len + 1 >= data.Length {
        return false;
      }
      ghost var t := Text();
      var i := len;
      while i > off
        invariant off <= i <= len == |t|
        invariant forall k :: 0 <= k < i ==> data[k] == t[k]
        invariant forall k :: i < k <= len ==> data[k] == t[k - 1]
      {
        data[i] := data[i - 1];
        i := i - 1;
      }
      data[off] := c;
      len := len + 1;
      assert Text() == t[..off] + [c] + t[off..];
      ok := true;
    }

    /** Takes one character out, if there is one. */
    method Delete(off: int) returns (ok: bool)
      requires Valid()
      modifies this`len, data
      ensures Valid()
      ensures ok <==> 0 <= off < old(len)
      ensures Text() == if ok then old(Text())[..off] + old(Text())[off + 1..] else old(Text())
    {
      if off < 0 || off >= len {
        return false;
      }
      CloseGap(off, off + 1);
      ok := true;
    }

    /** Moves everything from `to` on down to `from`, shortening the text. */
    method CloseGap(from: nat, to: nat)
      requires Valid() && from <= to <= len
      modifies this`len, data
      ensures Valid() && Text() == old(Text())[..from] + old(Text())[to..]
    {
      ghost var t := Text();
      var gap := to - from;
      var i := from;
      while i < len - gap
        invariant from <= i <= len - gap && len == |t|
        invariant forall k :: 0 <= k < from ==> data[k] == t[k]
        invariant forall k :: from <= k < i ==> data[k] == t[k + gap]
        invariant forall k :: i <= k < len ==> data[k] == t[k]
      {
        data[i] := data[i + gap];
        i := i + 1;
      }
      GapClosed(data[..len], t, from, to);
      len := len - gap;
    }

    /** The characters deleting a line removes. */
    method LineSpan(off: int) returns (from: nat, to: nat)
      requires Valid()
      ensures from <= to <= len
      ensures var ls := Lines(Text());
              var i := LineIndex(ls, Clamp(Text(), off));
              Text()[..from] + Text()[to..] == Join(WithoutLine(ls, i))
      ensures var i := LineIndex(Lines(Text()), Clamp(Text(), off));
              && from == SpanFrom(Text(), Start(Lines(Text()), i), Start(Lines(Text()), i) + |Lines(Text())[i]|)
              && to == SpanTo(Text(), Start(Lines(Text()), i) + |Lines(Text())[i]|)
    {
      hide Lines, Join, Start, LineIndex, WithoutLine;
      var start := LineStart(off);
      var end := LineEnd(off);
      ghost var ls := Lines(Text());
      ghost var i := LineIndex(ls, Clamp(Text(), off));
      BoundariesAreLines(Text(), Clamp(Text(), off), start, end);
      JoinOfLines(Text());
      SpanRemovesLine(ls, i);
      if end < len {
        from, to := start, end + 1;
      } else {
        to := end;
        from := if start > 0 then start - 1 else start;
      }
    }

    /** Takes exactly the line an offset is on out of the list, and says where the cursor goes. */
    method DeleteLine(off: int) returns (cursor: int)
      requires Valid()
      modifies this`len, data
      ensures Valid()
      ensures var ls := old(Lines(Text()));
              var i := LineIndex(ls, old(Clamp(Text(), off)));
              && Lines(Text()) == WithoutLine(ls, i)
              && cursor == Start(WithoutLine(ls, i), LandingLine(ls, i))
    {
      hide Lines, Join, Start, LineIndex, WithoutLine;
      ghost var ls := Lines(Text());
      ghost var i := LineIndex(ls, Clamp(Text(), off));
      JoinOfLines(Text());
      WithoutLinePlain(ls, i);
      var from, to := LineSpan(off);
      CloseGap(from, to);
      LinesOfJoin(WithoutLine(ls, i));
      CursorLands(ls, i);
      if from > len {
        from := len;
      }
      cursor := LineStart(from);
      ghost var end := LineEnd(from);
      BoundariesAreLines(Text(), from, cursor, end);
    }
  }

  // ---- Counting lines --------------------------------------------------------------

  function Newlines(t: string): nat {
    if t == "" then 0 else Newlines(t[1..]) + if t[0] == '\n' then 1 else 0
  }

  lemma {:induction false} NewlinesConcat(a: string, b: string)
    ensures Newlines(a + b) == Newlines(a) + Newlines(b)
  {
    if a == "" {
      assert a + b == b;
    } else {
      assert (a + b)[1..] == a[1..] + b;
      NewlinesConcat(a[1..], b);
    }
  }

  lemma NewlinesAppend(t: string, c: char)
    ensures Newlines(t + [c]) == Newlines(t) + if c == '\n' then 1 else 0
  {
    NewlinesConcat(t, [c]);
    assert [c][1..] == "";
    assert Newlines("") == 0;
  }

  lemma {:induction false} NoNewlines(t: string)
    requires Plain(t)
    ensures Newlines(t) == 0
  {
    if t != "" {
      NoNewlines(t[1..]);
    }
  }

  /** Counting newlines counts lines. */
  lemma {:induction false} CountIsLines(t: string)
    ensures |Lines(t)| == 1 + Newlines(t)
  {
    FirstLineSpec(t);
    var first := FirstLine(t);
    NoNewlines(first);
    if |first| < |t| {
      var rest := t[|first| + 1..];
      CountIsLines(rest);
      assert t == first + ("\n" + rest);
      NewlinesConcat(first, "\n" + rest);
      assert ("\n" + rest)[1..] == rest;
    } else {
      assert t == first;
    }
  }

  /** A line's first character is on that line, and only the first line starts at zero. */
  lemma StartOfLine(t: string, i: nat)
    requires i < |Lines(t)|
    ensures Start(Lines(t), i) <= |t| && LineIndex(Lines(t), Start(Lines(t), i)) == i
    ensures Start(Lines(t), i) == 0 <==> i == 0
  {
    hide Lines, Join;
    JoinOfLines(t);
    LineAt(Lines(t), i);
    LineIndexUnique(Lines(t), Start(Lines(t), i), i);
  }

  lemma WithoutLinePlain(ls: seq<string>, i: nat)
    requires i < |ls| && AllPlain(ls)
    ensures |WithoutLine(ls, i)| > 0 && AllPlain(WithoutLine(ls, i))
  {
  }

  /** The cut of line `i` starts on line `j` of what is left. */
  ghost predicate LandsOn(ls: seq<string>, i: nat, j: nat)
    requires i < |ls|
  {
    var rest := WithoutLine(ls, i);
    var from := SpanFrom(Join(ls), Start(ls, i), Start(ls, i) + |ls[i]|);
    |rest| > 0 && j < |rest| && from <= |Join(rest)| && LineIndex(rest, from) == j
  }

  /** After the cut, the place the line was at is on the landing line. */
  lemma CursorLands(ls: seq<string>, i: nat)
    requires i < |ls|
    ensures LandsOn(ls, i, LandingLine(ls, i))
  {
    hide LandsOn;
    if |ls| == 1 {
      LandsOnly(ls);
    } else if i == |ls| - 1 {
      LandsLast(ls);
    } else {
      LandsInside(ls, i);
    }
  }

  lemma LandsOnly(ls: seq<string>)
    requires |ls| == 1
    ensures LandsOn(ls, 0, 0)
  {
    OnlyLine(ls);
    LineEnds(ls, 0);
  }

  lemma LandsLast(ls: seq<string>)
    requires |ls| > 1
    ensures LandsOn(ls, |ls| - 1, |ls| - 2)
  {
    var i := |ls| - 1;
    assert WithoutLine(ls, i) == ls[..i];
    hide Join, Start, LineIndex, WithoutLine;
    LineEnds(ls, i);
    StartIsPrefix(ls, i);
    LineEnds(ls[..i], i - 1);
    LineIndexUnique(ls[..i], |Join(ls[..i])|, i - 1);
  }

  lemma LandsInside(ls: seq<string>, i: nat)
    requires i < |ls| - 1
    ensures LandsOn(ls, i, i)
  {
    var rest := WithoutLine(ls, i);
    assert |rest| == |ls| - 1 && rest[..i] == ls[..i];
    hide Join, Start, LineIndex, WithoutLine;
    LineEnds(ls, i);
    SameStart(ls, rest, i);
    LineEnds(rest, i);
    LineIndexUnique(rest, Start(ls, i), i);
  }

  lemma LineEnds(ls: seq<string>, i: nat)
    requires i < |ls|
    ensures Start(ls, i) + |ls[i]| <= |Join(ls)|
    ensures Start(ls, i) + |ls[i]| == |Join(ls)| <==> i == |ls| - 1
  {
    LineAt(ls, i);
  }

  lemma OnlyLine(ls: seq<string>)
    requires |ls| == 1
    ensures Start(ls, 0) == 0 && Join([""]) == "" && LineIndex([""], 0) == 0
  {
  }

  lemma SameStart(ls: seq<string>, rest: seq<string>, i: nat)
    requires i < |ls| && i < |rest| && ls[..i] == rest[..i]
    ensures Start(ls, i) == Start(rest, i)
  {
    if i > 0 {
      StartIsPrefix(ls, i);
      StartIsPrefix(rest, i);
    }
  }

  lemma StartAfter(t: string, i: nat)
    requires i < |Lines(t)|
    ensures i + 1 < |Lines(t)| ==> Start(Lines(t), i + 1) == Start(Lines(t), i) + |Lines(t)[i]| + 1
  {
    LineAt(Lines(t), i);
  }
}
