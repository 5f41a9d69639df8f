/**
 * The undo log of include/editbuf.h as an unbounded history squeezed through a bounded
 * log: coalescing, grouping and dropping, and what undo gives back in spite of them.
 */
module UndoHistory {
  import opened EditBuffer

  /** One recorded change: characters put in at an offset, and the ones taken out there. */
  datatype Change = Change(off: nat, inserted: nat, removed: string, cursor: int, group: nat)

  datatype Log = Log(changes: seq<Change>, recCap: nat, arenaCap: nat, group: nat, lost: bool)

  // ---- The log's own operations ----------------------------------------------------

  /** Characters the log keeps. */
  function Used(cs: seq<Change>): nat {
    if cs == [] then 0 else |cs[0].removed| + Used(cs[1..])
  }

  /** How many changes the oldest group has. */
  function OldestRun(cs: seq<Change>, group: nat): (n: nat)
    ensures n <= |cs|
  {
    if cs != [] && cs[0].group == group then 1 + OldestRun(cs[1..], group) else 0
  }

  predicate HasRoom(cs: seq<Change>, recCap: nat, arenaCap: nat, need: nat) {
    |cs| < recCap && Used(cs) + need <= arenaCap
  }

  /** How many changes go, whole groups at a time and oldest first, until one needing this much fits. */
  function ToDrop(cs: seq<Change>, recCap: nat, arenaCap: nat, need: nat): (d: nat)
    requires recCap > 0 && need <= arenaCap
    ensures d <= |cs|
    decreases |cs|
  {
    if HasRoom(cs, recCap, arenaCap, need) then 0
    else
      var n := OldestRun(cs, cs[0].group);
      n + ToDrop(cs[n..], recCap, arenaCap, need)
  }

  lemma {:induction false} ToDropMakesRoom(cs: seq<Change>, recCap: nat, arenaCap: nat, need: nat)
    requires recCap > 0 && need <= arenaCap
    ensures HasRoom(cs[ToDrop(cs, recCap, arenaCap, need)..], recCap, arenaCap, need)
    decreases |cs|
  {
    if HasRoom(cs, recCap, arenaCap, need) {
      assert cs[0..] == cs;
    } else {
      var n := OldestRun(cs, cs[0].group);
      ToDropMakesRoom(cs[n..], recCap, arenaCap, need);
      var d := ToDrop(cs[n..], recCap, arenaCap, need);
      assert cs[n..][d..] == cs[n + d..];
    }
  }

  function MakeRoom(l: Log, need: nat): Log
    requires l.recCap > 0 && need <= l.arenaCap
  {
    var d := ToDrop(l.changes, l.recCap, l.arenaCap, need);
    l.(changes := l.changes[d..], lost := l.lost || d > 0)
  }

  /** The change continues the run of typing the last one recorded. */
  predicate Continues(l: Log, c: Change) {
    && c.inserted > 0 && c.removed == "" && l.changes != []
    && var last := l.changes[|l.changes| - 1];
       last.group == l.group && last.removed == "" && c.off == last.off + last.inserted
  }

  /** The newest change, grown by a continuation. */
  function Grow(cs: seq<Change>, n: nat): seq<Change>
    requires cs != []
  {
    var k := |cs| - 1;
    cs[k := cs[k].(inserted := cs[k].inserted + n)]
  }

  function Push(l: Log, c: Change): Log {
    if l.recCap == 0 then l
    else if Continues(l, c) then l.(changes := Grow(l.changes, c.inserted))
    else if |c.removed| > l.arenaCap then Log([], l.recCap, l.arenaCap, 0, true)
    else
      var r := MakeRoom(l, |c.removed|);
      r.(changes := r.changes + [c])
  }

  // ---- Taking changes back ---------------------------------------------------------

  predicate Fits(c: Change, after: string) { c.off + c.inserted <= |after| }

  function Undo1(c: Change, after: string): string
    requires Fits(c, after)
  {
    after[..c.off] + c.removed + after[c.off + c.inserted..]
  }

  /** The change took the text from `before` to `after`. */
  predicate Explains(c: Change, before: string, after: string) {
    Fits(c, after) && Undo1(c, after) == before
  }

  /** Where the newest group begins in the log. */
  function NewestGroup(cs: seq<Change>, group: nat): (k: nat)
    ensures k <= |cs|
    ensures forall i :: k <= i < |cs| ==> cs[i].group == group
    ensures k > 0 ==> cs[k - 1].group != group
  {
    if cs == [] || cs[|cs| - 1].group != group then |cs| else NewestGroup(cs[..|cs| - 1], group)
  }

  // ---- A session: the text, its log, and what really happened ------------------------

  /**
   * `past[k]` is the text as it stood before the k-th retained change was first made, and
   * `base` the text at the last reset.
   */
  datatype Session = Session(text: string, log: Log, past: seq<string>, base: string)

  /** The text right after the k-th retained change. */
  function After(past: seq<string>, text: string, k: nat): string { if k + 1 < |past| then past[k + 1] else text }

  ghost predicate Sorted(cs: seq<Change>, top: nat) {
    forall i, j :: 0 <= i <= j < |cs| ==> cs[i].group <= cs[j].group <= top
  }

  /** Every retained change explains the step from the text before it to the text after it. */
  ghost predicate Faithful(cs: seq<Change>, past: seq<string>, text: string) {
    |past| == |cs| &&
    forall k {:trigger cs[k]} :: 0 <= k < |cs| ==> Explains(cs[k], past[k], After(past, text, k))
  }

  ghost predicate AllBelow(past: seq<string>, cap: nat) { forall k :: 0 <= k < |past| ==> |past[k]| < cap }

  /** The oldest text the log can take the buffer back to. */
  function Oldest(past: seq<string>, text: string): string { if past == [] then text else past[0] }

  /** What every session keeps, for a buffer of `cap` characters. */
  ghost predicate Inv(s: Session, cap: nat) {
    && |s.log.changes| <= s.log.recCap && Used(s.log.changes) <= s.log.arenaCap
    && Sorted(s.log.changes, s.log.group)
    && Faithful(s.log.changes, s.past, s.text)
    && |s.text| < cap && AllBelow(s.past, cap)
    && (!s.log.lost && s.log.recCap > 0 ==> s.base == Oldest(s.past, s.text))
  }

  /** A reset starts the history over from the text as it is. */
  function Reset(s: Session): Session {
    Session(s.text, Log([], s.log.recCap, s.log.arenaCap, 0, false), [], s.text)
  }

  lemma ResetKeeps(s: Session, cap: nat)
    requires |s.text| < cap
    ensures Inv(Reset(s), cap)
  {
  }

  /** A recorded edit: the text moves on, the log takes the change, the past grows with it. */
  function Record(s: Session, c: Change, text: string): Session
    requires |s.past| == |s.log.changes|
  {
    Session(
      text,
      Push(s.log, c),
      if s.log.recCap == 0 || Continues(s.log, c) then s.past
      else if |c.removed| > s.log.arenaCap then []
      else
        s.past[ToDrop(s.log.changes, s.log.recCap, s.log.arenaCap, |c.removed|)..] + [s.text],
      s.base)
  }

  /** Growing the newest change by what was typed right after it still explains the text. */
  lemma GrownExplains(last: Change, c: Change, before: string, middle: string, after: string)
    requires Explains(last, before, middle) && Explains(c, middle, after)
    requires last.removed == "" && c.removed == "" && c.off == last.off + last.inserted
    ensures Explains(last.(inserted := last.inserted + c.inserted), before, after)
  {
    assert middle == after[..c.off] + after[c.off + c.inserted..];
    assert before == middle[..last.off] + middle[last.off + last.inserted..];
    assert middle[..last.off] == after[..last.off];
    assert middle[last.off + last.inserted..] == after[c.off + c.inserted..];
  }

  lemma {:induction false} UsedConcat(a: seq<Change>, b: seq<Change>)
    ensures Used(a + b) == Used(a) + Used(b)
  {
    if a == [] {
      assert a + b == b;
    } else {
      assert (a + b)[1..] == a[1..] + b;
      UsedConcat(a[1..], b);
    }
  }

  lemma UsedAppend(cs: seq<Change>, c: Change)
    ensures Used(cs + [c]) == Used(cs) + |c.removed|
  {
    UsedConcat(cs, [c]);
    assert [c][1..] == [];
  }

  lemma UsedGrow(cs: seq<Change>, n: nat)
    requires cs != []
    ensures Used(Grow(cs, n)) == Used(cs)
  {
    var k := |cs| - 1;
    assert Grow(cs, n) == cs[..k] + [cs[k].(inserted := cs[k].inserted + n)];
    assert cs == cs[..k] + [cs[k]];
    UsedAppend(cs[..k], cs[k]);
    UsedAppend(cs[..k], cs[k].(inserted := cs[k].inserted + n));
  }

  /** Recording any edit that really happened keeps the invariant, however the log made room. */
  lemma RecordKeeps(s: Session, c: Change, text: string, cap: nat)
    requires Inv(s, cap) && Explains(c, s.text, text) && c.group == s.log.group && |text| < cap
    ensures Inv(Record(s, c, text), cap)
  {
    if s.log.recCap == 0 {
    } else if Continues(s.log, c) {
      RecordGrows(s, c, text, cap);
    } else if |c.removed| <= s.log.arenaCap {
      RecordAppends(s, c, text, cap);
    }
  }

  lemma FaithfulGrow(cs: seq<Change>, past: seq<string>, middle: string, c: Change, text: string)
    requires Faithful(cs, past, middle) && cs != [] && Explains(c, middle, text)
    requires cs[|cs| - 1].removed == "" && c.removed == "" && c.off == cs[|cs| - 1].off + cs[|cs| - 1].inserted
    ensures Faithful(Grow(cs, c.inserted), past, text)
  {
    var n := |cs| - 1;
    hide Explains;
    GrownExplains(cs[n], c, past[n], middle, text);
    forall k {:trigger Grow(cs, c.inserted)[k]} | 0 <= k < |cs|
      ensures Explains(Grow(cs, c.inserted)[k], past[k], After(past, text, k))
    {
      assert k < n ==> Explains(cs[k], past[k], After(past, middle, k));
    }
  }

  lemma FaithfulDrop(cs: seq<Change>, past: seq<string>, text: string, d: nat)
    requires Faithful(cs, past, text) && d <= |cs|
    ensures Faithful(cs[d..], past[d..], text)
  {
    hide Explains;
    forall k {:trigger cs[d..][k]} | 0 <= k < |cs[d..]|
      ensures Explains(cs[d..][k], past[d..][k], After(past[d..], text, k))
    {
      assert Explains(cs[d + k], past[d + k], After(past, text, d + k));
    }
  }

  lemma FaithfulAppend(cs: seq<Change>, past: seq<string>, middle: string, c: Change, text: string)
    requires Faithful(cs, past, middle) && Explains(c, middle, text)
    ensures Faithful(cs + [c], past + [middle], text)
  {
    hide Explains;
    forall k {:trigger (cs + [c])[k]} | 0 <= k < |cs + [c]|
      ensures Explains((cs + [c])[k], (past + [middle])[k], After(past + [middle], text, k))
    {
      assert k < |cs| ==> Explains(cs[k], past[k], After(past, middle, k));
    }
  }

  lemma FaithfulPop(cs: seq<Change>, past: seq<string>, text: string)
    requires Faithful(cs, past, text) && cs != []
    ensures Faithful(cs[..|cs| - 1], past[..|cs| - 1], past[|cs| - 1])
  {
    hide Explains;
    var n := |cs| - 1;
    forall k {:trigger cs[..n][k]} | 0 <= k < n
      ensures Explains(cs[..n][k], past[..n][k], After(past[..n], past[n], k))
    {
      assert Explains(cs[k], past[k], After(past, text, k));
    }
  }

  lemma RecordGrows(s: Session, c: Change, text: string, cap: nat)
    requires Inv(s, cap) && Explains(c, s.text, text) && |text| < cap
    requires s.log.recCap > 0 && Continues(s.log, c)
    ensures Inv(Record(s, c, text), cap)
  {
    UsedGrow(s.log.changes, c.inserted);
    FaithfulGrow(s.log.changes, s.past, s.text, c, text);
    hide Used, Explains, Faithful, AllBelow;
  }

  lemma RecordAppends(s: Session, c: Change, text: string, cap: nat)
    requires Inv(s, cap) && Explains(c, s.text, text) && c.group == s.log.group && |text| < cap
    requires s.log.recCap > 0 && !Continues(s.log, c) && |c.removed| <= s.log.arenaCap
    ensures Inv(Record(s, c, text), cap)
  {
    hide Used, Explains, Faithful, ToDrop;
    InvShape(s, cap);
    var cs, need := s.log.changes, |c.removed|;
    var d := ToDrop(cs, s.log.recCap, s.log.arenaCap, need);
    ToDropMakesRoom(cs, s.log.recCap, s.log.arenaCap, need);
    UsedAppend(cs[d..], c);
    FaithfulDrop(cs, s.past, s.text, d);
    FaithfulAppend(cs[d..], s.past[d..], s.text, c, text);
  }

  // ---- Undo --------------------------------------------------------------------------

  /** Taking back the newest group: the text before its oldest retained change. */
  function Undo(s: Session): (Session, int)
    requires |s.past| == |s.log.changes|
  {
    if s.past == [] then (s, -1)
    else
      var cs := s.log.changes;
      var g := NewestGroup(cs, cs[|cs| - 1].group);
      (Session(s.past[g], s.log.(changes := cs[..g]), s.past[..g], s.base), cs[g].cursor)
  }

  lemma LastExplains(s: Session, cap: nat)
    requires Inv(s, cap) && s.past != []
    ensures |s.past| == |s.log.changes|
    ensures Fits(s.log.changes[|s.past| - 1], s.text) && Undo1(s.log.changes[|s.past| - 1], s.text) == s.past[|s.past| - 1]
  {
    var n := |s.past| - 1;
    assert Explains(s.log.changes[n], s.past[n], After(s.past, s.text, n));
  }

  /** One change back. */
  function OneBack(s: Session): Session
    requires |s.past| == |s.log.changes| > 0
  {
    var n := |s.past| - 1;
    Session(s.past[n], s.log.(changes := s.log.changes[..n]), s.past[..n], s.base)
  }

  lemma OneBackKeeps(s: Session, cap: nat)
    requires Inv(s, cap) && s.past != []
    ensures Inv(OneBack(s), cap)
  {
    hide Used, Explains, Faithful;
    InvShape(s, cap);
    var n := |s.past| - 1;
    FaithfulPop(s.log.changes, s.past, s.text);
    assert s.log.changes == s.log.changes[..n] + [s.log.changes[n]];
    UsedAppend(s.log.changes[..n], s.log.changes[n]);
  }

  lemma {:induction false} UndoKeeps(s: Session, cap: nat)
    requires Inv(s, cap)
    ensures Inv(Undo(s).0, cap)
  {
    if s.past != [] {
      var cs := s.log.changes;
      Back(s, cap, NewestGroup(cs, cs[|cs| - 1].group));
    }
  }

  /** Any number of changes back. */
  lemma {:induction false} Back(s: Session, cap: nat, g: nat)
    requires Inv(s, cap) && g < |s.past|
    ensures Inv(Session(s.past[g], s.log.(changes := s.log.changes[..g]), s.past[..g], s.base), cap)
    decreases |s.past|
  {
    OneBackKeeps(s, cap);
    var n := |s.past| - 1;
    if g < n {
      Back(OneBack(s), cap, g);
      assert s.past[..n][..g] == s.past[..g] && s.log.changes[..n][..g] == s.log.changes[..g];
    }
  }

  /** Undoing until there is nothing left. */
  function UndoAll(s: Session): Session
    requires |s.past| == |s.log.changes|
    decreases |s.past|
  {
    if s.past == [] then s else UndoAll(Undo(s).0)
  }

  /** Undoing to the end gives the text before the oldest retained change; with nothing lost, the text at the reset. */
  lemma {:induction false} UndoAllIsExact(s: Session, cap: nat)
    requires Inv(s, cap)
    ensures UndoAll(s).text == if s.past == [] then s.text else s.past[0]
    ensures !s.log.lost && s.log.recCap > 0 ==> UndoAll(s).text == s.base
    decreases |s.past|
  {
    if s.past != [] {
      UndoKeeps(s, cap);
      UndoAllIsExact(Undo(s).0, cap);
    }
  }

  // ---- Whole runs ----------------------------------------------------------------------

  /** What a user of the editor can do. */
  datatype Op =
    | InsertChar(off: int, c: char, cursor: int)
    | DeleteChar(off: int, cursor: int)
    | DeleteLine(off: int, cursor: int)
    | NewGroup
    | TakeBack
    | StartOver

  /** The edit operations, as the buffer and the log see them together. */
  function Step(s: Session, op: Op, cap: nat): Session
    requires |s.past| == |s.log.changes|
  {
    match op
    case InsertChar(off, c, cursor) =>
      if 0 <= off <= |s.text| && |s.text| + 1 < cap then
        Record(s, Change(off, 1, "", cursor, s.log.group), s.text[..off] + [c] + s.text[off..])
      else s
    case DeleteChar(off, cursor) =>
      if 0 <= off < |s.text| then
        Record(s, Change(off, 0, [s.text[off]], cursor, s.log.group), s.text[..off] + s.text[off + 1..])
      else s
    case DeleteLine(off, cursor) =>
      var (from, to) := Span(s.text, off);
      if to > from then
        Record(s, Change(from, 0, s.text[from..to], cursor, s.log.group), s.text[..from] + s.text[to..])
      else s
    case NewGroup => s.(log := s.log.(group := s.log.group + 1))
    case TakeBack => Undo(s).0
    case StartOver => Reset(s)
  }

  /** The characters deleting the line at an offset removes. */
  function Span(t: string, off: int): (r: (nat, nat))
    ensures r.0 <= r.1 <= |t|
  {
    var ls := Lines(t);
    var i := LineIndex(ls, Clamp(t, off));
    JoinOfLines(t);
    SpanRemovesLine(ls, i);
    var end := Start(ls, i) + |ls[i]|;
    (SpanFrom(t, Start(ls, i), end), SpanTo(t, end))
  }

  lemma CutExplains(text: string, from: nat, to: nat, cursor: int, group: nat)
    requires from <= to <= |text|
    ensures Explains(Change(from, 0, text[from..to], cursor, group), text, text[..from] + text[to..])
  {
    assert text[..from] + text[from..to] + text[to..] == text;
  }

  lemma InsertExplains(text: string, off: nat, c: char, cursor: int, group: nat)
    requires off <= |text|
    ensures Explains(Change(off, 1, "", cursor, group), text, text[..off] + [c] + text[off..])
  {
    assert text[..off] + "" + text[off..] == text;
  }

  lemma StepKeeps(s: Session, op: Op, cap: nat)
    requires Inv(s, cap)
    ensures Inv(Step(s, op, cap), cap)
  {
    hide Inv, Explains, Used;
    InvShape(s, cap);
    match op
    case InsertChar(off, c, cursor) =>
      if 0 <= off <= |s.text| && |s.text| + 1 < cap {
        InsertExplains(s.text, off, c, cursor, s.log.group);
        RecordKeeps(s, Change(off, 1, "", cursor, s.log.group), s.text[..off] + [c] + s.text[off..], cap);
      }
    case DeleteChar(off, cursor) =>
      if 0 <= off < |s.text| {
        CutExplains(s.text, off, off + 1, cursor, s.log.group);
        assert s.text[off..off + 1] == [s.text[off]];
        RecordKeeps(s, Change(off, 0, [s.text[off]], cursor, s.log.group), s.text[..off] + s.text[off + 1..], cap);
      }
    case DeleteLine(off, cursor) =>
      var (from, to) := Span(s.text, off);
      if to > from {
        CutExplains(s.text, from, to, cursor, s.log.group);
        RecordKeeps(s, Change(from, 0, s.text[from..to], cursor, s.log.group), s.text[..from] + s.text[to..], cap);
      }
    case NewGroup => NewGroupKeeps(s, cap);
    case TakeBack => UndoKeeps(s, cap);
    case StartOver => ResetKeeps(s, cap);
  }

  lemma InvShape(s: Session, cap: nat)
    requires Inv(s, cap)
    ensures |s.past| == |s.log.changes| && |s.text| < cap
  {
  }

  lemma NewGroupKeeps(s: Session, cap: nat)
    requires Inv(s, cap)
    ensures Inv(s.(log := s.log.(group := s.log.group + 1)), cap)
  {
  }

  /** A session after any sequence of operations. */
  ghost function Run(s: Session, ops: seq<Op>, cap: nat): (r: Session)
    requires |s.past| == |s.log.changes|
    ensures |r.past| == |r.log.changes|
  {
    if ops == [] then s
    else
      var before := Run(s, ops[..|ops| - 1], cap);
      StepShape(before, ops[|ops| - 1], cap);
      Step(before, ops[|ops| - 1], cap)
  }

  lemma StepShape(s: Session, op: Op, cap: nat)
    requires |s.past| == |s.log.changes|
    ensures |Step(s, op, cap).past| == |Step(s, op, cap).log.changes|
  {
    hide Span, ToDrop;
  }

  /** Any run of edits, groups, undos and resets keeps the history faithful. */
  lemma {:induction false} RunKeeps(s: Session, ops: seq<Op>, cap: nat)
    requires Inv(s, cap)
    ensures |s.past| == |s.log.changes| && Inv(Run(s, ops, cap), cap)
  {
    if ops != [] {
      RunKeeps(s, ops[..|ops| - 1], cap);
      StepKeeps(Run(s, ops[..|ops| - 1], cap), ops[|ops| - 1], cap);
    }
  }

  // ---- Whole groups ----------------------------------------------------------------------

  /** The current group's own changes, plus one more, fit the log. */
  predicate GroupFits(l: Log, need: nat) {
    var own := l.changes[NewestGroup(l.changes, l.group)..];
    |own| < l.recCap && Used(own) + need <= l.arenaCap
  }

  /**
   * Dropping never takes part of an older group, but it does take the current group's own
   * changes, so that what is left of the group undoes on its own, exactly when they and the
   * new change do not fit together.
   */
  lemma {:induction false} DropSparesCurrentGroup(l: Log, need: nat)
    requires l.recCap > 0 && need <= l.arenaCap && Sorted(l.changes, l.group)
    ensures ToDrop(l.changes, l.recCap, l.arenaCap, need) <= NewestGroup(l.changes, l.group) <==> GroupFits(l, need)
    decreases |l.changes|
  {
    hide Used, NewestGroup, OldestRun, Sorted;
    var cs := l.changes;
    var g := NewestGroup(cs, l.group);
    if HasRoom(cs, l.recCap, l.arenaCap, need) {
      OwnIsPart(cs, g);
    } else {
      NoRoomMeansChanges(cs, l.recCap, l.arenaCap, need);
      var n := OldestRun(cs, cs[0].group);
      OldestWithinOlder(cs, l.group);
      if g == 0 {
        assert cs[0..] == cs;
      } else {
        NewestGroupDrop(cs, l.group, n);
        DropSparesCurrentGroup(l.(changes := cs[n..]), need);
        assert cs[n..][g - n..] == cs[g..];
      }
    }
  }

  /** The log ends in these changes. */
  predicate EndsIn(cs: seq<Change>, own: seq<Change>) { |own| <= |cs| && cs[|cs| - |own|..] == own }

  /**
   * Recording a change that does not continue the last one keeps the current group whole,
   * the new change with it, exactly when they fit the log together. When they do not, the
   * group is split: its own changes are dropped for the new one or, when the new one alone is
   * larger than the arena, the log is emptied in mid-group and not even that one is kept.
   */
  lemma PushKeepsGroup(l: Log, c: Change)
    requires l.recCap > 0 && Sorted(l.changes, l.group) && !Continues(l, c)
    ensures EndsIn(Push(l, c).changes, l.changes[NewestGroup(l.changes, l.group)..] + [c]) <==> GroupFits(l, |c.removed|)
    ensures |c.removed| > l.arenaCap ==> Push(l, c).changes == [] && Push(l, c).lost
  {
    hide Used, NewestGroup, Sorted, Continues, ToDrop;
    var cs, g, need := l.changes, NewestGroup(l.changes, l.group), |c.removed|;
    if need <= l.arenaCap {
      DropSparesCurrentGroup(l, need);
      KeptSuffix(cs, c, ToDrop(cs, l.recCap, l.arenaCap, need), g);
    }
  }

  lemma KeptSuffix(cs: seq<Change>, c: Change, d: nat, g: nat)
    requires d <= |cs| && g <= |cs|
    ensures EndsIn(cs[d..] + [c], cs[g..] + [c]) <==> d <= g
  {
    if d <= g {
      assert (cs[d..] + [c])[g - d..] == cs[g..] + [c];
    }
  }

  lemma NoRoomMeansChanges(cs: seq<Change>, recCap: nat, arenaCap: nat, need: nat)
    requires recCap > 0 && need <= arenaCap && !HasRoom(cs, recCap, arenaCap, need)
    ensures cs != []
  {
  }

  /** The oldest group is older than the current one, unless it is the current one. */
  lemma OldestWithinOlder(cs: seq<Change>, group: nat)
    requires cs != [] && Sorted(cs, group)
    ensures OldestRun(cs, cs[0].group) > 0
    ensures NewestGroup(cs, group) > 0 ==> OldestRun(cs, cs[0].group) <= NewestGroup(cs, group)
    ensures Sorted(cs[OldestRun(cs, cs[0].group)..], group)
  {
    var g := NewestGroup(cs, group);
    OldestRunSpec(cs, cs[0].group);
    hide NewestGroup, OldestRun;
    if g > 0 {
      assert cs[0].group <= cs[g - 1].group < group;
      assert g < |cs| ==> cs[g].group == group;
    }
    SortedDrop(cs, group, OldestRun(cs, cs[0].group));
  }

  lemma SortedDrop(cs: seq<Change>, top: nat, n: nat)
    requires Sorted(cs, top) && n <= |cs|
    ensures Sorted(cs[n..], top)
  {
  }

  lemma OwnIsPart(cs: seq<Change>, g: nat)
    requires g <= |cs|
    ensures Used(cs[g..]) <= Used(cs)
  {
    assert cs == cs[..g] + cs[g..];
    UsedConcat(cs[..g], cs[g..]);
  }

  lemma {:induction false} OldestRunSpec(cs: seq<Change>, group: nat)
    ensures forall i :: 0 <= i < OldestRun(cs, group) ==> cs[i].group == group
    ensures OldestRun(cs, group) < |cs| ==> cs[OldestRun(cs, group)].group != group
    ensures cs != [] && cs[0].group == group ==> OldestRun(cs, group) > 0
  {
    if cs != [] && cs[0].group == group {
      OldestRunSpec(cs[1..], group);
    }
  }

  lemma NewestGroupDrop(cs: seq<Change>, group: nat, n: nat)
    requires n <= NewestGroup(cs, group)
    ensures NewestGroup(cs[n..], group) == NewestGroup(cs, group) - n
  {
    var g, h := NewestGroup(cs, group), NewestGroup(cs[n..], group);
    assert h > 0 ==> cs[n..][h - 1] == cs[n + h - 1];
    assert g > n ==> cs[n..][g - n - 1] == cs[g - 1];
  }

  /** A log of one record, holding a change of the current group, forgets it for the next one. */
  lemma OneRecordForgets(s: Session, c: Change, text: string)
    requires |s.past| == |s.log.changes| == 1 == s.log.recCap && c.removed == "" && !Continues(s.log, c)
    ensures Undo(Record(s, c, text)).0.text == s.text
  {
    var cs := s.log.changes;
    var n := OldestRun(cs, cs[0].group);
    OldestRunSpec(cs, cs[0].group);
    assert n == 1 && ToDrop(cs, 1, s.log.arenaCap, 0) == 1 + ToDrop(cs[1..], 1, s.log.arenaCap, 0);
    assert Record(s, c, text).past == [s.text];
    assert Record(s, c, text).log.changes == [c];
    assert NewestGroup([c], c.group) == 0 by {
      assert [c][..0] == [];
    }
  }

  /**
   * Two insertions in one group through a log of one record: the undo that should give back
   * the empty text takes back only the second of them.
   */
  lemma HalfAGroup()
    ensures var typed := Session("a", Log([Change(0, 1, "", 0, 0)], 1, 16, 0, false), [""], "");
            && Inv(typed, 8)
            && !GroupFits(typed.log, 0)
            && Undo(Record(typed, Change(0, 1, "", 0, 0), "ba")).0.text == "a"
  {
    var typed := Session("a", Log([Change(0, 1, "", 0, 0)], 1, 16, 0, false), [""], "");
    assert Explains(Change(0, 1, "", 0, 0), "", "a");
    OneRecordForgets(typed, Change(0, 1, "", 0, 0), "ba");
    hide *;
    TypedIsFaithful(typed);
  }

  lemma TypedIsFaithful(s: Session)
    requires |s.log.changes| == 1 == |s.past| && s.log.changes[0] == Change(0, 1, "", 0, 0)
    requires s.log.recCap == 1 && s.log.arenaCap == 16 && s.log.group == 0
    requires Explains(s.log.changes[0], s.past[0], s.text) && |s.text| < 8 && |s.past[0]| < 8 && s.base == s.past[0]
    ensures Inv(s, 8) && !GroupFits(s.log, 0)
  {
    var cs := s.log.changes;
    assert Used(cs[1..]) == 0;
    assert NewestGroup(cs, 0) == 0 by {
      assert NewestGroup(cs[..0], 0) == 0;
    }
    assert cs[0..] == cs;
  }
}
