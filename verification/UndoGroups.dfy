/**
 * What undo means to the person typing: the text and cursor as they stood at the last group
 * mark before the newest change. The trail below is kept from the edits alone; the bounded,
 * coalescing log is proved to follow it.
 */
module UndoGroups {
  import opened EditBuffer
  import opened UndoHistory

  /** Where a group began; `whole` until the log could not hold all of it. */
  datatype Mark = Mark(group: nat, text: string, cursor: int, whole: bool)

  datatype Place = Nowhere | Behind(off: nat)

  /** The groups with changes in them, oldest first, the current group, and where its typing has got to. */
  datatype Trail = Trail(marks: seq<Mark>, group: nat, typing: Place)

  // ---- The trail -------------------------------------------------------------------------

  predicate IsEdit(op: Op) { op.InsertChar? || op.DeleteChar? || op.DeleteLine? }

  /** The operation changes the text. */
  ghost predicate Edits(s: Session, op: Op, cap: nat)
    requires |s.past| == |s.log.changes|
  {
    IsEdit(op) && |Step(s, op, cap).text| != |s.text|
  }

  /** How many characters it takes out. */
  ghost function Taken(s: Session, op: Op, cap: nat): nat
    requires |s.past| == |s.log.changes|
  {
    if |Step(s, op, cap).text| < |s.text| then |s.text| - |Step(s, op, cap).text| else 0
  }

  /** The operation types on where the typing of this group has got to. */
  predicate TypesOn(tr: Trail, op: Op) { op.InsertChar? && op.off >= 0 && tr.typing == Behind(op.off) }

  /** A change in the current group, which the log can hold whole or not. */
  function Marked(tr: Trail, text: string, cursor: int, fits: bool): seq<Mark> {
    var n := |tr.marks|;
    if n > 0 && tr.marks[n - 1].group == tr.group
    then tr.marks[n - 1 := tr.marks[n - 1].(whole := tr.marks[n - 1].whole && fits)]
    else tr.marks + [Mark(tr.group, text, cursor, fits)]
  }

  function PlaceAfter(op: Op): Place { if op.InsertChar? && op.off >= 0 then Behind(op.off + 1) else Nowhere }

  ghost function Follow(tr: Trail, s: Session, op: Op, cap: nat): Trail
    requires |s.past| == |s.log.changes|
  {
    match op
    case NewGroup => Trail(tr.marks, tr.group + 1, Nowhere)
    case TakeBack => if s.past == [] || tr.marks == [] then tr else Trail(tr.marks[..|tr.marks| - 1], tr.group, Nowhere)
    case StartOver => Trail([], 0, Nowhere)
    case _ =>
      if s.log.recCap == 0 || !Edits(s, op, cap) then tr
      else if Taken(s, op, cap) > s.log.arenaCap then Trail([], 0, Nowhere)
      else
        var fits := TypesOn(tr, op) || GroupFits(s.log, Taken(s, op, cap));
        Trail(Marked(tr, s.text, op.cursor, fits), tr.group, PlaceAfter(op))
  }

  ghost function TrailOf(s: Session, ops: seq<Op>, cap: nat): Trail
    requires |s.past| == |s.log.changes|
  {
    if ops == [] then Trail([], s.log.group, Nowhere)
    else Follow(TrailOf(s, ops[..|ops| - 1], cap), Run(s, ops[..|ops| - 1], cap), ops[|ops| - 1], cap)
  }

  // ---- The groups a log retains ------------------------------------------------------------

  /** The first retained change of every retained group. */
  function Heads(cs: seq<Change>, past: seq<string>): seq<Mark>
    requires |past| == |cs|
  {
    if cs == [] then []
    else
      var n := |cs| - 1;
      var before := Heads(cs[..n], past[..n]);
      if n > 0 && cs[n - 1].group == cs[n].group then before
      else before + [Mark(cs[n].group, past[n], cs[n].cursor, true)]
  }

  /** No group lies on both sides. */
  predicate Boundary(cs: seq<Change>, d: nat) { d <= |cs| && (0 < d < |cs| ==> cs[d - 1].group != cs[d].group) }

  lemma {:induction false} HeadsSplit(cs: seq<Change>, past: seq<string>, d: nat)
    requires |past| == |cs| && Boundary(cs, d)
    ensures Heads(cs, past) == Heads(cs[..d], past[..d]) + Heads(cs[d..], past[d..])
    decreases |cs|
  {
    if d == |cs| {
      assert cs[..d] == cs && past[..d] == past && cs[d..] == [];
    } else {
      var n := |cs| - 1;
      HeadsSplit(cs[..n], past[..n], d);
      Slices(cs, d);
      Slices(past, d);
      hide Heads;
      HeadsLast(cs, past);
      HeadsLast(cs[d..], past[d..]);
    }
  }

  /** A sequence cut in two, with and without its last element. */
  lemma Slices<T>(s: seq<T>, d: nat)
    requires d < |s|
    ensures var n := |s| - 1;
            && s[..n][..d] == s[..d] && s[..n][d..] == s[d..][..n - d]
            && s[d..][n - d] == s[n] && (n > d ==> s[d..][n - d - 1] == s[n - 1])
  {
  }

  lemma HeadsLast(cs: seq<Change>, past: seq<string>)
    requires |past| == |cs| > 0
    ensures var n := |cs| - 1;
            Heads(cs, past) == if n > 0 && cs[n - 1].group == cs[n].group then Heads(cs[..n], past[..n])
                               else Heads(cs[..n], past[..n]) + [Mark(cs[n].group, past[n], cs[n].cursor, true)]
    ensures |cs| == 1 ==> Heads(cs[..0], past[..0]) == []
  {
  }

  lemma HeadsAppend(cs: seq<Change>, past: seq<string>, c: Change, text: string)
    requires |past| == |cs|
    ensures Heads(cs + [c], past + [text]) ==
            if cs != [] && cs[|cs| - 1].group == c.group then Heads(cs, past)
            else Heads(cs, past) + [Mark(c.group, text, c.cursor, true)]
  {
    assert (cs + [c])[..|cs|] == cs && (past + [text])[..|cs|] == past;
  }

  lemma HeadsGrow(cs: seq<Change>, past: seq<string>, n: nat)
    requires |past| == |cs| > 0
    ensures Heads(Grow(cs, n), past) == Heads(cs, past)
  {
    assert Grow(cs, n)[..|cs| - 1] == cs[..|cs| - 1];
  }

  /** One group has one head. */
  lemma {:induction false} OneHead(cs: seq<Change>, past: seq<string>)
    requires |past| == |cs| > 0 && forall i :: 0 <= i < |cs| ==> cs[i].group == cs[0].group
    ensures Heads(cs, past) == [Mark(cs[0].group, past[0], cs[0].cursor, true)]
    decreases |cs|
  {
    var n := |cs| - 1;
    if n > 0 {
      OneHead(cs[..n], past[..n]);
    } else {
      assert Heads(cs[..0], past[..0]) == [];
    }
  }

  /** The newest group's head is the last. */
  lemma NewestHead(cs: seq<Change>, past: seq<string>)
    requires |past| == |cs| > 0
    ensures var g := NewestGroup(cs, cs[|cs| - 1].group);
            g < |cs| && Heads(cs, past) == Heads(cs[..g], past[..g]) + [Mark(cs[g].group, past[g], cs[g].cursor, true)]
  {
    var g := NewestGroup(cs, cs[|cs| - 1].group);
    HeadsSplit(cs, past, g);
    OneHead(cs[g..], past[g..]);
  }

  /** Room is made a group at a time. */
  lemma {:induction false} DropsGroups(cs: seq<Change>, recCap: nat, arenaCap: nat, need: nat)
    requires recCap > 0 && need <= arenaCap
    ensures Boundary(cs, ToDrop(cs, recCap, arenaCap, need))
    decreases |cs|
  {
    if !HasRoom(cs, recCap, arenaCap, need) {
      NoRoomMeansChanges(cs, recCap, arenaCap, need);
      var n := OldestRun(cs, cs[0].group);
      OldestRunSpec(cs, cs[0].group);
      hide HasRoom, OldestRun;
      DropsGroups(cs[n..], recCap, arenaCap, need);
      var d := ToDrop(cs[n..], recCap, arenaCap, need);
      assert ToDrop(cs, recCap, arenaCap, need) == n + d;
      assert d > 0 ==> cs[n..][d - 1] == cs[n + d - 1];
    }
  }

  /** And no more than is needed: with any whole group fewer gone there is none. */
  lemma {:induction false} DropsNoMore(cs: seq<Change>, recCap: nat, arenaCap: nat, need: nat, k: nat)
    requires recCap > 0 && need <= arenaCap && Boundary(cs, k) && k < ToDrop(cs, recCap, arenaCap, need)
    ensures !HasRoom(cs[k..], recCap, arenaCap, need)
    decreases |cs|
  {
    if k == 0 {
      assert cs[0..] == cs;
    } else {
      var n := OldestRun(cs, cs[0].group);
      OldestRunSpec(cs, cs[0].group);
      if k >= n {
        assert k > n ==> cs[n..][k - n - 1] == cs[k - 1];
        DropsNoMore(cs[n..], recCap, arenaCap, need, k - n);
        assert cs[n..][k - n..] == cs[k..];
      }
    }
  }

  // ---- Log and trail agree -------------------------------------------------------------------

  /** The retained groups are the newest marks, and where a mark is whole they begin there. */
  ghost predicate Matched(marks: seq<Mark>, heads: seq<Mark>) {
    |heads| <= |marks| && forall j :: 0 <= j < |heads| ==> BeginsAt(heads[j], marks[|marks| - |heads| + j])
  }

  predicate BeginsAt(head: Mark, mark: Mark) {
    mark.group == head.group && (mark.whole ==> mark.text == head.text && mark.cursor == head.cursor)
  }

  /** Marks of ever newer groups, none newer than the current one. */
  ghost predicate Rising(marks: seq<Mark>, group: nat) {
    && (forall i, j :: 0 <= i < j < |marks| ==> marks[i].group < marks[j].group)
    && (forall i :: 0 <= i < |marks| ==> marks[i].group <= group)
  }

  function TypingOf(l: Log): Place {
    var n := |l.changes| - 1;
    if n >= 0 && l.changes[n].group == l.group && l.changes[n].removed == "" then Behind(l.changes[n].off + l.changes[n].inserted)
    else Nowhere
  }

  ghost predicate AllWhole(marks: seq<Mark>) { forall i :: 0 <= i < |marks| ==> marks[i].whole }

  ghost predicate Agrees(tr: Trail, s: Session) {
    && |s.past| == |s.log.changes| && tr.group == s.log.group && tr.typing == TypingOf(s.log)
    && Rising(tr.marks, tr.group)
    && Matched(tr.marks, Heads(s.log.changes, s.past))
    && (tr.marks != [] && tr.marks[|tr.marks| - 1].group == tr.group ==> s.past != [])
    && (!s.log.lost ==> |tr.marks| == |Heads(s.log.changes, s.past)| && AllWhole(tr.marks))
  }
  /** What an edit records. */
  lemma EditRecords(s: Session, op: Op, cap: nat) returns (c: Change)
    requires |s.past| == |s.log.changes| && Edits(s, op, cap)
    ensures Step(s, op, cap) == Record(s, c, Step(s, op, cap).text)
    ensures c.group == s.log.group && c.cursor == op.cursor && |c.removed| == Taken(s, op, cap)
    ensures if op.InsertChar? then c.removed == "" && c.off == op.off && c.inserted == 1 else c.removed != "" && c.inserted == 0
  {
    hide Push, Continues, ToDrop;
    match op
    case InsertChar(off, ch, cursor) => c := Change(off, 1, "", cursor, s.log.group);
    case DeleteChar(off, cursor) => c := Change(off, 0, [s.text[off]], cursor, s.log.group);
    case DeleteLine(off, cursor) =>
      var (from, to) := Span(s.text, off);
      c := Change(from, 0, s.text[from..to], cursor, s.log.group);
  }

  lemma NoEdit(s: Session, op: Op, cap: nat)
    requires |s.past| == |s.log.changes| && IsEdit(op) && !Edits(s, op, cap)
    ensures Step(s, op, cap) == s
  {
    hide Push, Continues, ToDrop;
  }

  /** The log takes typing on for the same run of typing as the trail does. */
  lemma TypesOnIs(tr: Trail, s: Session, op: Op, c: Change)
    requires tr.typing == TypingOf(s.log) && IsEdit(op)
    requires if op.InsertChar? then c.removed == "" && c.off == op.off && c.inserted == 1 else c.removed != "" && c.inserted == 0
    ensures Continues(s.log, c) <==> TypesOn(tr, op)
  {
  }

  /** Typing on costs no record. */
  lemma AgreesTypingOn(tr: Trail, s: Session, c: Change, text: string)
    requires Agrees(tr, s) && s.log.recCap > 0 && Continues(s.log, c)
    ensures |Record(s, c, text).log.changes| == |s.log.changes|
    ensures Agrees(Trail(Marked(tr, s.text, c.cursor, true), tr.group, Behind(c.off + c.inserted)), Record(s, c, text))
  {
    HeadsGrow(s.log.changes, s.past, c.inserted);
    BusyIsMarked(tr, s);
    hide Heads, Rising, Matched;
    assert Marked(tr, s.text, c.cursor, true) == tr.marks;
  }

  lemma LastHead(cs: seq<Change>, past: seq<string>)
    requires |past| == |cs| > 0
    ensures var hs := Heads(cs, past);
            hs != [] && hs[|hs| - 1].group == cs[|cs| - 1].group
  {
    NewestHead(cs, past);
  }

  /** The newest change is one of the current group's. */
  predicate Busy(l: Log) { l.changes != [] && l.changes[|l.changes| - 1].group == l.group }

  lemma BusyIsMarked(tr: Trail, s: Session)
    requires Agrees(tr, s)
    ensures Busy(s.log) <==> tr.marks != [] && tr.marks[|tr.marks| - 1].group == tr.group
  {
    if s.past != [] {
      LastHead(s.log.changes, s.past);
    }
    hide Heads;
  }

  /** Room made for a change takes none of the current group, or all there is. */
  lemma WhatIsKept(l: Log, d: nat)
    requires Boundary(l.changes, d)
    ensures var g := NewestGroup(l.changes, l.group);
            if Busy(l) then if d <= g then d < |l.changes| else d == |l.changes|
            else d <= g && (d < |l.changes| ==> l.changes[|l.changes| - 1].group != l.group)
  {
  }

  lemma MatchedSuffix(marks: seq<Mark>, dropped: seq<Mark>, kept: seq<Mark>)
    requires Matched(marks, dropped + kept)
    ensures Matched(marks, kept)
  {
    forall j | 0 <= j < |kept|
      ensures BeginsAt(kept[j], marks[|marks| - |kept| + j])
    {
      assert (dropped + kept)[|dropped| + j] == kept[j];
    }
  }

  predicate OnTop(tr: Trail) { tr.marks != [] && tr.marks[|tr.marks| - 1].group == tr.group }

  lemma MarkedRises(tr: Trail, text: string, cursor: int, fits: bool)
    requires Rising(tr.marks, tr.group)
    ensures var marks := Marked(tr, text, cursor, fits);
            && Rising(marks, tr.group) && marks != [] && marks[|marks| - 1].group == tr.group
            && (AllWhole(tr.marks) && fits ==> AllWhole(marks))
            && |marks| == |tr.marks| + (if OnTop(tr) then 0 else 1)
  {
    assert !OnTop(tr) && tr.marks != [] ==> tr.marks[|tr.marks| - 1].group < tr.group;
  }

  lemma MarkedMatches(tr: Trail, kept: seq<Mark>, text: string, cursor: int, fits: bool)
    requires Matched(tr.marks, kept)
    ensures var m, marks := Mark(tr.group, text, cursor, true), Marked(tr, text, cursor, fits);
            if OnTop(tr) then Matched(marks, kept) && (!fits ==> Matched(marks, [m])) else Matched(marks, kept + [m])
  {
    var m, marks := Mark(tr.group, text, cursor, true), Marked(tr, text, cursor, fits);
    var n := |tr.marks|;
    if OnTop(tr) {
      forall j | 0 <= j < |kept|
        ensures BeginsAt(kept[j], marks[n - |kept| + j])
      {
        assert BeginsAt(kept[j], tr.marks[n - |kept| + j]);
      }
    } else {
      forall j | 0 <= j < |kept + [m]|
        ensures BeginsAt((kept + [m])[j], marks[n - |kept| + j])
      {
        if j < |kept| {
          assert BeginsAt(kept[j], tr.marks[n - |kept| + j]);
        }
      }
    }
  }

  /** A change with a record of its own. */
  lemma AgreesNewRecord(tr: Trail, s: Session, c: Change, text: string, cap: nat)
    requires Inv(s, cap) && Agrees(tr, s) && s.log.recCap > 0 && !Continues(s.log, c) && |c.removed| <= s.log.arenaCap
    requires c.group == s.log.group
    ensures Agrees(Trail(Marked(tr, s.text, c.cursor, GroupFits(s.log, |c.removed|)), tr.group,
                         if c.removed == "" then Behind(c.off + c.inserted) else Nowhere),
                   Record(s, c, text))
  {
    var d, fits := ToDrop(s.log.changes, s.log.recCap, s.log.arenaCap, |c.removed|), GroupFits(s.log, |c.removed|);
    DropSparesCurrentGroup(s.log, |c.removed|);
    DropsGroups(s.log.changes, s.log.recCap, s.log.arenaCap, |c.removed|);
    hide NewestGroup, GroupFits, ToDrop, Continues, Agrees, Inv, Marked;
    AgreesAppended(tr, s, c, text, d, fits);
  }

  /** Its group is on the trail, and kept or cut as it fits. */
  lemma HeadsAppended(tr: Trail, s: Session, c: Change, d: nat, fits: bool)
    requires Agrees(tr, s) && Boundary(s.log.changes, d) && c.group == s.log.group
    requires fits <==> d <= NewestGroup(s.log.changes, s.log.group)
    ensures var marks, kept := Marked(tr, s.text, c.cursor, fits), Heads(s.log.changes[d..] + [c], s.past[d..] + [s.text]);
            && Rising(marks, tr.group) && Matched(marks, kept) && marks != []
            && (d == 0 && !s.log.lost ==> |marks| == |kept| && AllWhole(marks))
  {
    hide NewestGroup, Rising, Matched, AllWhole, Heads, Marked, TypingOf;
    var cs, past := s.log.changes, s.past;
    HeadsSplit(cs, past, d);
    HeadsAppend(cs[d..], past[d..], c, s.text);
    BusyIsMarked(tr, s);
    WhatIsKept(s.log, d);
    hide Boundary;
    MatchedSuffix(tr.marks, Heads(cs[..d], past[..d]), Heads(cs[d..], past[d..]));
    MarkedRises(tr, s.text, c.cursor, fits);
    MarkedMatches(tr, Heads(cs[d..], past[d..]), s.text, c.cursor, fits);
    KeptHeads(cs, past, d);
    var m := Mark(c.group, s.text, c.cursor, true);
    assert [] + [m] == [m];
    assert d < |cs| ==> cs[d..][|cs[d..]| - 1] == cs[|cs| - 1];
  }

  lemma AgreesAppended(tr: Trail, s: Session, c: Change, text: string, d: nat, fits: bool)
    requires Agrees(tr, s) && Boundary(s.log.changes, d) && c.group == s.log.group
    requires fits <==> d <= NewestGroup(s.log.changes, s.log.group)
    ensures var r := Session(text, s.log.(changes := s.log.changes[d..] + [c], lost := s.log.lost || d > 0), s.past[d..] + [s.text], s.base);
            Agrees(Trail(Marked(tr, s.text, c.cursor, fits), tr.group, if c.removed == "" then Behind(c.off + c.inserted) else Nowhere), r)
  {
    HeadsAppended(tr, s, c, d, fits);
    hide Heads, Rising, Matched, AllWhole, Marked, NewestGroup, TypingOf, Boundary;
    TypingAppended(s.log, s.log.changes[d..], c, s.log.lost || d > 0);
  }

  lemma TypingAppended(l: Log, cs: seq<Change>, c: Change, lost: bool)
    requires c.group == l.group
    ensures TypingOf(l.(changes := cs + [c], lost := lost)) == if c.removed == "" then Behind(c.off + c.inserted) else Nowhere
  {
  }

  lemma KeptHeads(cs: seq<Change>, past: seq<string>, d: nat)
    requires |past| == |cs| && d <= |cs|
    ensures d == 0 ==> Heads(cs[d..], past[d..]) == Heads(cs, past) && Heads(cs[..d], past[..d]) == []
    ensures d == |cs| ==> Heads(cs[d..], past[d..]) == []
    ensures 0 <= d < |cs| ==> cs[d..][|cs| - d - 1] == cs[|cs| - 1]
  {
    assert cs[0..] == cs && past[0..] == past;
  }
  /** A change too large for the log empties both. */
  lemma AgreesEmptied(s: Session, c: Change, text: string)
    requires |s.past| == |s.log.changes| && s.log.recCap > 0 && |c.removed| > s.log.arenaCap
    ensures Agrees(Trail([], 0, Nowhere), Record(s, c, text))
  {
  }

  lemma FollowEditIs(tr: Trail, s: Session, op: Op, cap: nat, c: Change)
    requires |s.past| == |s.log.changes| && Edits(s, op, cap) && |c.removed| == Taken(s, op, cap) && c.cursor == op.cursor
    requires if op.InsertChar? then c.removed == "" && c.off == op.off && c.inserted == 1 else c.removed != ""
    ensures Follow(tr, s, op, cap) ==
            if s.log.recCap == 0 then tr
            else if |c.removed| > s.log.arenaCap then Trail([], 0, Nowhere)
            else Trail(Marked(tr, s.text, c.cursor, TypesOn(tr, op) || GroupFits(s.log, |c.removed|)), tr.group,
                       if c.removed == "" then Behind(c.off + c.inserted) else Nowhere)
  {
    hide Step, Taken, GroupFits, Marked, TypesOn;
  }

  lemma FollowEdit(tr: Trail, s: Session, op: Op, cap: nat)
    requires Inv(s, cap) && Agrees(tr, s) && IsEdit(op)
    ensures Agrees(Follow(tr, s, op, cap), Step(s, op, cap))
  {
    if !Edits(s, op, cap) {
      NoEdit(s, op, cap);
    } else {
      var c := EditRecords(s, op, cap);
      TypesOnIs(tr, s, op, c);
      FollowEditIs(tr, s, op, cap, c);
      hide Step, Edits, Taken, Agrees, Inv, GroupFits, Continues, Marked, Follow, Record;
      if s.log.recCap == 0 {
        UnrecordedAgrees(tr, s, c, Step(s, op, cap).text, cap);
      } else if |c.removed| > s.log.arenaCap {
        AgreesEmptied(s, c, Step(s, op, cap).text);
      } else if TypesOn(tr, op) {
        AgreesTypingOn(tr, s, c, Step(s, op, cap).text);
      } else {
        AgreesNewRecord(tr, s, c, Step(s, op, cap).text, cap);
      }
    }
  }

  lemma UnrecordedAgrees(tr: Trail, s: Session, c: Change, text: string, cap: nat)
    requires Agrees(tr, s) && s.log.recCap == 0
    ensures Agrees(tr, Record(s, c, text))
  {
    hide Heads, Rising, Matched, AllWhole;
  }

  lemma MatchedPop(marks: seq<Mark>, heads: seq<Mark>, head: Mark)
    requires Matched(marks, heads + [head])
    ensures marks != [] && BeginsAt(head, marks[|marks| - 1]) && Matched(marks[..|marks| - 1], heads)
  {
    var n := |marks| - 1;
    assert (heads + [head])[|heads|] == head;
    forall j | 0 <= j < |heads|
      ensures BeginsAt(heads[j], marks[..n][n - |heads| + j])
    {
      assert (heads + [head])[j] == heads[j];
    }
  }

  /** Undo takes the newest head away, and gives back what it says. */
  lemma UndoHeads(s: Session)
    requires |s.past| == |s.log.changes| > 0 && Sorted(s.log.changes, s.log.group)
    ensures var (u, cursor) := Undo(s);
            && |u.past| == |u.log.changes| && TypingOf(u.log) == Nowhere
            && Heads(s.log.changes, s.past) ==
               Heads(u.log.changes, u.past) + [Mark(s.log.changes[|s.past| - 1].group, u.text, cursor, true)]
  {
    var cs := s.log.changes;
    NewestHead(cs, s.past);
    var g := NewestGroup(cs, cs[|cs| - 1].group);
    assert cs[g].group == cs[|cs| - 1].group;
    assert g > 0 ==> cs[..g][g - 1].group < cs[g].group <= s.log.group;
    hide Heads, NewestGroup, Sorted;
  }

  /** What undo should give back: the text and the cursor at a mark whose group is whole. */
  ghost predicate GivesBack(s: Session, m: Mark)
    requires |s.past| == |s.log.changes|
  {
    m.whole ==> Undo(s).0.text == m.text && Undo(s).1 == m.cursor
  }

  lemma FollowUndo(tr: Trail, s: Session, cap: nat)
    requires Inv(s, cap) && Agrees(tr, s)
    ensures Agrees(Follow(tr, s, TakeBack, cap), Undo(s).0)
    ensures s.past != [] ==> tr.marks != [] && GivesBack(s, tr.marks[|tr.marks| - 1])
  {
    if s.past != [] {
      UndoHeads(s);
      var (u, cursor) := Undo(s);
      assert u.log.group == s.log.group && u.log.lost == s.log.lost;
      hide Heads, NewestGroup, Inv, Undo, Agrees, TypingOf, Sorted;
      AgreesUndone(tr, s, u, Mark(s.log.changes[|s.past| - 1].group, u.text, cursor, true));
    }
  }

  lemma AgreesUndone(tr: Trail, s: Session, u: Session, head: Mark)
    requires Agrees(tr, s) && |u.past| == |u.log.changes|
    requires u.log.group == s.log.group && u.log.lost == s.log.lost && TypingOf(u.log) == Nowhere
    requires Heads(s.log.changes, s.past) == Heads(u.log.changes, u.past) + [head]
    ensures tr.marks != [] && BeginsAt(head, tr.marks[|tr.marks| - 1])
    ensures Agrees(Trail(tr.marks[..|tr.marks| - 1], tr.group, Nowhere), u)
  {
    hide Heads, Matched, Rising, AllWhole, TypingOf;
    MatchedPop(tr.marks, Heads(u.log.changes, u.past), head);
    RisingPop(tr.marks, tr.group);
  }

  lemma RisingPop(marks: seq<Mark>, group: nat)
    requires Rising(marks, group) && marks != []
    ensures var fewer := marks[..|marks| - 1];
            && Rising(fewer, group) && (fewer != [] ==> fewer[|fewer| - 1].group < group)
            && (AllWhole(marks) ==> AllWhole(fewer))
  {
    var n := |marks| - 1;
    assert n > 0 ==> marks[..n][n - 1].group == marks[n - 1].group < marks[n].group <= group;
  }

  lemma FollowAgrees(tr: Trail, s: Session, op: Op, cap: nat)
    requires Inv(s, cap) && Agrees(tr, s)
    ensures Agrees(Follow(tr, s, op, cap), Step(s, op, cap))
  {
    match op
    case NewGroup => FollowNewGroup(tr, s, cap);
    case TakeBack => FollowUndo(tr, s, cap);
    case StartOver =>
    case _ => FollowEdit(tr, s, op, cap);
  }

  lemma FollowNewGroup(tr: Trail, s: Session, cap: nat)
    requires Inv(s, cap) && Agrees(tr, s)
    ensures Agrees(Trail(tr.marks, tr.group + 1, Nowhere), s.(log := s.log.(group := s.log.group + 1)))
  {
    hide Heads, Matched, Faithful, Used;
  }

  /** After any run from an empty log, log and trail agree. */
  lemma {:induction false} RunAgrees(s: Session, ops: seq<Op>, cap: nat)
    requires Inv(s, cap) && s.log.changes == []
    ensures |s.past| == |s.log.changes| && Agrees(TrailOf(s, ops, cap), Run(s, ops, cap))
  {
    if ops != [] {
      var before := ops[..|ops| - 1];
      RunAgrees(s, before, cap);
      RunKeeps(s, before, cap);
      FollowAgrees(TrailOf(s, before, cap), Run(s, before, cap), ops[|ops| - 1], cap);
    }
  }

  /**
   * After any run from an empty log, an undo that does anything gives back the text, and the
   * cursor, as they stood at the last group mark before the newest change, whenever the log
   * could hold the group. With nothing lost every mark is still there to go back to.
   */
  lemma UndoIsLastMark(s: Session, ops: seq<Op>, cap: nat)
    requires Inv(s, cap) && s.log.changes == []
    ensures |s.past| == |s.log.changes|
    ensures var r, marks := Run(s, ops, cap), TrailOf(s, ops, cap).marks;
            && (r.past == [] ==> Undo(r) == (r, -1))
            && (r.past != [] ==> marks != [] && GivesBack(r, marks[|marks| - 1]))
            && (!r.log.lost ==> AllWhole(marks) && (marks != [] ==> r.past != []))
  {
    RunAgrees(s, ops, cap);
    RunKeeps(s, ops, cap);
    FollowUndo(TrailOf(s, ops, cap), Run(s, ops, cap), cap);
  }

  /**
   * A new group and one edit: undo gives the text at the mark exactly when the log takes
   * records at all and the edit takes out no more than its arena.
   */
  lemma GroupComesBack(s: Session, op: Op, cap: nat)
    requires Inv(s, cap) && |s.past| == |s.log.changes| && Edits(Step(s, NewGroup, cap), op, cap)
    ensures var marked := Step(s, NewGroup, cap);
            var edited := Step(marked, op, cap);
            && |edited.past| == |edited.log.changes|
            && (Undo(edited).0.text == s.text <==> s.log.recCap > 0 && Taken(marked, op, cap) <= s.log.arenaCap)
  {
    var marked := Step(s, NewGroup, cap);
    StepKeeps(s, NewGroup, cap);
    var c := EditRecords(marked, op, cap);
    var edited := Step(marked, op, cap);
    assert !Continues(marked.log, c);
    hide Step, Sorted, Faithful, Used, Taken;
    if s.log.recCap == 0 {
      assert edited.past == [];
    } else if |c.removed| <= s.log.arenaCap {
      NewGroupAlone(marked, c, edited.text);
    }
  }

  lemma NewGroupAlone(s: Session, c: Change, text: string)
    requires |s.past| == |s.log.changes| && s.log.recCap > 0 && !Continues(s.log, c) && |c.removed| <= s.log.arenaCap
    requires forall i :: 0 <= i < |s.log.changes| ==> s.log.changes[i].group != c.group
    ensures Undo(Record(s, c, text)).0.text == s.text
  {
    var d := ToDrop(s.log.changes, s.log.recCap, s.log.arenaCap, |c.removed|);
    var cs, r := s.log.changes[d..], Record(s, c, text);
    assert r.log.changes == cs + [c] && r.past == s.past[d..] + [s.text];
    hide *;
    AloneIsNewest(cs, c);
    UndoNewest(r, |cs|);
  }

  lemma UndoNewest(s: Session, g: nat)
    requires |s.past| == |s.log.changes| == g + 1 && NewestGroup(s.log.changes, s.log.changes[g].group) == g
    ensures Undo(s).0.text == s.past[g]
  {
    hide NewestGroup;
  }

  lemma AloneIsNewest(cs: seq<Change>, c: Change)
    requires forall i :: 0 <= i < |cs| ==> cs[i].group != c.group
    ensures NewestGroup(cs + [c], c.group) == |cs|
  {
    assert (cs + [c])[..|cs|] == cs;
  }
  // ---- Typing -----------------------------------------------------------------------------

  /** A string typed from an offset on. */
  function Typing(off: nat, typed: string, cursor: int): seq<Op> {
    seq(|typed|, i requires 0 <= i < |typed| => InsertChar(off + i, typed[i], cursor))
  }

  /** Characters typed one after the other in one group cost no more records than the first of them. */
  lemma {:induction false} TypingCostsOneRecord(s: Session, off: nat, typed: string, cursor: int, cap: nat)
    requires |s.past| == |s.log.changes| && s.log.recCap > 0 && typed != ""
    requires off <= |s.text| && |s.text| + |typed| < cap
    ensures var first, r := Step(s, InsertChar(off, typed[0], cursor), cap), Run(s, Typing(off, typed, cursor), cap);
            && r.text == s.text[..off] + typed + s.text[off..]
            && |r.log.changes| == |first.log.changes| && r.past == first.past && r.log.lost == first.log.lost
            && r.log.group == s.log.group && r.log.recCap == s.log.recCap && TypingOf(r.log) == Behind(off + |typed|)
    decreases |typed|
  {
    var n := |typed| - 1;
    var ops := Typing(off, typed, cursor);
    assert ops[..n] == Typing(off, typed[..n], cursor);
    var before := Run(s, ops[..n], cap);
    if n == 0 {
      assert ops[..0] == [] && before == s;
      TypedFirst(s, off, typed[0], cursor, cap);
      assert [typed[0]] == typed;
    } else {
      TypingCostsOneRecord(s, off, typed[..n], cursor, cap);
      assert Run(s, ops, cap) == Step(before, ops[n], cap);
      assert typed[..n + 1] == typed;
      hide *;
      TypedNext(before, off + n, typed[n], cursor, cap);
      TypedText(s.text, off, typed, n);
    }
  }

  lemma TypedText(t: string, off: nat, typed: string, n: nat)
    requires off <= |t| && n < |typed|
    ensures var u := t[..off] + typed[..n] + t[off..];
            off + n <= |u| && u[..off + n] + [typed[n]] + u[off + n..] == t[..off] + typed[..n + 1] + t[off..]
  {
    var u := t[..off] + typed[..n] + t[off..];
    assert u[..off + n] == t[..off] + typed[..n] && u[off + n..] == t[off..];
    assert typed[..n + 1] == typed[..n] + [typed[n]];
  }

  lemma TypedFirst(s: Session, off: nat, c: char, cursor: int, cap: nat)
    requires |s.past| == |s.log.changes| && s.log.recCap > 0 && off <= |s.text| && |s.text| + 1 < cap
    ensures var r := Step(s, InsertChar(off, c, cursor), cap);
            && r.text == s.text[..off] + [c] + s.text[off..] && r.log.group == s.log.group && r.log.recCap == s.log.recCap
            && TypingOf(r.log) == Behind(off + 1)
  {
    hide ToDrop;
  }

  lemma TypedNext(s: Session, off: nat, c: char, cursor: int, cap: nat)
    requires |s.past| == |s.log.changes| && s.log.recCap > 0 && off <= |s.text| && |s.text| + 1 < cap && TypingOf(s.log) == Behind(off)
    ensures var r := Step(s, InsertChar(off, c, cursor), cap);
            && r.text == s.text[..off] + [c] + s.text[off..] && r.past == s.past && r.log.lost == s.log.lost
            && |r.log.changes| == |s.log.changes| && r.log.group == s.log.group && r.log.recCap == s.log.recCap
            && TypingOf(r.log) == Behind(off + 1)
  {
    hide ToDrop;
  }
}
