/**
 * The undo log of include/editbuf.h as it is stored: records in one array, removed
 * characters in another, both shifted in place. Every operation is shown to do to these
 * arrays what UndoHistory says it does to the history.
 */
module UndoLog {
  import opened EditBuffer
  import opened UndoHistory

  datatype Rec = Rec(off: nat, inserted: nat, removed: nat, text: nat, cursor: int, group: nat)

  // ---- Records and the characters they point at ----------------------------------------

  /** Records own consecutive stretches of the arena, in order. */
  ghost predicate Packed(rs: seq<Rec>, start: nat, end: nat) {
    if rs == [] then start == end
    else rs[0].text == start && Packed(rs[1..], start + rs[0].removed, end)
  }

  function ToChange(r: Rec, arena: string): Change {
    Change(r.off, r.inserted, if r.text + r.removed <= |arena| then arena[r.text..r.text + r.removed] else "", r.cursor, r.group)
  }

  function Changes(rs: seq<Rec>, arena: string): (cs: seq<Change>)
    ensures |cs| == |rs| && forall k :: 0 <= k < |rs| ==> cs[k] == ToChange(rs[k], arena)
  {
    seq(|rs|, k requires 0 <= k < |rs| => ToChange(rs[k], arena))
  }

  lemma {:induction false} PackedBounds(rs: seq<Rec>, start: nat, end: nat, k: nat)
    requires Packed(rs, start, end) && k < |rs|
    ensures start <= rs[k].text && rs[k].text + rs[k].removed <= end
    ensures Packed(rs[..k], start, rs[k].text)
    ensures Packed(rs[k..], rs[k].text, end)
  {
    if k == 0 {
      PackedOrder(rs[1..], start + rs[0].removed, end);
      assert rs[0..] == rs;
    } else {
      PackedBounds(rs[1..], start + rs[0].removed, end, k - 1);
      assert rs[..k][1..] == rs[1..][..k - 1];
      assert rs[1..][k - 1..] == rs[k..];
    }
  }

  lemma PackedWithin(rs: seq<Rec>, start: nat, end: nat)
    requires Packed(rs, start, end)
    ensures forall k :: 0 <= k < |rs| ==> start <= rs[k].text && rs[k].text + rs[k].removed <= end
  {
    hide Packed;
    forall k | 0 <= k < |rs|
      ensures start <= rs[k].text && rs[k].text + rs[k].removed <= end
    {
      PackedBounds(rs, start, end, k);
    }
  }

  lemma {:induction false} PackedOrder(rs: seq<Rec>, start: nat, end: nat)
    requires Packed(rs, start, end)
    ensures start <= end
  {
    if rs != [] {
      PackedOrder(rs[1..], start + rs[0].removed, end);
    }
  }

  lemma {:induction false} PackedAppend(rs: seq<Rec>, start: nat, end: nat, r: Rec)
    requires Packed(rs, start, end) && r.text == end
    ensures Packed(rs + [r], start, end + r.removed)
  {
    if rs == [] {
      assert rs + [r] == [r] && [r][1..] == [];
    } else {
      PackedAppend(rs[1..], start + rs[0].removed, end, r);
      assert (rs + [r])[1..] == rs[1..] + [r];
    }
  }

  /** Records moved down by as much as the arena was. */
  function Shift(rs: seq<Rec>, bytes: nat): seq<Rec> {
    seq(|rs|, k requires 0 <= k < |rs| => rs[k].(text := if rs[k].text >= bytes then rs[k].text - bytes else 0))
  }

  lemma {:induction false} PackedShift(rs: seq<Rec>, start: nat, end: nat, bytes: nat)
    requires Packed(rs, start, end) && bytes <= start
    ensures bytes <= end && Packed(Shift(rs, bytes), start - bytes, end - bytes)
  {
    if rs != [] {
      PackedShift(rs[1..], start + rs[0].removed, end, bytes);
      assert Shift(rs, bytes)[1..] == Shift(rs[1..], bytes);
    }
  }

  /** The characters the log uses are those its changes removed. */
  lemma {:induction false} PackedUsed(rs: seq<Rec>, start: nat, end: nat, arena: string)
    requires Packed(rs, start, end) && end <= |arena|
    ensures Used(Changes(rs, arena)) == end - start
  {
    if rs != [] {
      PackedOrder(rs[1..], start + rs[0].removed, end);
      PackedUsed(rs[1..], start + rs[0].removed, end, arena);
      assert Changes(rs, arena)[1..] == Changes(rs[1..], arena);
    }
  }

  /** Dropping a front stretch of both arrays drops the same changes from the history. */
  lemma ShiftedChanges(rs: seq<Rec>, arena: string, bytes: nat)
    requires bytes <= |arena| && Packed(rs, bytes, |arena|)
    ensures Changes(Shift(rs, bytes), arena[bytes..]) == Changes(rs, arena)
  {
    hide Packed;
    PackedWithin(rs, bytes, |arena|);
    forall k | 0 <= k < |rs|
      ensures ToChange(Shift(rs, bytes)[k], arena[bytes..]) == ToChange(rs[k], arena)
    {
      var r := rs[k];
      assert arena[bytes..][r.text - bytes..r.text - bytes + r.removed] == arena[r.text..r.text + r.removed];
    }
  }

  lemma ChangesPrefix(rs: seq<Rec>, arena: string, n: nat)
    requires n <= |rs|
    ensures Changes(rs, arena)[..n] == Changes(rs[..n], arena)
    ensures Changes(rs, arena)[n..] == Changes(rs[n..], arena)
  {
  }

  /** Characters past the end of the used arena do not matter. */
  lemma ChangesLocal(rs: seq<Rec>, start: nat, end: nat, arena: string)
    requires Packed(rs, start, end) && end <= |arena|
    ensures Changes(rs, arena) == Changes(rs, arena[..end])
  {
    hide Packed;
    PackedWithin(rs, start, end);
    forall k | 0 <= k < |rs|
      ensures ToChange(rs[k], arena) == ToChange(rs[k], arena[..end])
    {
      assert arena[..end][rs[k].text..rs[k].text + rs[k].removed] == arena[rs[k].text..rs[k].text + rs[k].removed];
    }
  }

  lemma LastChange(rs: seq<Rec>, end: nat, arena: string)
    requires Packed(rs, 0, end) && end <= |arena| && rs != []
    ensures var r, c := rs[|rs| - 1], Changes(rs, arena)[|rs| - 1];
            c.off == r.off && c.inserted == r.inserted && |c.removed| == r.removed && c.group == r.group
  {
    PackedBounds(rs, 0, end, |rs| - 1);
  }

  lemma GrowRecord(rs: seq<Rec>, arena: string, n: nat)
    requires rs != []
    ensures var k := |rs| - 1;
            Changes(rs[k := rs[k].(inserted := rs[k].inserted + n)], arena) == Grow(Changes(rs, arena), n)
  {
  }

  lemma {:induction false} PackedGrow(rs: seq<Rec>, start: nat, end: nat, n: nat)
    requires Packed(rs, start, end) && rs != []
    ensures var k := |rs| - 1;
            Packed(rs[k := rs[k].(inserted := rs[k].inserted + n)], start, end)
  {
    var k := |rs| - 1;
    if k > 0 {
      PackedGrow(rs[1..], start + rs[0].removed, end, n);
      assert rs[k := rs[k].(inserted := rs[k].inserted + n)][1..] ==
             rs[1..][k - 1 := rs[1..][k - 1].(inserted := rs[1..][k - 1].inserted + n)];
    }
  }

  /** How far the oldest group reaches, counted over records. */
  lemma {:induction false} RunOfRecords(rs: seq<Rec>, arena: string, group: nat, n: nat)
    requires n <= |rs| && (forall k :: 0 <= k < n ==> rs[k].group == group)
    requires n == |rs| || rs[n].group != group
    ensures OldestRun(Changes(rs, arena), group) == n
  {
    if n > 0 {
      assert Changes(rs, arena)[1..] == Changes(rs[1..], arena);
      RunOfRecords(rs[1..], arena, group, n - 1);
    }
  }

  function WithoutOldestGroup(cs: seq<Change>): seq<Change> {
    if cs == [] then cs else cs[OldestRun(cs, cs[0].group)..]
  }

  /** Dropping the oldest group from both arrays is dropping it from the history. */
  lemma WithoutOldest(rs: seq<Rec>, chars: string, n: nat, bytes: nat)
    requires 0 < |rs| && n <= |rs| && bytes <= |chars| && Packed(rs[n..], bytes, |chars|)
    requires (forall k :: 0 <= k < n ==> rs[k].group == rs[0].group) && (n == |rs| || rs[n].group != rs[0].group)
    ensures Packed(Shift(rs[n..], bytes), 0, |chars| - bytes)
    ensures Changes(Shift(rs[n..], bytes), chars[bytes..]) == WithoutOldestGroup(Changes(rs, chars))
  {
    hide Packed, OldestRun, Shift, ToChange;
    RunOfRecords(rs, chars, rs[0].group, n);
    PackedShift(rs[n..], bytes, |chars|, bytes);
    assert Changes(rs, chars)[0].group == rs[0].group by {
      FirstGroup(rs, chars);
    }
    hide Changes;
    ShiftedChanges(rs[n..], chars, bytes);
    ChangesPrefix(rs, chars, n);
  }

  lemma FirstGroup(rs: seq<Rec>, arena: string)
    requires rs != []
    ensures Changes(rs, arena)[0].group == rs[0].group
  {
  }

  lemma TextsAtLeast(rs: seq<Rec>, n: nat, bytes: nat, end: nat)
    requires n <= |rs| && Packed(rs[n..], bytes, end)
    ensures forall k :: n <= k < |rs| ==> rs[k].text >= bytes
  {
    hide Packed;
    forall k | n <= k < |rs|
      ensures rs[k].text >= bytes
    {
      PackedBounds(rs[n..], bytes, end, k - n);
    }
  }

  // ---- The log -------------------------------------------------------------------------

  class Journal {
    const recs: array<Rec>
    var nrecs: nat
    const arena: array<char>
    var used: nat
    var group: nat
    var lost: bool

    ghost predicate Valid()
      reads this, recs, arena
    {
      nrecs <= recs.Length && used <= arena.Length && Packed(recs[..nrecs], 0, used)
    }

    /** The history this log stores. */
    ghost function View(): Log
      requires Valid()
      reads this, recs, arena
    {
      Log(Changes(recs[..nrecs], arena[..used]), recs.Length, arena.Length, group, lost)
    }

    constructor (recs: array<Rec>, arena: array<char>)
      ensures Valid() && this.recs == recs && this.arena == arena
      ensures View() == Log([], recs.Length, arena.Length, 0, false)
    {
      this.recs, this.arena := recs, arena;
      nrecs, used, group, lost := 0, 0, 0, false;
    }

    method Reset()
      requires Valid()
      modifies this
      ensures Valid() && View() == Log([], recs.Length, arena.Length, 0, false)
    {
      nrecs, used, group, lost := 0, 0, 0, false;
    }

    method NewGroup()
      requires Valid()
      modifies this`group
      ensures Valid() && View() == old(View()).(group := old(group) + 1)
    {
      group := group + 1;
    }

    /** How many records the oldest group has, and how many characters they hold. */
    method OldestExtent() returns (n: nat, bytes: nat)
      requires Valid() && nrecs > 0
      ensures n <= nrecs && (forall k :: 0 <= k < n ==> recs[k].group == recs[0].group)
      ensures n == nrecs || recs[n].group != recs[0].group
      ensures bytes <= used && Packed(recs[..nrecs][n..], bytes, used)
    {
      var g := recs[0].group;
      n, bytes := 0, 0;
      while n < nrecs && recs[n].group == g
        invariant n <= nrecs
        invariant forall k :: 0 <= k < n ==> recs[k].group == g
        invariant bytes <= used && Packed(recs[..nrecs][n..], bytes, used)
      {
        ghost var rest := recs[..nrecs][n..];
        PackedOrder(rest[1..], bytes + rest[0].removed, used);
        assert rest[1..] == recs[..nrecs][n + 1..];
        bytes := bytes + recs[n].removed;
        n := n + 1;
      }
    }

    /** Drops the oldest group: a run at the front of both arrays, everything after it sliding down. */
    method DropOldest()
      requires Valid()
      modifies this`nrecs, this`used, this`lost, recs, arena
      ensures Valid()
      ensures View() == if old(nrecs) == 0 then old(View())
                        else old(View()).(changes := WithoutOldestGroup(old(View()).changes), lost := true)
    {
      hide Packed, ToChange, Shift, Changes, WithoutOldestGroup;
      if nrecs == 0 {
        return;
      }
      ghost var rs, chars := recs[..nrecs], arena[..used];
      var n, bytes := OldestExtent();
      WithoutOldest(rs, chars, n, bytes);
      SlideArena(bytes);
      SlideRecords(n, bytes, |chars|);
      lost := true;
    }

    /** Moves the arena down over its first `bytes` characters. */
    method SlideArena(bytes: nat)
      requires bytes <= used <= arena.Length
      modifies this`used, arena
      ensures used == old(used) - bytes && arena[..used] == old(arena[..used])[bytes..]
    {
      ghost var chars := arena[..used];
      var i := bytes;
      while i < used
        invariant bytes <= i <= used == |chars|
        invariant forall k {:trigger arena[k]} :: 0 <= k < i - bytes ==> arena[k] == chars[k + bytes]
        invariant forall k {:trigger arena[k]} :: i - bytes <= k < used ==> arena[k] == chars[k]
      {
        arena[i - bytes] := arena[i];
        i := i + 1;
      }
      used := used - bytes;
    }

    /** Moves the records down over the first `n`, re-pointing them. */
    method SlideRecords(n: nat, bytes: nat, ghost end: nat)
      requires n <= nrecs <= recs.Length
      requires Packed(recs[..nrecs][n..], bytes, end)
      modifies this`nrecs, recs
      ensures nrecs == old(nrecs) - n
      ensures recs[..nrecs] == Shift(old(recs[..nrecs])[n..], bytes)
    {
      ghost var rs := recs[..nrecs];
      TextsAtLeast(rs, n, bytes, end);
      hide Packed;
      var i := n;
      while i < nrecs
        invariant n <= i <= nrecs == |rs|
        invariant forall k :: n <= k < |rs| ==> rs[k].text >= bytes
        invariant forall k {:trigger recs[k]} :: 0 <= k < i - n ==> recs[k] == rs[k + n].(text := rs[k + n].text - bytes)
        invariant forall k {:trigger recs[k]} :: i - n <= k < nrecs ==> recs[k] == rs[k]
      {
        recs[i - n] := recs[i].(text := recs[i].text - bytes);
        i := i + 1;
      }
      nrecs := nrecs - n;
    }

    /** Makes room by dropping whole groups, oldest first; fails only when nothing could ever fit. */
    method Room(need: nat) returns (ok: bool)
      requires Valid()
      modifies this`nrecs, this`used, this`lost, recs, arena
      ensures Valid()
      ensures ok <==> recs.Length > 0 && need <= arena.Length
      ensures !ok ==> View() == old(View())
      ensures ok ==> View() == MakeRoom(old(View()), need)
      ensures ok ==> nrecs < recs.Length && used + need <= arena.Length
    {
      if recs.Length <= 0 || need > arena.Length {
        return false;
      }
      ghost var start := View();
      PackedUsed(recs[..nrecs], 0, used, arena[..used]);
      while nrecs >= recs.Length || used + need > arena.Length
        invariant Valid() && group == start.group
        invariant Used(View().changes) == used
        invariant MakeRoom(View(), need) == MakeRoom(start, need)
        decreases nrecs
      {
        var before := nrecs;
        ghost var l := View();
        NoRoomMeansChanges(l.changes, recs.Length, arena.Length, need);
        RoomStep(l, need);
        DropOldest();
        PackedUsed(recs[..nrecs], 0, used, arena[..used]);
      }
      assert View().changes[0..] == View().changes;
      ok := true;
    }

    /** Records a change, growing the last record when it continues it. */
    method PushRecord(off: nat, inserted: nat, removed: string, cursor: int)
      requires Valid()
      modifies this, recs, arena
      ensures Valid()
      ensures View() == Push(old(View()), Change(off, inserted, removed, cursor, old(group)))
    {
      hide Packed, Changes, ToChange, ToDrop, Grow;
      if recs.Length <= 0 {
        return;
      }
      ghost var l, c := View(), Change(off, inserted, removed, cursor, group);
      if inserted > 0 && |removed| == 0 && nrecs > 0 {
        var r := recs[nrecs - 1];
        LastChange(recs[..nrecs], used, arena[..used]);
        if r.group == group && r.removed == 0 && off == r.off + r.inserted {
          ghost var rs := recs[..nrecs];
          GrowRecord(rs, arena[..used], inserted);
          PackedGrow(rs, 0, used, inserted);
          recs[nrecs - 1] := r.(inserted := r.inserted + inserted);
          assert recs[..nrecs] == rs[nrecs - 1 := r.(inserted := r.inserted + inserted)];
          return;
        }
      }
      assert !Continues(l, c);
      var ok := Room(|removed|);
      if !ok {
        Reset();
        lost := true;
        return;
      }
      AppendRecord(Rec(off, inserted, |removed|, used, cursor, group), removed);
    }

    /** Writes characters at the end of the arena. */
    method AppendText(removed: string)
      requires used + |removed| <= arena.Length
      modifies this`used, arena
      ensures used == old(used) + |removed| && arena[..used] == old(arena[..used]) + removed
    {
      ghost var chars := arena[..used];
      for i := 0 to |removed|
        invariant used == |chars| && arena[..used + i] == chars + removed[..i]
      {
        arena[used + i] := removed[i];
        assert arena[..used + i + 1] == arena[..used + i] + [removed[i]];
      }
      used := used + |removed|;
    }

    /** Writes a record and its characters at the ends of the two arrays. */
    method AppendRecord(r: Rec, removed: string)
      requires Valid() && nrecs < recs.Length && used + |removed| <= arena.Length
      requires r.text == used && r.removed == |removed|
      modifies this`nrecs, this`used, recs, arena
      ensures Valid()
      ensures View() == old(View()).(changes := old(View()).changes + [Change(r.off, r.inserted, removed, r.cursor, r.group)])
    {
      ghost var rs, chars := recs[..nrecs], arena[..used];
      PackedAppend(rs, 0, used, r);
      recs[nrecs] := r;
      nrecs := nrecs + 1;
      assert recs[..nrecs] == rs + [r];
      AppendText(removed);
      AppendedChange(rs, chars, r, removed);
      hide Packed, ToChange;
    }

    // ---- Editing through the log -------------------------------------------------------

    /** This log and a buffer hold the session's history and text. */
    ghost predicate Holds(b: EditBuf, s: Session)
      reads this, recs, arena, b, b.data
    {
      && Valid() && b.Valid() && arena != b.data
      && b.Text() == s.text && View() == s.log && |s.past| == |s.log.changes|
    }

    method InsertChar(b: EditBuf, off: int, c: char, cursor: int, ghost s: Session) returns (ok: bool)
      requires Holds(b, s)
      modifies this, recs, arena, b`len, b.data
      ensures ok <==> 0 <= off <= |s.text| && |s.text| + 1 < b.Cap()
      ensures Holds(b, Step(s, Op.InsertChar(off, c, cursor), b.Cap()))
    {
      hide Packed, Push, ToDrop, Changes;
      StepShape(s, Op.InsertChar(off, c, cursor), b.Cap());
      ok := b.Insert(off, c);
      if ok {
        PushRecord(off, 1, "", cursor);
      }
    }

    method DeleteChar(b: EditBuf, off: int, cursor: int, ghost s: Session) returns (ok: bool)
      requires Holds(b, s)
      modifies this, recs, arena, b`len, b.data
      ensures ok <==> 0 <= off < |s.text|
      ensures Holds(b, Step(s, Op.DeleteChar(off, cursor), b.Cap()))
    {
      hide Packed, Push, ToDrop, Changes;
      StepShape(s, Op.DeleteChar(off, cursor), b.Cap());
      if off < 0 || off >= b.len {
        return false;
      }
      PushRecord(off, 0, [b.data[off]], cursor);
      ok := b.Delete(off);
    }

    method DeleteLine(b: EditBuf, off: int, cursor: int, ghost s: Session) returns (landing: int)
      requires Holds(b, s)
      modifies this, recs, arena, b`len, b.data
      ensures Holds(b, Step(s, Op.DeleteLine(off, cursor), b.Cap()))
      ensures var ls := Lines(s.text);
              var i := LineIndex(ls, Clamp(s.text, off));
              landing == Start(WithoutLine(ls, i), LandingLine(ls, i))
    {
      hide Packed, Push, Changes, Lines, Join, Start, LineIndex, WithoutLine, LandingLine, SpanFrom, SpanTo, Step;
      var from, to := b.LineSpan(off);
      StepDeleteLine(s, off, cursor, b.Cap(), from, to);
      if to > from {
        assert b.data[from..to] == s.text[from..to];
        PushRecord(from, 0, b.data[from..to], cursor);
      }
      landing := b.DeleteLine(off);
      JoinOfLines(b.Text());
    }

    /** The newest record, gone: its characters are the newest in the arena, so the arena ends where they started. */
    method PopRecord()
      requires Valid() && nrecs > 0
      modifies this`nrecs, this`used
      ensures Valid() && nrecs == old(nrecs) - 1
      ensures View() == old(View()).(changes := old(View()).changes[..nrecs])
    {
      hide Packed, Changes;
      ghost var rs, chars := recs[..nrecs], arena[..used];
      PoppedChanges(rs, chars);
      nrecs := nrecs - 1;
      used := recs[nrecs].text;
      assert recs[..nrecs] == rs[..|rs| - 1];
      assert arena[..used] == chars[..used];
    }

    /** Takes back the newest record: what it inserted goes, what it removed returns, and its room is given back. */
    method TakeBackOne(b: EditBuf, ghost s: Session) returns (cursor: int)
      requires Holds(b, s) && Inv(s, b.Cap()) && nrecs > 0
      modifies this`nrecs, this`used, b`len, b.data
      ensures nrecs == old(nrecs) - 1
      ensures Holds(b, OneBack(s)) && cursor == s.log.changes[|s.past| - 1].cursor
    {
      hide Packed, Changes, Inv, OneBack;
      var r := recs[nrecs - 1];
      InvShape(s, b.Cap());
      OneBackText(s, b.Cap());
      OneBackLog(s);
      NewestOnArrays(r, s.log.changes[nrecs - 1]);
      Revert(b, r, arena);
      PopRecord();
      cursor := r.cursor;
    }

    /** The newest record and its characters are the newest change. */
    lemma NewestOnArrays(r: Rec, c: Change)
      requires Valid() && nrecs > 0 && r == recs[nrecs - 1] && c == View().changes[nrecs - 1]
      ensures r.text + r.removed <= used
      ensures c == Change(r.off, r.inserted, arena[r.text..r.text + r.removed], r.cursor, r.group)
    {
      PoppedChanges(recs[..nrecs], arena[..used]);
      hide Packed, Changes;
      assert arena[..used][r.text..r.text + r.removed] == arena[r.text..r.text + r.removed];
    }

    /** Takes back the newest group, newest record first. */
    method TakeBack(b: EditBuf, ghost s: Session) returns (cursor: int)
      requires Holds(b, s) && Inv(s, b.Cap())
      modifies this`nrecs, this`used, b`len, b.data
      ensures Holds(b, Undo(s).0) && cursor == Undo(s).1
    {
      hide Packed, Changes, Inv, OneBack, Undo, IsBack;
      cursor := -1;
      NotYetBack(s, 0);
      if nrecs == 0 {
        return;
      }
      var g := recs[nrecs - 1].group;
      NotYetBack(s, g);
      ghost var cur := s;
      while nrecs > 0 && recs[nrecs - 1].group == g
        invariant Holds(b, cur) && Inv(cur, b.Cap())
        invariant IsBack(s, cur, g) && |cur.past| <= |s.past|
        invariant cursor == if |cur.past| == |s.past| then -1 else s.log.changes[|cur.past|].cursor
        decreases nrecs
      {
        OneBackKeeps(cur, b.Cap());
        OneBackIsBack(s, cur, g);
        cursor := TakeBackOne(b, cur);
        cur := OneBack(cur);
      }
      BackIsUndo(s, cur, g);
    }
  }

  /** A record's change taken back in the buffer. */
  method Revert(b: EditBuf, r: Rec, arena: array<char>)
    requires b.Valid() && r.off + r.inserted <= b.len && r.text + r.removed <= arena.Length && arena != b.data
    requires b.len - r.inserted + r.removed < b.Cap()
    modifies b`len, b.data
    ensures b.Valid()
    ensures b.Text() == old(b.Text())[..r.off] + arena[r.text..r.text + r.removed] + old(b.Text())[r.off + r.inserted..]
  {
    ghost var t := b.Text();
    RemoveRun(b, r.off, r.inserted);
    assert b.Text()[..r.off] == t[..r.off] && b.Text()[r.off..] == t[r.off + r.inserted..];
    ReturnRun(b, r.off, arena, r.text, r.removed);
  }

  /** Removes a run of characters one at a time. */
  method RemoveRun(b: EditBuf, off: nat, n: nat)
    requires b.Valid() && off + n <= b.len
    modifies b`len, b.data
    ensures b.Valid() && b.Text() == old(b.Text())[..off] + old(b.Text())[off + n..]
  {
    ghost var t := b.Text();
    for i := 0 to n
      invariant b.Valid() && b.Text() == t[..off] + t[off + i..]
    {
      CutOneMore(t, off, i);
      var _ := b.Delete(off);
    }
  }

  lemma CutOneMore(t: string, off: nat, i: nat)
    requires off + i < |t|
    ensures var u := t[..off] + t[off + i..];
            off < |u| && u[..off] + u[off + 1..] == t[..off] + t[off + i + 1..]
  {
  }

  /** Puts a run of saved characters back one at a time. */
  method ReturnRun(b: EditBuf, off: nat, arena: array<char>, from: nat, n: nat)
    requires b.Valid() && off <= b.len && from + n <= arena.Length && arena != b.data
    requires b.len + n < b.Cap()
    modifies b`len, b.data
    ensures b.Valid() && b.Text() == old(b.Text())[..off] + arena[from..from + n] + old(b.Text())[off..]
  {
    ghost var t := b.Text();
    for i := 0 to n
      invariant b.Valid() && b.Text() == t[..off] + arena[from..from + i] + t[off..]
    {
      PutOneMore(t, off, arena[from..from + i], arena[from + i]);
      assert arena[from..from + i] + [arena[from + i]] == arena[from..from + i + 1];
      var _ := b.Insert(off + i, arena[from + i]);
    }
  }

  lemma PutOneMore(t: string, off: nat, run: string, c: char)
    requires off <= |t|
    ensures var u := t[..off] + run + t[off..];
            u[..off + |run|] + [c] + u[off + |run|..] == t[..off] + (run + [c]) + t[off..]
  {
  }

  /** A session some changes of one group earlier. */
  ghost predicate IsBack(s: Session, cur: Session, group: nat)
    requires |s.past| == |s.log.changes|
  {
    var k := |cur.past|;
    && k <= |s.past|
    && cur == (if k == |s.past| then s else Session(s.past[k], s.log.(changes := s.log.changes[..k]), s.past[..k], s.base))
    && forall i :: k <= i < |s.past| ==> s.log.changes[i].group == group
  }

  lemma StepDeleteLine(s: Session, off: int, cursor: int, cap: nat, from: nat, to: nat)
    requires |s.past| == |s.log.changes| && from <= to <= |s.text|
    requires var i := LineIndex(Lines(s.text), Clamp(s.text, off));
             && from == SpanFrom(s.text, Start(Lines(s.text), i), Start(Lines(s.text), i) + |Lines(s.text)[i]|)
             && to == SpanTo(s.text, Start(Lines(s.text), i) + |Lines(s.text)[i]|)
    ensures var r := Step(s, Op.DeleteLine(off, cursor), cap);
            && |r.past| == |r.log.changes|
            && r.text == s.text[..from] + s.text[to..]
            && r.log == if to > from then Push(s.log, Change(from, 0, s.text[from..to], cursor, s.log.group)) else s.log
  {
    hide Span, Push, ToDrop;
    StepShape(s, Op.DeleteLine(off, cursor), cap);
    SpanIs(s.text, off, from, to);
    assert s.text[..from] + s.text[from..] == s.text;
  }

  lemma SpanIs(t: string, off: int, from: nat, to: nat)
    requires var i := LineIndex(Lines(t), Clamp(t, off));
             && from == SpanFrom(t, Start(Lines(t), i), Start(Lines(t), i) + |Lines(t)[i]|)
             && to == SpanTo(t, Start(Lines(t), i) + |Lines(t)[i]|)
    ensures Span(t, off) == (from, to)
  {
    hide Lines, Start, LineIndex, SpanFrom, SpanTo, Clamp;
  }

  lemma NotYetBack(s: Session, group: nat)
    requires |s.past| == |s.log.changes|
    ensures IsBack(s, s, group)
    ensures s.past == [] ==> Undo(s) == (s, -1)
  {
  }

  lemma OneBackIsBack(s: Session, cur: Session, group: nat)
    requires |s.past| == |s.log.changes| && |cur.past| == |cur.log.changes| > 0
    requires IsBack(s, cur, group) && cur.log.changes[|cur.past| - 1].group == group
    ensures IsBack(s, OneBack(cur), group) && |OneBack(cur).past| == |cur.past| - 1 < |s.past|
    ensures cur.log.changes[|cur.past| - 1] == s.log.changes[|cur.past| - 1]
  {
    var k := |cur.past| - 1;
    assert cur.past[..k] == s.past[..k] && cur.log.changes[..k] == s.log.changes[..k];
  }

  lemma BackIsUndo(s: Session, cur: Session, group: nat)
    requires |s.past| == |s.log.changes| > 0 && |cur.past| == |cur.log.changes|
    requires group == s.log.changes[|s.past| - 1].group && IsBack(s, cur, group)
    requires cur.past == [] || cur.log.changes[|cur.past| - 1].group != group
    ensures |cur.past| < |s.past| && Undo(s) == (cur, s.log.changes[|cur.past|].cursor)
  {
    var k, g := |cur.past|, NewestGroup(s.log.changes, group);
    assert k > 0 ==> s.log.changes[k - 1].group != group;
    assert k == g;
  }

  /** The newest record gone from both arrays is the newest change gone from the history. */
  lemma PoppedChanges(rs: seq<Rec>, chars: string)
    requires rs != [] && Packed(rs, 0, |chars|)
    ensures var n, r := |rs| - 1, rs[|rs| - 1];
            && r.text + r.removed <= |chars| && Packed(rs[..n], 0, r.text)
            && Changes(rs[..n], chars[..r.text]) == Changes(rs, chars)[..n]
            && Changes(rs, chars)[n] == Change(r.off, r.inserted, chars[r.text..r.text + r.removed], r.cursor, r.group)
  {
    var n, r := |rs| - 1, rs[|rs| - 1];
    PackedBounds(rs, 0, |chars|, n);
    ChangesPrefix(rs, chars, n);
    ChangesLocal(rs[..n], 0, r.text, chars);
  }

  lemma OneBackLog(s: Session)
    requires |s.past| == |s.log.changes| > 0
    ensures OneBack(s).log == s.log.(changes := s.log.changes[..|s.past| - 1])
    ensures |OneBack(s).past| == |OneBack(s).log.changes|
  {
  }

  lemma OneBackText(s: Session, cap: nat)
    requires Inv(s, cap) && s.past != []
    ensures |s.past| == |s.log.changes|
    ensures var c, t := s.log.changes[|s.past| - 1], s.text;
            && c.off + c.inserted <= |t| && |t| - c.inserted + |c.removed| < cap
            && OneBack(s).text == t[..c.off] + c.removed + t[c.off + c.inserted..]
  {
    LastExplains(s, cap);
    OneBackKeeps(s, cap);
    InvShape(OneBack(s), cap);
    hide Inv;
  }

  lemma AppendedChange(rs: seq<Rec>, chars: string, r: Rec, removed: string)
    requires Packed(rs, 0, |chars|) && r.text == |chars| && r.removed == |removed|
    ensures Changes(rs + [r], chars + removed) ==
            Changes(rs, chars) + [Change(r.off, r.inserted, removed, r.cursor, r.group)]
  {
    hide Packed;
    var arena := chars + removed;
    ChangesLocal(rs, 0, |chars|, arena);
    assert arena[..|chars|] == chars;
    assert arena[r.text..r.text + r.removed] == removed;
  }

  lemma RoomStep(l: Log, need: nat)
    requires l.recCap > 0 && need <= l.arenaCap && l.changes != []
    requires !HasRoom(l.changes, l.recCap, l.arenaCap, need)
    ensures |WithoutOldestGroup(l.changes)| < |l.changes|
    ensures MakeRoom(l.(changes := WithoutOldestGroup(l.changes), lost := true), need) == MakeRoom(l, need)
  {
    var n := OldestRun(l.changes, l.changes[0].group);
    OldestRunSpec(l.changes, l.changes[0].group);
    var d := ToDrop(l.changes[n..], l.recCap, l.arenaCap, need);
    assert l.changes[n..][d..] == l.changes[n + d..];
  }
}
