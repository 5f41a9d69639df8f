/**
 * A mounted volume, over any run of requests, is a table of names: what a lookup finds under a
 * name is what the answered requests, replayed on the names alone, leave there.
 */
module FileHistory {
  import opened Common
  import opened Fat
  import opened Directory
  import opened FileData
  import opened FileSystem

  /** What a name leads to: nothing, or an entry with its contents, which a directory has none of. */
  type Finding = Option<Option<seq<Byte>>>

  ghost function Found(s: Snapshot, parent: nat, name: string): Finding {
    var i := SlotOf(s.dir, parent, name);
    if i < 0 then None else Some(At(s, i))
  }

  ghost function At(s: Snapshot, i: nat): Option<seq<Byte>> { if i in s.chains then Get(s.bytes, i) else None }

  /** The request is about the name. */
  predicate Names(q: Request, parent: nat, name: string) {
    q.parent == parent && (q.name == name || (q.Move? && q.to == name))
  }

  /** An update may use the name for its temporary file. */
  predicate Temporary(q: Request, parent: nat, name: string) { q.Update? && q.parent == parent && name == TmpName(q.name) }

  // ---- One request -----------------------------------------------------------------------

  /** What a name leads to after a request that was answered Ok and is about it. */
  ghost function Answered(q: Request, s: Snapshot, name: string): Finding {
    match q
    case Create(_, payload, _, _) => Some(Some(payload.Contents()))
    case Remove(_, _) => None
    case Move(from, to, parent, _) => if name == to then Found(s, parent, from) else None
    case MakeDir(_, _, _) => Some(None)
    case Update(_, payload, _, _) => Some(Some(payload.Contents()))
  }

  lemma Slots(dir: Entries, parent: nat, name: string)
    ensures Resolves(dir, parent, name, SlotOf(dir, parent, name))
  {
  }

  /** The name is found in the same slot, and there the same. */
  lemma FoundInSlot(s: Snapshot, s': Snapshot, parent: nat, name: string, i: int)
    requires UniqueNames(s.dir) && UniqueNames(s'.dir)
    requires Resolves(s.dir, parent, name, i) && Resolves(s'.dir, parent, name, i) && (i >= 0 ==> At(s', i) == At(s, i))
    ensures Found(s', parent, name) == Found(s, parent, name)
  {
    hide UniqueNames, Resolves, SlotOf, At;
    SlotIs(s.dir, parent, name, i);
    SlotIs(s'.dir, parent, name, i);
  }

  /** A slot that neither had the name nor has it now. */
  lemma OtherSlot(dir: Entries, i: nat, e: Entry, parent: nat, name: string, k: int)
    requires i < |dir| && !Matches(dir[i], parent, name) && !Matches(e, parent, name) && Resolves(dir, parent, name, k)
    ensures k != i && Resolves(dir[i := e], parent, name, k)
  {
  }

  /** A slot that takes a free name. */
  lemma NewSlot(dir: Entries, i: nat, e: Entry, parent: nat, name: string)
    requires i < |dir| && Matches(e, parent, name)
    ensures Resolves(dir[i := e], parent, name, i)
  {
  }

  /** A slot that gives a name up. */
  lemma OldSlot(dir: Entries, i: nat, e: Entry, parent: nat, name: string)
    requires UniqueNames(dir) && i < |dir| && Matches(dir[i], parent, name) && !Matches(e, parent, name)
    ensures Resolves(dir[i := e], parent, name, -1)
  {
  }

  lemma CreatesOnNames(a: Moment, b: Moment, r: Status, name: string, payload: Payload, parent: nat, who: Caller, p: nat, n: string)
    requires Creates(a, b, r, name, payload, parent, who) && UniqueNames(a.files.dir) && UniqueNames(b.files.dir)
    ensures Found(b.files, p, n) ==
            if r == Ok && (p, n) == (parent, name) then Some(Some(payload.Contents())) else Found(a.files, p, n)
  {
    hide UniqueNames, Resolves, SlotOf, CreateOutcome, NewChain;
    if r == Ok {
      var i: nat :| Made(a, b, i, name, payload.data, parent, who);
      var e := b.files.dir[i];
      if (p, n) == (parent, name) {
        NewSlot(a.files.dir, i, e, parent, name);
        SlotIs(b.files.dir, p, n, i);
      } else {
        Slots(a.files.dir, p, n);
        OtherSlot(a.files.dir, i, e, p, n, SlotOf(a.files.dir, p, n));
        FoundInSlot(a.files, b.files, p, n, SlotOf(a.files.dir, p, n));
      }
    }
  }

  lemma RemovesOnNames(a: Moment, b: Moment, r: Status, name: string, parent: nat, p: nat, n: string)
    requires Removes(a, b, r, name, parent) && UniqueNames(a.files.dir) && UniqueNames(b.files.dir)
    ensures Found(b.files, p, n) == if r == Ok && (p, n) == (parent, name) then None else Found(a.files, p, n)
  {
    hide UniqueNames, SlotOf, DeleteOutcome, FreedBy;
    if r == Ok {
      var i := SlotOf(a.files.dir, parent, name);
      Slots(a.files.dir, parent, name);
      var e := Cleared(a.files.dir[i]);
      if (p, n) == (parent, name) {
        OldSlot(a.files.dir, i, e, p, n);
        SlotIs(b.files.dir, p, n, -1);
      } else {
        Slots(a.files.dir, p, n);
        OtherSlot(a.files.dir, i, e, p, n, SlotOf(a.files.dir, p, n));
        FoundInSlot(a.files, b.files, p, n, SlotOf(a.files.dir, p, n));
      }
    }
  }

  lemma RenamesOnNames(a: Moment, b: Moment, r: Status, name: string, to: string, parent: nat, now: U32, p: nat, n: string)
    requires Renames(a, b, r, name, to, parent, now) && UniqueNames(a.files.dir) && UniqueNames(b.files.dir)
    ensures Found(b.files, p, n) ==
            if r == Ok && (p, n) == (parent, to) then Found(a.files, parent, name)
            else if r == Ok && (p, n) == (parent, name) then None
            else Found(a.files, p, n)
  {
    hide UniqueNames, SlotOf;
    if r == Ok {
      var i := SlotOf(a.files.dir, parent, name);
      Slots(a.files.dir, parent, name);
      var e := b.files.dir[i];
      if (p, n) == (parent, to) {
        NewSlot(a.files.dir, i, e, p, n);
        SlotIs(b.files.dir, p, n, i);
      } else if (p, n) == (parent, name) {
        OldSlot(a.files.dir, i, e, p, n);
        SlotIs(b.files.dir, p, n, -1);
      } else {
        Slots(a.files.dir, p, n);
        OtherSlot(a.files.dir, i, e, p, n, SlotOf(a.files.dir, p, n));
        FoundInSlot(a.files, b.files, p, n, SlotOf(a.files.dir, p, n));
      }
    }
  }

  lemma MkdirsOnNames(a: Moment, b: Moment, r: Status, name: string, parent: nat, who: Caller, p: nat, n: string)
    requires Mkdirs(a, b, r, name, parent, who) && UniqueNames(a.files.dir) && UniqueNames(b.files.dir)
    ensures Found(b.files, p, n) == if r == Ok && (p, n) == (parent, name) then Some(None) else Found(a.files, p, n)
  {
    hide UniqueNames, SlotOf, Resolves, CreateChecks;
    if r == Ok {
      var dir := a.files.dir;
      var i: nat :| 0 < i < |dir| && !dir[i].used && i !in a.files.chains &&
                    b == a.(files := a.files.(dir := dir[i := NewDir(name, parent, who, i)]));
      var e := b.files.dir[i];
      if (p, n) == (parent, name) {
        NewSlot(dir, i, e, p, n);
        SlotIs(b.files.dir, p, n, i);
      } else {
        Slots(dir, p, n);
        OtherSlot(dir, i, e, p, n, SlotOf(dir, p, n));
        FoundInSlot(a.files, b.files, p, n, SlotOf(dir, p, n));
      }
    }
  }

  /** What an update keeps of the other names. */
  lemma KeptOnNames(a: Snapshot, b: Snapshot, o: nat, parent: nat, name: string, tmp: string, p: nat, n: string)
    requires UniqueNames(a.dir) && UniqueNames(b.dir) && OthersKept(a, b, o, parent, tmp)
    requires Resolves(a.dir, parent, name, o) && (p, n) != (parent, name) && (p, n) != (parent, tmp)
    ensures Found(b, p, n) == Found(a, p, n)
  {
    hide UniqueNames, SlotOf;
    var k := SlotOf(a.dir, p, n);
    Slots(a.dir, p, n);
    assert k >= 0 ==> SameSlot(a, b, k);
    FoundInSlot(a, b, p, n, k);
  }

  lemma UpdatesOnNames(a: Moment, b: Moment, r: Status, name: string, payload: Payload, parent: nat, who: Caller, p: nat, n: string)
    requires Updates(a, b, r, name, payload, parent, who) && UniqueNames(a.files.dir) && UniqueNames(b.files.dir)
    requires (p, n) != (parent, TmpName(name))
    ensures Found(b.files, p, n) ==
            if r == Ok && (p, n) == (parent, name) then Some(Some(payload.Contents())) else Found(a.files, p, n)
  {
    hide UniqueNames, SlotOf, OthersKept, TmpName, PutOutcome, NewChain, WithoutName;
    var o := SlotOf(a.files.dir, parent, name);
    Slots(a.files.dir, parent, name);
    if o < 0 {
      CreatesOnNames(a, b, r, name, payload, parent, who, p, n);
    } else if (p, n) == (parent, name) {
      SlotIs(b.files.dir, p, n, o);
    } else {
      KeptOnNames(a.files, b.files, o, parent, name, TmpName(name), p, n);
    }
  }

  /** One request, as the names see it: it does what it was answered, to what it is about, and nothing else. */
  lemma EffectOnNames(mounted: bool, immutable: bool, q: Request, a: Moment, b: Moment, r: Status, p: nat, n: string)
    requires Effect(mounted, immutable, q, a, b, r) && UniqueNames(a.files.dir) && UniqueNames(b.files.dir)
    requires !Temporary(q, p, n)
    ensures Found(b.files, p, n) == if r == Ok && Names(q, p, n) then Answered(q, a.files, n) else Found(a.files, p, n)
  {
    hide Found, UniqueNames, Creates, Removes, Renames, Mkdirs, Updates, TmpName;
    if mounted && !immutable {
      match q
      case Create(name, payload, parent, who) => CreatesOnNames(a, b, r, name, payload, parent, who, p, n);
      case Remove(name, parent) => RemovesOnNames(a, b, r, name, parent, p, n);
      case Move(name, to, parent, now) => RenamesOnNames(a, b, r, name, to, parent, now, p, n);
      case MakeDir(name, parent, who) => MkdirsOnNames(a, b, r, name, parent, who, p, n);
      case Update(name, payload, parent, who) => UpdatesOnNames(a, b, r, name, payload, parent, who, p, n);
    }
  }

  // ---- Any run ----------------------------------------------------------------------------

  /** The requests answered Ok, replayed on names alone. */
  ghost function Replayed(requests: seq<Request>, results: seq<Status>, start: Snapshot, p: nat, n: string): Finding
    requires |results| == |requests|
  {
    if requests == [] then Found(start, p, n)
    else
      var k := |requests| - 1;
      var q := requests[k];
      if results[k] != Ok || !Names(q, p, n) then Replayed(requests[..k], results[..k], start, p, n)
      else match q
        case Create(_, payload, _, _) => Some(Some(payload.Contents()))
        case Remove(_, _) => None
        case Move(from, to, _, _) => if n == to then Replayed(requests[..k], results[..k], start, p, from) else None
        case MakeDir(_, _, _) => Some(None)
        case Update(_, payload, _, _) => Some(Some(payload.Contents()))
  }

  /** Nobody uses the name as a temporary one. */
  ghost predicate Settled(requests: seq<Request>, p: nat, n: string) {
    forall i :: 0 <= i < |requests| ==> !Temporary(requests[i], p, n)
  }

  /** Nor is anything with such a name renamed. */
  ghost predicate MovesSettled(requests: seq<Request>) {
    forall i :: 0 <= i < |requests| && requests[i].Move? ==> Settled(requests, requests[i].parent, requests[i].name)
  }

  /**
   * Over any run, a lookup of any name finds what replaying the answered requests leaves under
   * it, unless some update uses the name for its temporary file.
   */
  lemma {:induction false} RunOnNames(mounted: bool, immutable: bool, requests: seq<Request>, results: seq<Status>, trace: seq<Moment>,
                                      p: nat, n: string)
    requires Follows(mounted, immutable, requests, results, trace) && Settled(requests, p, n) && MovesSettled(requests)
    ensures Found(trace[|requests|].files, p, n) == Replayed(requests, results, trace[0].files, p, n)
  {
    if requests != [] {
      hide Effect, UniqueNames, Found, TmpName;
      var k := |requests| - 1;
      var q := requests[k];
      Shorter(mounted, immutable, requests, results, trace);
      assert Settled(requests[..k], p, n);
      RunOnNames(mounted, immutable, requests[..k], results[..k], trace[..k + 1], p, n);
      EffectOnNames(mounted, immutable, q, trace[k], trace[k + 1], results[k], p, n);
      if q.Move? && q.to == n && q.parent == p {
        assert Settled(requests, p, q.name);
        RunOnNames(mounted, immutable, requests[..k], results[..k], trace[..k + 1], p, q.name);
      }
    }
  }

  /** A run without its last request. */
  lemma Shorter(mounted: bool, immutable: bool, requests: seq<Request>, results: seq<Status>, trace: seq<Moment>)
    requires Follows(mounted, immutable, requests, results, trace) && requests != [] && MovesSettled(requests)
    ensures var k := |requests| - 1;
            && |results| == |requests| && |trace| == |requests| + 1
            && Follows(mounted, immutable, requests[..k], results[..k], trace[..k + 1]) && MovesSettled(requests[..k])
  {
    hide Effect, UniqueNames, TmpName;
  }
}
