/**
 * The directory table of fs/vfs.c: a flat array of entries that the parent links turn
 * into a tree, the validator that decides whether a table read off a disk may be
 * believed, and what every operation on the table keeps.
 */
module Directory {
  import opened Common
  import opened Fat

  const FT_REGULAR: nat := 0
  const FT_DIR: nat := 1
  const MAX_FILENAME: nat := 64
  const MAX_ENTRIES: nat := 8192

  datatype Entry = Entry(
    name: string,
    size: U32,
    start: U32,
    uid: U32,
    gid: U32,
    mtime: U32,
    ctime: U32,
    id: nat,
    parent: nat,
    mode: nat,
    ftype: nat,
    used: bool)

  const EMPTY_ENTRY := Entry("", 0, 0, 0, 0, 0, 0, 0, 0, 0, 0, false)

  type Entries = seq<Entry>

  // ---- What a believable table is ------------------------------------------------

  /** The slot holds a directory, under its own id. */
  predicate IsDirSlot(dir: Entries, p: nat) {
    0 < p < |dir| && dir[p].used && dir[p].id == p && dir[p].ftype == FT_DIR
  }

  /** Following parents from `p` through directories arrives at the root within `n` hops. */
  predicate ReachesWithin(dir: Entries, p: nat, n: nat)
    decreases n
  {
    p == 0 || (n > 0 && IsDirSlot(dir, p) && ReachesWithin(dir, dir[p].parent, n - 1))
  }

  ghost predicate Reaches(dir: Entries, p: nat) { exists n: nat :: ReachesWithin(dir, p, n) }

  /** Everything the validator asks of an entry except its parent chain. */
  predicate EntryOk(dir: Entries, clusters: nat, i: nat)
    requires i < |dir|
  {
    && dir[i].id == i
    && (dir[i].ftype == FT_REGULAR || dir[i].ftype == FT_DIR)
    && (dir[i].start != 0 ==> FIRST_DATA_CLUSTER <= dir[i].start < clusters)
  }

  /** Every used entry sits in its own slot, is well formed, and hangs off the root. */
  ghost predicate TableOk(dir: Entries, clusters: nat) {
    forall i :: 0 <= i < |dir| && dir[i].used ==> EntryOk(dir, clusters, i) && Reaches(dir, dir[i].parent)
  }

  /** No two entries of one directory share a name. */
  ghost predicate UniqueNames(dir: Entries) {
    forall i, j :: 0 <= i < j < |dir| && dir[i].used && dir[j].used && dir[i].parent == dir[j].parent ==>
      dir[i].name != dir[j].name
  }

  // ---- The hop bound is exact ----------------------------------------------------

  lemma {:induction false} MoreHops(dir: Entries, p: nat, m: nat, n: nat)
    requires m <= n && ReachesWithin(dir, p, m)
    ensures ReachesWithin(dir, p, n)
    decreases n
  {
    if p != 0 {
      MoreHops(dir, dir[p].parent, m - 1, n - 1);
    }
  }

  /** The distance to the root: hops needed, none fewer. */
  ghost predicate Distance(dir: Entries, p: nat, n: nat) {
    ReachesWithin(dir, p, n) && (n > 0 ==> !ReachesWithin(dir, p, n - 1))
  }

  lemma {:induction false} HasDistance(dir: Entries, p: nat, n: nat) returns (d: nat)
    requires ReachesWithin(dir, p, n)
    ensures d <= n && Distance(dir, p, d)
  {
    if n > 0 && ReachesWithin(dir, p, n - 1) {
      d := HasDistance(dir, p, n - 1);
    } else {
      d := n;
    }
  }

  /** A slot at distance `d` has `d` different directories on its way to the root. */
  lemma {:induction false} PathSlots(dir: Entries, p: nat, d: nat) returns (path: set<nat>)
    requires Distance(dir, p, d)
    ensures |path| == d
    ensures forall q :: q in path ==> 0 < q < |dir| && ReachesWithin(dir, q, d)
    decreases d
  {
    if d == 0 {
      path := {};
    } else {
      var rest := PathSlots(dir, dir[p].parent, d - 1);
      assert p !in rest;
      path := rest + {p};
      forall q | q in rest
        ensures ReachesWithin(dir, q, d)
      {
        MoreHops(dir, q, d - 1, d);
      }
    }
  }

  lemma {:induction false} SlotsBelow(path: set<nat>, n: nat)
    requires forall q :: q in path ==> 0 < q < n
    ensures n > 0 ==> |path| < n
    ensures n == 0 ==> path == {}
  {
    if n > 1 {
      SlotsBelow(path - {n - 1}, n - 1);
    } else {
      assert forall q :: q !in path;
      assert path == {};
    }
  }

  /** A chain longer than the table cannot be acyclic: if the root is reachable, it is within |dir| hops. */
  lemma ReachBound(dir: Entries, p: nat)
    ensures Reaches(dir, p) <==> ReachesWithin(dir, p, |dir|)
  {
    if Reaches(dir, p) {
      var n: nat :| ReachesWithin(dir, p, n);
      var d := HasDistance(dir, p, n);
      var path := PathSlots(dir, p, d);
      SlotsBelow(path, |dir|);
      MoreHops(dir, p, d, |dir|);
    }
  }

  /** Walks one entry's parents, as the validator does. */
  method WalkToRoot(dir: array<Entry>, parent: nat) returns (ok: bool)
    ensures ok <==> Reaches(dir[..], parent)
  {
    var curr: nat := parent;
    var hops := 0;
    ReachBound(dir[..], parent);
    while curr != 0
      invariant 0 <= hops <= dir.Length
      invariant ReachesWithin(dir[..], parent, dir.Length) <==> ReachesWithin(dir[..], curr, dir.Length - hops)
      decreases dir.Length - hops
    {
      hops := hops + 1;
      if hops > dir.Length {
        return false;
      }
      if curr >= dir.Length || !dir[curr].used || dir[curr].id != curr || dir[curr].ftype != FT_DIR {
        return false;
      }
      curr := dir[curr].parent;
    }
    ok := true;
  }

  /** The mount-time check accepts a table exactly when it is believable. */
  method ValidateDirectoryTable(dir: array<Entry>, clusters: nat) returns (ok: bool)
    ensures ok <==> TableOk(dir[..], clusters)
  {
    for i := 0 to dir.Length
      invariant forall j :: 0 <= j < i && dir[j].used ==>
                  EntryOk(dir[..], clusters, j) && Reaches(dir[..], dir[j].parent)
    {
      if dir[i].used {
        if dir[i].id != i {
          return false;
        }
        if dir[i].ftype != FT_REGULAR && dir[i].ftype != FT_DIR {
          return false;
        }
        if dir[i].start != 0 && (dir[i].start < FIRST_DATA_CLUSTER || dir[i].start >= clusters) {
          return false;
        }
        var reached := WalkToRoot(dir, dir[i].parent);
        if !reached {
          return false;
        }
      }
    }
    ok := true;
  }

  // ---- What operations keep ------------------------------------------------------

  /** Parent chains survive a change to a slot none of them passes through. */
  lemma {:induction false} ReachesUntouched(dir: Entries, i: nat, e: Entry, p: nat, n: nat)
    requires i < |dir| && ReachesWithin(dir, p, n)
    requires p != i || p == 0
    requires forall q :: 0 < q < |dir| && q != i && IsDirSlot(dir, q) ==> dir[q].parent != i || i == 0
    ensures ReachesWithin(dir[i := e], p, n)
    decreases n
  {
    if p != 0 {
      ReachesUntouched(dir, i, e, dir[p].parent, n - 1);
    }
  }

  /** An entry whose link and standing are unchanged leaves every parent chain as it was. */
  lemma {:induction false} ReachesSameLinks(dir: Entries, i: nat, e: Entry, p: nat, n: nat)
    requires i < |dir| && ReachesWithin(dir, p, n)
    requires e.used == dir[i].used && e.id == dir[i].id && e.ftype == dir[i].ftype && e.parent == dir[i].parent
    ensures ReachesWithin(dir[i := e], p, n)
    decreases n
  {
    if p != 0 {
      ReachesSameLinks(dir, i, e, dir[p].parent, n - 1);
    }
  }

  /** A parent that exists reaches the root. */
  ghost predicate ParentOk(dir: Entries, p: nat) { p == 0 || IsDirSlot(dir, p) }

  lemma ParentReaches(dir: Entries, clusters: nat, p: nat)
    requires TableOk(dir, clusters) && ParentOk(dir, p)
    ensures Reaches(dir, p)
  {
    if p == 0 {
      assert ReachesWithin(dir, p, 0);
    } else {
      assert Reaches(dir, dir[p].parent);
      var n: nat :| ReachesWithin(dir, dir[p].parent, n);
      assert ReachesWithin(dir, p, n + 1);
    }
  }

  /** In a believable table every parent link names the root or a directory. */
  lemma ParentsOk(dir: Entries, clusters: nat, i: nat)
    requires TableOk(dir, clusters) && i < |dir| && dir[i].used
    ensures ParentOk(dir, dir[i].parent)
  {
    assert Reaches(dir, dir[i].parent);
    var n: nat :| ReachesWithin(dir, dir[i].parent, n);
  }

  /** No directory slot's parent is an unused slot. */
  lemma UnusedIsNoParent(dir: Entries, clusters: nat, i: nat)
    requires TableOk(dir, clusters) && 0 < i < |dir| && !dir[i].used
    ensures forall q :: 0 <= q < |dir| && dir[q].used ==> dir[q].parent != i
  {
    forall q | 0 <= q < |dir| && dir[q].used
      ensures dir[q].parent != i
    {
      ParentsOk(dir, clusters, q);
    }
  }

  /** Filling a free slot under an existing parent keeps the tree; create and mkdir do this. */
  lemma AddKeepsTable(dir: Entries, clusters: nat, i: nat, e: Entry)
    requires TableOk(dir, clusters)
    requires 0 < i < |dir| && !dir[i].used && ParentOk(dir, e.parent)
    requires e.used && EntryOk(dir[i := e], clusters, i)
    ensures TableOk(dir[i := e], clusters)
  {
    UnusedIsNoParent(dir, clusters, i);
    ParentReaches(dir, clusters, e.parent);
    var dir' := dir[i := e];
    forall j | 0 <= j < |dir'| && dir'[j].used
      ensures EntryOk(dir', clusters, j) && Reaches(dir', dir'[j].parent)
    {
      var p := dir'[j].parent;
      assert Reaches(dir, p);
      var n: nat :| ReachesWithin(dir, p, n);
      ReachesUntouched(dir, i, e, p, n);
      assert j != i ==> EntryOk(dir, clusters, j);
    }
  }

  /** Clearing a slot that is nobody's parent keeps the tree; delete does this. */
  lemma RemoveKeepsTable(dir: Entries, clusters: nat, i: nat, e: Entry)
    requires TableOk(dir, clusters)
    requires i < |dir| && !e.used
    requires forall q :: 0 <= q < |dir| && dir[q].used && q != i ==> dir[q].parent != i || i == 0
    ensures TableOk(dir[i := e], clusters)
  {
    var dir' := dir[i := e];
    forall j | 0 <= j < |dir'| && dir'[j].used
      ensures EntryOk(dir', clusters, j) && Reaches(dir', dir'[j].parent)
    {
      var p := dir'[j].parent;
      assert EntryOk(dir, clusters, j) && Reaches(dir, p);
      var n: nat :| ReachesWithin(dir, p, n);
      ReachesUntouched(dir, i, e, p, n);
    }
  }

  /** Changing what an entry says but not where it hangs keeps the tree; rename and the swap do this. */
  lemma RewriteKeepsTable(dir: Entries, clusters: nat, i: nat, e: Entry)
    requires TableOk(dir, clusters) && i < |dir|
    requires e.used == dir[i].used && e.id == dir[i].id && e.ftype == dir[i].ftype && e.parent == dir[i].parent
    requires e.used && e.start != 0 ==> FIRST_DATA_CLUSTER <= e.start < clusters
    ensures TableOk(dir[i := e], clusters)
  {
    var dir' := dir[i := e];
    forall j | 0 <= j < |dir'| && dir'[j].used
      ensures EntryOk(dir', clusters, j) && Reaches(dir', dir'[j].parent)
    {
      var p := dir'[j].parent;
      assert EntryOk(dir, clusters, j) && Reaches(dir, p);
      var n: nat :| ReachesWithin(dir, p, n);
      ReachesSameLinks(dir, i, e, p, n);
    }
  }

  /** A freshly formatted table is believable. */
  lemma EmptyTableOk(dir: Entries, clusters: nat)
    requires forall i :: 0 <= i < |dir| ==> !dir[i].used
    ensures TableOk(dir, clusters) && UniqueNames(dir)
  {
  }

  // ---- Lookup --------------------------------------------------------------------

  predicate Matches(e: Entry, parent: nat, name: string) { e.used && e.parent == parent && e.name == name }

  /** The slot a name resolves to, or none. */
  ghost predicate Resolves(dir: Entries, parent: nat, name: string, i: int) {
    if i < 0 then i == -1 && forall j :: 0 <= j < |dir| ==> !Matches(dir[j], parent, name)
    else i < |dir| && Matches(dir[i], parent, name)
  }

  /** With sibling names unique, a name resolves to one slot. */
  lemma ResolvesUnique(dir: Entries, parent: nat, name: string, i: int, j: int)
    requires UniqueNames(dir)
    requires Resolves(dir, parent, name, i) && Resolves(dir, parent, name, j)
    ensures i == j
  {
  }

  method GetEntryIdx(dir: array<Entry>, name: string, parent: nat) returns (idx: int)
    ensures Resolves(dir[..], parent, name, idx)
  {
    for i := 0 to dir.Length
      invariant forall j :: 0 <= j < i ==> !Matches(dir[j], parent, name)
    {
      if dir[i].used && dir[i].parent == parent && dir[i].name == name {
        return i;
      }
    }
    idx := -1;
  }

  /** Whether an id names the root or a directory that exists. */
  method DirExists(dir: array<Entry>, clusters: nat, parent: nat) returns (ok: bool)
    requires TableOk(dir[..], clusters)
    ensures ok <==> ParentOk(dir[..], parent)
  {
    if parent == 0 {
      return true;
    }
    for i := 0 to dir.Length
      invariant forall j :: 0 <= j < i ==> !(dir[j].used && dir[j].ftype == FT_DIR && dir[j].id == parent)
    {
      if dir[i].used && dir[i].ftype == FT_DIR && dir[i].id == parent {
        assert EntryOk(dir[..], clusters, i);
        return true;
      }
    }
    ok := false;
  }

  /** The first free slot; slot 0 is the root's and is never handed out. */
  method FreeSlot(dir: array<Entry>) returns (idx: int)
    ensures idx == -1 || (0 < idx < dir.Length && !dir[idx].used)
    ensures idx == -1 ==> forall j :: 0 < j < dir.Length ==> dir[j].used
  {
    var i := 1;
    while i < dir.Length
      invariant 1 <= i
      invariant forall j :: 0 < j < i && j < dir.Length ==> dir[j].used
    {
      if !dir[i].used {
        return i;
      }
      i := i + 1;
    }
    idx := -1;
  }
}
