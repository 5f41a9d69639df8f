/**
 * The file system core of fs/vfs.c: chain allocation with rollback, create, read, delete,
 * rename, mkdir and the temp-file swap update, over a data region that may refuse any access:
 * a refused write is dropped and a refused read shows anything, and the code notices neither.
 * What the store will answer is fixed beforehand, access by access. The tables are saved to
 * disk as whole values.
 */
module FileSystem {
  import opened Common
  import opened Fat
  import opened Directory
  import opened FileData

  const DEFAULT_FILE_MODE: nat := 420
  const DEFAULT_DIR_MODE: nat := 493

  /** Who is asking, and when. */
  datatype Caller = Caller(uid: U32, gid: U32, now: U32)

  // ---- The invariant, on values --------------------------------------------------

  /** The owners of chains are the used entries that name a first cluster. */
  ghost predicate OwnersAreEntries(dir: Entries, chains: map<nat, seq<nat>>) {
    && (forall i: nat :: i in chains <==> i < |dir| && dir[i].used && dir[i].start != 0)
    && (forall i :: i in chains ==> |chains[i]| > 0 && chains[i][0] == dir[i].start)
  }

  /** Every entry with a chain records the size of its contents, and its chain has room for them. */
  ghost predicate SizesOk(dir: Entries, chains: map<nat, seq<nat>>, bytes: map<nat, seq<Byte>>) {
    forall i :: i in chains ==>
      i in bytes && i < |dir| && |bytes[i]| == dir[i].size && |bytes[i]| <= CLUSTER_BYTES * |chains[i]|
  }

  /** The files whose bytes are all on the disk, where their chains say. */
  ghost function IntactSlots(store: Store, dataStart: nat, chains: map<nat, seq<nat>>, bytes: map<nat, seq<Byte>>): set<nat> {
    set i | i in chains && i in bytes && Stored(store, dataStart, chains[i], bytes[i])
  }

  /**
   * What every operation keeps: chains are finite, disjoint and exactly the clusters in use;
   * entries form a tree with unique sibling names; chains belong to entries and fit them.
   */
  ghost predicate TablesOk(fat: Table, dir: Entries, own: Ownership, bytes: map<nat, seq<Byte>>) {
    && Owned(fat, own)
    && TableOk(dir, |fat|)
    && UniqueNames(dir)
    && OwnersAreEntries(dir, own.chains)
    && SizesOk(dir, own.chains, bytes)
  }

  lemma FormattedTables(fat: Table, dir: Entries)
    requires FIRST_DATA_CLUSTER <= |fat| <= MAX_CLUSTERS
    requires forall c :: 0 <= c < |fat| ==> fat[c] == if c < FIRST_DATA_CLUSTER then FAT_EOF else FAT_FREE
    requires forall i :: 0 <= i < |dir| ==> !dir[i].used
    ensures TablesOk(fat, dir, NOTHING_OWNED, map[])
  {
    FormattedIsOwned(fat);
    EmptyTableOk(dir, |fat|);
  }

  /** Replacing an entry by one with the same standing and first cluster moves no ownership. */
  lemma OwnersSame(dir: Entries, chains: map<nat, seq<nat>>, i: nat, e: Entry)
    requires OwnersAreEntries(dir, chains) && i < |dir|
    requires e.used == dir[i].used && e.start == dir[i].start
    ensures OwnersAreEntries(dir[i := e], chains)
  {
  }

  lemma OwnersAdd(dir: Entries, chains: map<nat, seq<nat>>, i: nat, e: Entry, chain: seq<nat>)
    requires OwnersAreEntries(dir, chains) && i < |dir| && !dir[i].used
    requires e.used && e.start != 0 && chain != [] && chain[0] == e.start
    ensures i !in chains && OwnersAreEntries(dir[i := e], chains[i := chain])
  {
  }

  lemma OwnersAddEmpty(dir: Entries, chains: map<nat, seq<nat>>, i: nat, e: Entry)
    requires OwnersAreEntries(dir, chains) && i < |dir| && !dir[i].used && e.start == 0
    ensures i !in chains && OwnersAreEntries(dir[i := e], chains)
  {
  }

  lemma OwnersRemove(dir: Entries, chains: map<nat, seq<nat>>, i: nat, e: Entry)
    requires OwnersAreEntries(dir, chains) && i < |dir| && !e.used
    ensures OwnersAreEntries(dir[i := e], chains - {i})
  {
  }

  /** An entry after fs_delete: unused and nameless, everything else left behind. */
  function Cleared(e: Entry): Entry { e.(used := false, name := "") }

  // ---- What the operations keep, on values -----------------------------------------

  /** A file has been created in slot `i`, on the free clusters `chain`. */
  lemma CreateKeeps(fat: Table, fat': Table, dir: Entries, own: Ownership, bytes: map<nat, seq<Byte>>,
                    i: nat, e: Entry, chain: seq<nat>, content: seq<Byte>)
    requires TablesOk(fat, dir, own, bytes)
    requires 0 < i < |dir| && !dir[i].used && e.used && EntryOk(dir[i := e], |fat|, i)
    requires ParentOk(dir, e.parent) && Resolves(dir, e.parent, e.name, -1)
    requires chain != [] && e.start == chain[0] && e.size == |content| <= CLUSTER_BYTES * |chain|
    requires Linked(fat, fat', chain)
    requires forall j :: 0 <= j < |chain| ==> IsFree(fat, chain[j])
    requires forall j, k :: 0 <= j < k < |chain| ==> chain[j] != chain[k]
    ensures i !in own.chains
    ensures TablesOk(fat', dir[i := e], GiveChain(own, i, chain), bytes[i := content])
  {
    OwnersAdd(dir, own.chains, i, e, chain);
    AllocateKeeps(fat, fat', own, i, chain);
    AddKeepsTable(dir, |fat|, i, e);
    AddKeepsNames(dir, i, e);
    SizesAdd(dir, own.chains, bytes, i, e, chain, content);
  }

  lemma SizesAdd(dir: Entries, chains: map<nat, seq<nat>>, bytes: map<nat, seq<Byte>>,
                 i: nat, e: Entry, chain: seq<nat>, content: seq<Byte>)
    requires SizesOk(dir, chains, bytes) && i < |dir|
    requires e.size == |content| <= CLUSTER_BYTES * |chain|
    ensures SizesOk(dir[i := e], chains[i := chain], bytes[i := content])
  {
  }

  lemma AddKeepsNames(dir: Entries, i: nat, e: Entry)
    requires UniqueNames(dir) && i < |dir|
    requires Resolves(dir, e.parent, e.name, -1)
    ensures UniqueNames(dir[i := e])
  {
    var dir' := dir[i := e];
    forall j, k | 0 <= j < k < |dir'| && dir'[j].used && dir'[k].used && dir'[j].parent == dir'[k].parent
      ensures dir'[j].name != dir'[k].name
    {
      assert j != i ==> !Matches(dir[j], e.parent, e.name);
      assert k != i ==> !Matches(dir[k], e.parent, e.name);
    }
  }

  lemma RemoveKeepsNames(dir: Entries, i: nat, e: Entry)
    requires UniqueNames(dir) && i < |dir| && !e.used
    ensures UniqueNames(dir[i := e])
  {
  }

  /** Free clusters are on nobody's chain. */
  lemma FreeIsElsewhere(fat: Table, own: Ownership, b: nat, chain: seq<nat>)
    requires Owned(fat, own) && b in own.chains
    requires forall j :: 0 <= j < |chain| ==> IsFree(fat, chain[j])
    ensures forall j :: 0 <= j < |own.chains[b]| ==> own.chains[b][j] !in chain
  {
    assert forall j :: 0 <= j < |own.chains[b]| ==> own.chains[b][j] in own.place.Keys;
  }

  /**
   * A create writes on free clusters only: whatever part of the writing is refused, every
   * other file is intact exactly if it was.
   */
  lemma IntactAfterCreate(store: Store, store': Store, dataStart: nat, fat: Table, own: Ownership,
                          bytes: map<nat, seq<Byte>>, i: nat, chain: seq<nat>, content: seq<Byte>)
    requires Owned(fat, own) && i !in own.chains && Touches(store, store', dataStart, chain)
    requires forall j :: 0 <= j < |chain| ==> IsFree(fat, chain[j])
    ensures IntactSlots(store', dataStart, own.chains[i := chain], bytes[i := content]) ==
            IntactSlots(store, dataStart, own.chains, bytes) + Only(i, Stored(store', dataStart, chain, content))
  {
    hide Stored, FollowsTable;
    forall b | b in own.chains && b in bytes
      ensures Stored(store, dataStart, own.chains[b], bytes[b]) <==> Stored(store', dataStart, own.chains[b], bytes[b])
    {
      FreeIsElsewhere(fat, own, b, chain);
      if Stored(store, dataStart, own.chains[b], bytes[b]) {
        StoredElsewhere(store, store', dataStart, chain, own.chains[b], bytes[b]);
      }
      if Stored(store', dataStart, own.chains[b], bytes[b]) {
        StoredElsewhere(store', store, dataStart, chain, own.chains[b], bytes[b]);
      }
    }
  }

  lemma IntactHaveChains(store: Store, dataStart: nat, chains: map<nat, seq<nat>>, bytes: map<nat, seq<Byte>>)
    ensures forall i :: i in IntactSlots(store, dataStart, chains, bytes) ==> i in chains
  {
  }

  /** Clearing a slot takes it, and no other, from the files on the disk. */
  lemma IntactAfterRemove(store: Store, dataStart: nat, own: Ownership, bytes: map<nat, seq<Byte>>, i: nat)
    ensures IntactSlots(store, dataStart, WithoutOwner(own, i).chains, bytes) ==
            IntactSlots(store, dataStart, own.chains, bytes) - {i}
  {
    hide Stored;
    DropChainKeys(own, i);
  }

  /** The clusters a new file of this size goes on: the first free ones. */
  ghost function NewChain(fat: Table, size: U32): seq<nat> {
    var free := FreeClusters(fat);
    if ClustersNeeded(size) <= |free| then free[..ClustersNeeded(size)] else free
  }

  lemma NewChainIs(fat: Table, size: U32)
    requires ClustersNeeded(size) <= |FreeClusters(fat)|
    ensures NewChain(fat, size) == FreeClusters(fat)[..ClustersNeeded(size)]
  {
  }

  /** The table once an owner's chain, if it has one, is freed. */
  ghost function FreedBy(fat: Table, own: Ownership, i: nat): Table {
    if i in own.chains then seq(|fat|, c requires 0 <= c < |fat| => if c in own.chains[i] then FAT_FREE else fat[c]) else fat
  }

  lemma ReleasedIs(fat: Table, fat': Table, own: Ownership, i: nat)
    requires if i in own.chains then Released(fat, fat', own.chains[i]) else fat' == fat
    ensures fat' == FreedBy(fat, own, i)
  {
  }

  /** The slot of a name, or -1. */
  ghost function SlotOf(dir: Entries, parent: nat, name: string): int {
    if i: nat :| i < |dir| && Matches(dir[i], parent, name) then i else -1
  }

  lemma SlotIs(dir: Entries, parent: nat, name: string, i: int)
    requires UniqueNames(dir) && Resolves(dir, parent, name, i)
    ensures SlotOf(dir, parent, name) == i
  {
    ResolvesUnique(dir, parent, name, i, SlotOf(dir, parent, name));
  }

  /** The table once the file of a name, if there is one, is deleted. */
  ghost function WithoutName(fat: Table, dir: Entries, own: Ownership, parent: nat, name: string): Table {
    var i := SlotOf(dir, parent, name);
    if i < 0 then fat else FreedBy(fat, own, i)
  }

  /** One slot, or none. */
  function Only(i: nat, present: bool): set<nat> { if present then {i} else {} }

  /** What is left of the ownership when slot `i` is cleared. */
  ghost function WithoutOwner(own: Ownership, i: nat): Ownership {
    if i in own.chains then DropChain(own, i) else own
  }

  /** Slot `i` has been cleared and its chain, if any, freed. */
  lemma RemoveKeeps(fat: Table, fat': Table, dir: Entries, own: Ownership, bytes: map<nat, seq<Byte>>, i: nat, e: Entry)
    requires TablesOk(fat, dir, own, bytes)
    requires i < |dir| && !e.used
    requires forall q :: 0 <= q < |dir| && dir[q].used && q != i ==> dir[q].parent != i || i == 0
    requires if i in own.chains then Released(fat, fat', own.chains[i]) else fat' == fat
    ensures TablesOk(fat', dir[i := e], WithoutOwner(own, i), bytes)
  {
    hide Owned, TableOk, UniqueNames, OwnersAreEntries;
    OwnersRemove(dir, own.chains, i, e);
    RemoveKeepsTable(dir, |fat|, i, e);
    RemoveKeepsNames(dir, i, e);
    if i in own.chains {
      ReleaseKeeps(fat, fat', own, i);
    } else {
      assert own.chains - {i} == own.chains;
    }
  }

  lemma UnusedOwnsNothing(dir: Entries, chains: map<nat, seq<nat>>, i: nat)
    requires OwnersAreEntries(dir, chains) && i < |dir| && !dir[i].used
    ensures i !in chains
  {
  }

  lemma BadStartRefused(dir: Entries, clusters: nat, i: nat)
    requires i < |dir| && dir[i].used && dir[i].start != 0 && dir[i].start >= clusters
    ensures !TableOk(dir, clusters)
  {
    assert !EntryOk(dir, clusters, i);
  }

  lemma StartOk(dir: Entries, clusters: nat, i: nat)
    requires TableOk(dir, clusters) && i < |dir|
    ensures dir[i].used && dir[i].start != 0 ==> FIRST_DATA_CLUSTER <= dir[i].start < clusters
  {
    assert dir[i].used ==> EntryOk(dir, clusters, i);
  }

  /** An entry has been rewritten without moving it, its chain or its size. */
  lemma RewriteKeeps(fat: Table, dir: Entries, own: Ownership, bytes: map<nat, seq<Byte>>, i: nat, e: Entry)
    requires TablesOk(fat, dir, own, bytes) && i < |dir|
    requires e.used == dir[i].used && e.id == dir[i].id && e.ftype == dir[i].ftype && e.parent == dir[i].parent
    requires e.start == dir[i].start && e.size == dir[i].size
    requires e.name == dir[i].name || Resolves(dir, e.parent, e.name, -1)
    ensures TablesOk(fat, dir[i := e], own, bytes)
  {
    hide Owned, TableOk, UniqueNames, OwnersAreEntries, EntryOk;
    StartOk(dir, |fat|, i);
    RewriteKeepsTable(dir, |fat|, i, e);
    OwnersSame(dir, own.chains, i, e);
    if e.name == dir[i].name {
      SameNameKeepsNames(dir, i, e);
    } else {
      AddKeepsNames(dir, i, e);
    }
  }

  lemma SameNameKeepsNames(dir: Entries, i: nat, e: Entry)
    requires UniqueNames(dir) && i < |dir|
    requires e.used == dir[i].used && e.name == dir[i].name && e.parent == dir[i].parent
    ensures UniqueNames(dir[i := e])
  {
    var dir' := dir[i := e];
    forall j, k | 0 <= j < k < |dir'| && dir'[j].used && dir'[k].used && dir'[j].parent == dir'[k].parent
      ensures dir'[j].name != dir'[k].name
    {
      assert dir[j].name == dir'[j].name && dir[k].name == dir'[k].name;
    }
  }

  /** A directory has been made in a free slot; it owns no clusters. */
  lemma MkdirKeeps(fat: Table, dir: Entries, own: Ownership, bytes: map<nat, seq<Byte>>, i: nat, e: Entry)
    requires TablesOk(fat, dir, own, bytes)
    requires 0 < i < |dir| && !dir[i].used && e.used && EntryOk(dir[i := e], |fat|, i) && e.start == 0
    requires ParentOk(dir, e.parent) && Resolves(dir, e.parent, e.name, -1)
    ensures TablesOk(fat, dir[i := e], own, bytes)
  {
    hide Owned, TableOk, UniqueNames, OwnersAreEntries;
    AddKeepsTable(dir, |fat|, i, e);
    AddKeepsNames(dir, i, e);
    OwnersAddEmpty(dir, own.chains, i, e);
  }

  /** The entry still has something in it. */
  ghost predicate HasChild(dir: Entries, i: nat)
    requires i < |dir|
  {
    exists c :: 0 <= c < |dir| && dir[c].used && dir[c].parent == dir[i].id
  }

  /** An entry that may be deleted is nobody's parent. */
  lemma DeletableIsNoParent(dir: Entries, clusters: nat, i: nat)
    requires TableOk(dir, clusters) && i < |dir| && dir[i].used
    requires dir[i].ftype == FT_DIR ==> !HasChild(dir, i)
    ensures forall q :: 0 <= q < |dir| && dir[q].used && q != i ==> dir[q].parent != i || i == 0
  {
    assert EntryOk(dir, clusters, i);
    forall q | 0 <= q < |dir| && dir[q].used && q != i
      ensures dir[q].parent != i || i == 0
    {
      ParentsOk(dir, clusters, q);
    }
  }

  /** Who gets created, and with what. */
  function NewFile(name: string, size: U32, start: U32, parent: nat, who: Caller, slot: nat): Entry {
    Entry(name, size, start, who.uid, who.gid, who.now, who.now, slot, parent, DEFAULT_FILE_MODE, FT_REGULAR, true)
  }

  function NewDir(name: string, parent: nat, who: Caller, slot: nat): Entry {
    Entry(name, 0, 0, who.uid, who.gid, who.now, who.now, slot, parent, DEFAULT_DIR_MODE, FT_DIR, true)
  }

  /** The checks every creation makes before it looks for space. */
  ghost function CreateChecks(dir: Entries, name: string, parent: nat): Status {
    if |name| >= MAX_FILENAME then Inval
    else if !ParentOk(dir, parent) then NoEnt
    else if !Resolves(dir, parent, name, -1) then Exist
    else if forall j :: 0 < j < |dir| ==> dir[j].used then NFile
    else Ok
  }

  /** When a create succeeds, and how it fails. */
  ghost function CreateOutcome(mounted: bool, fat: Table, dir: Entries, name: string, parent: nat, size: U32): Status {
    if !mounted then NoDev
    else if CreateChecks(dir, name, parent) != Ok then CreateChecks(dir, name, parent)
    else if |FreeClusters(fat)| < ClustersNeeded(size) then NoSpc
    else Ok
  }

  /** The directory once the file of a name, if there is one that can be deleted, is deleted. */
  ghost function Tidied(dir: Entries, parent: nat, name: string): Entries {
    var i := SlotOf(dir, parent, name);
    if 0 <= i < |dir| && !(dir[i].ftype == FT_DIR && HasChild(dir, i)) then dir[i := Cleared(dir[i])] else dir
  }

  /** When the temporary file of an update is made, and how that fails. */
  ghost function PutOutcome(fat: Table, dir: Entries, own: Ownership, tmp: string, parent: nat, payload: Payload): Status {
    if payload.Refused? then payload.error
    else CreateOutcome(true, WithoutName(fat, dir, own, parent, tmp), Tidied(dir, parent, tmp), tmp, parent, payload.Size())
  }

  /** Before there is a free name, how much is free does not matter. */
  lemma PutOutcomeIs(fat: Table, dir: Entries, own: Ownership, tmp: string, parent: nat, payload: Payload, fat': Table)
    requires payload.Bytes? && |payload.data| < TWO32
    requires Resolves(Tidied(dir, parent, tmp), parent, tmp, -1) ==> fat' == WithoutName(fat, dir, own, parent, tmp)
    ensures PutOutcome(fat, dir, own, tmp, parent, payload) ==
            CreateOutcome(true, fat', Tidied(dir, parent, tmp), tmp, parent, |payload.data|)
  {
    hide Tidied, WithoutName, Resolves, ParentOk, FreeClusters;
  }

  /** When a deletion succeeds, and how it fails. */
  ghost function DeleteOutcome(dir: Entries, i: int): Status {
    if !(0 <= i < |dir|) then NoEnt
    else if dir[i].ftype == FT_DIR && HasChild(dir, i) then NotEmpty
    else Ok
  }

  ghost function RenameOutcome(dir: Entries, parent: nat, newName: string, i: int): Status {
    if |newName| >= MAX_FILENAME then Inval
    else if !Resolves(dir, parent, newName, -1) then Exist
    else if i < 0 then NoEnt
    else Ok
  }

  // ---- Views of single entries -----------------------------------------------------

  /** Everything there is to one slot: its entry, its chain, its contents and whether the disk holds them. */
  datatype View = View(entry: Entry, chain: Option<seq<nat>>, contents: Option<seq<Byte>>, intact: bool)

  ghost function Get<V>(m: map<nat, V>, i: nat): Option<V> { if i in m then Some(m[i]) else None }

  /** What a lookup leads to: whether the name is there, its contents, and whether the disk holds them. */
  datatype Look = Look(found: bool, contents: Option<seq<Byte>>, intact: bool)

  /** A temporary file has been made of a payload. */
  ghost predicate TmpMade(s: Snapshot, s': Snapshot, i: nat, tmp: string, payload: Payload, parent: nat, who: Caller) {
    && payload.Bytes? && |payload.data| < TWO32 && 0 < i < |s'.dir|
    && SlotAdded(s, s', i, NewFile(tmp, |payload.data|, s'.dir[i].start, parent, who, i), payload.data)
  }

  /** What a lookup of a name that leads to a slot finds there. */
  ghost function LookIn(s: Snapshot, name: string, parent: nat, o: nat): Look {
    Look(Resolves(s.dir, parent, name, o), Get(s.bytes, o), o in s.intact)
  }

  /** Slots that are the same look the same. */
  lemma SameLook(s: Snapshot, s': Snapshot, name: string, parent: nat, o: nat)
    requires SameSlot(s, s', o)
    ensures LookIn(s, name, parent, o) == LookIn(s', name, parent, o)
  {
  }

  /** A file added elsewhere. */
  lemma AddedElsewhere(s: Snapshot, s': Snapshot, i: nat, e: Entry, data: seq<Byte>, o: nat)
    requires SlotAdded(s, s', i, e, data) && o < |s.dir| && s.dir[o].used
    ensures i != o && SameSlot(s, s', o)
  {
  }

  /** Until the exchange every lookup finds what was there before, and from then on the new bytes. */
  ghost predicate SeenOneOrOther(stages: seq<Snapshot>, name: string, parent: nat, o: nat, payload: Payload, held: bool) {
    forall k :: 0 <= k < |stages| ==>
      if k < 3 then LookIn(stages[k], name, parent, o) == LookIn(stages[0], name, parent, o)
      else payload.Bytes? && LookIn(stages[k], name, parent, o) == Look(true, Some(payload.data), held)
  }

  /** The volume as a lookup sees it, and which of its files the disk holds whole. */
  datatype Snapshot = Snapshot(dir: Entries, chains: map<nat, seq<nat>>, bytes: map<nat, seq<Byte>>, intact: set<nat>)

  ghost function ViewOf(s: Snapshot, i: nat): View
    requires i < |s.dir|
  {
    View(s.dir[i], Get(s.chains, i), Get(s.bytes, i), i in s.intact)
  }

  ghost predicate SameSlot(s: Snapshot, s': Snapshot, i: nat) {
    i < |s.dir| && i < |s'.dir| && ViewOf(s, i) == ViewOf(s', i)
  }

  /** A slot has been cleared; nothing else moved. */
  ghost predicate SlotRemoved(s: Snapshot, s': Snapshot, i: nat) {
    i < |s.dir| && s' == Snapshot(s.dir[i := Cleared(s.dir[i])], s.chains - {i}, s.bytes, s.intact - {i})
  }

  /** A free slot has become a file; nothing else moved. */
  ghost predicate SlotAdded(s: Snapshot, s': Snapshot, i: nat, e: Entry, data: seq<Byte>) {
    && i < |s.dir| && !s.dir[i].used && i !in s.chains && i !in s.intact && i in s'.chains
    && s' == Snapshot(s.dir[i := e], s.chains[i := s'.chains[i]], s.bytes[i := data], s.intact + Only(i, i in s'.intact))
  }

  /** What an update promises about the entry it updates. */
  ghost predicate Updated(s: Snapshot, s': Snapshot, o: nat, data: seq<Byte>, now: U32, held: bool) {
    && o < |s.dir| && o < |s'.dir| && |data| < TWO32
    && s'.dir[o] == s.dir[o].(start := s'.dir[o].start, size := |data|, mtime := now)
    && Get(s'.bytes, o) == Some(data)
    && (o in s'.intact <==> held)
  }

  /** What an update promises about every entry it does not update. */
  ghost predicate OthersKept(s: Snapshot, s': Snapshot, o: nat, parent: nat, tmp: string) {
    && |s.dir| == |s'.dir|
    && (forall j :: 0 <= j < |s.dir| && j != o && s.dir[j].used && !Matches(s.dir[j], parent, tmp) ==> SameSlot(s, s', j))
    && (forall j :: 0 <= j < |s.dir| && s'.dir[j].used ==> SameName(s, s', j))
  }

  ghost predicate SameName(s: Snapshot, s': Snapshot, j: nat)
    requires j < |s.dir| && j < |s'.dir|
  {
    s.dir[j].used && s'.dir[j].name == s.dir[j].name && s'.dir[j].parent == s.dir[j].parent
  }

  /** An update is all, with the new bytes on the disk or not as `held` says, or nothing. */
  ghost predicate AllOrNothing(s: Snapshot, s': Snapshot, o: nat, parent: nat, tmp: string,
                               payload: Payload, now: U32, r: Status, held: bool) {
    && OthersKept(s, s', o, parent, tmp)
    && if r == Ok then payload.Bytes? && Updated(s, s', o, payload.data, now, held) else SameSlot(s, s', o)
  }

  /** Every file with a chain is on the disk. */
  ghost predicate AllIntact(s: Snapshot) { forall i :: i in s.chains ==> i in s.intact }

  /** Step one: an old temporary file, if there is one and it can be deleted, is gone. */
  ghost predicate TmpGone(s0: Snapshot, s1: Snapshot, parent: nat, tmp: string) {
    s1 == s0 || exists i: nat :: i < |s0.dir| && Matches(s0.dir[i], parent, tmp) && SlotRemoved(s0, s1, i)
  }

  lemma AddedIntact(s: Snapshot, s': Snapshot, i: nat, e: Entry, data: seq<Byte>)
    requires SlotAdded(s, s', i, e, data) && i in s'.intact
    ensures AllIntact(s) ==> AllIntact(s')
  {
  }

  lemma WillingHold(store: Store, dataStart: nat, chain: seq<nat>, content: seq<Byte>, answers: Answers, n: nat)
    requires Willing(answers, n)
    ensures Held(store, dataStart, chain, content, answers, n)
  {
  }

  /** A file made, touched and deleted again leaves the others as they were, and on the disk. */
  lemma AddedThenGone(s0: Snapshot, s1: Snapshot, s2: Snapshot, s3: Snapshot, s4: Snapshot,
                      i: nat, e: Entry, e': Entry, data: seq<Byte>, o: nat, parent: nat, tmp: string)
    requires TmpGone(s0, s1, parent, tmp) && o < |s0.dir|
    requires SlotAdded(s1, s2, i, e, data) && s3 == s2.(dir := s2.dir[i := e']) && SlotRemoved(s3, s4, i)
    ensures AllIntact(s0) ==> AllIntact(s4)
    ensures OthersKept(s0, s4, o, parent, tmp)
  {
  }

  /** And so does the deletion alone. */
  lemma GoneKeepsOthers(s0: Snapshot, s1: Snapshot, o: nat, parent: nat, tmp: string)
    requires TmpGone(s0, s1, parent, tmp) && o < |s0.dir|
    ensures OthersKept(s0, s1, o, parent, tmp) && (AllIntact(s0) ==> AllIntact(s1))
  {
  }

  lemma FirstStep(s0: Snapshot, s1: Snapshot, o: nat, parent: nat, name: string, tmp: string)
    requires TmpGone(s0, s1, parent, tmp) && name != tmp
    requires o < |s0.dir| && Matches(s0.dir[o], parent, name)
    ensures OthersKept(s0, s1, o, parent, tmp) && SameSlot(s0, s1, o) && (AllIntact(s0) ==> AllIntact(s1))
  {
  }

  /** The four steps of a successful update: the temporary file gone, made anew, exchanged and deleted. */
  ghost predicate Steps(s0: Snapshot, s1: Snapshot, s2: Snapshot, s3: Snapshot, s4: Snapshot,
                        o: nat, t: nat, parent: nat, tmp: string, e: Entry, data: seq<Byte>, now: U32) {
    && TmpGone(s0, s1, parent, tmp)
    && SlotAdded(s1, s2, t, e, data)
    && o != t && o < |s2.dir| && t < |s2.dir|
    && s3 == SwappedSnapshot(s2, o, t, now)
    && SlotRemoved(s3, s4, t)
  }

  /**
   * The states an update leaves its locks in, the one it found first: of a failure the temporary
   * file gone, of a success all four steps.
   */
  ghost predicate Stages(stages: seq<Snapshot>, s: Snapshot, s': Snapshot,
                         o: nat, parent: nat, tmp: string, payload: Payload, who: Caller, r: Status) {
    if r != Ok then stages == [s, s'] && TmpGone(s, s', parent, tmp)
    else
      && |stages| == 5 && stages[0] == s && stages[4] == s' && payload.Bytes? && |payload.data| < TWO32
      && exists t: nat :: t < |stages[2].dir| && 0 < t
           && Steps(s, stages[1], stages[2], stages[3], s', o, t, parent, tmp,
                    NewFile(tmp, |payload.data|, stages[2].dir[t].start, parent, who, t), payload.data, who.now)
  }

  lemma StagesOfSuccess(s0: Snapshot, s1: Snapshot, s2: Snapshot, s3: Snapshot, s4: Snapshot,
                        o: nat, t: nat, parent: nat, tmp: string, payload: Payload, who: Caller)
    requires TmpGone(s0, s1, parent, tmp) && TmpMade(s1, s2, t, tmp, payload, parent, who) && o != t && o < |s2.dir|
    requires s3 == SwappedSnapshot(s2, o, t, who.now) && SlotRemoved(s3, s4, t)
    ensures Stages([s0, s1, s2, s3, s4], s0, s4, o, parent, tmp, payload, who, Ok)
    ensures Steps(s0, s1, s2, s3, s4, o, t, parent, tmp, s2.dir[t], payload.data, who.now) && s2.dir[t].size == |payload.data|
  {
    hide TmpGone, SwappedSnapshot, SlotRemoved;
    var stages := [s0, s1, s2, s3, s4];
    assert s2.dir[t] == NewFile(tmp, |payload.data|, stages[2].dir[t].start, parent, who, t);
    assert Steps(s0, stages[1], stages[2], stages[3], s4, o, t, parent, tmp, s2.dir[t], payload.data, who.now);
  }

  lemma StagesSeen(s0: Snapshot, s1: Snapshot, s2: Snapshot, s3: Snapshot, s4: Snapshot,
                   name: string, parent: nat, o: nat, payload: Payload, held: bool)
    requires LookIn(s1, name, parent, o) == LookIn(s2, name, parent, o) == LookIn(s0, name, parent, o) && payload.Bytes?
    requires LookIn(s3, name, parent, o) == LookIn(s4, name, parent, o) == Look(true, Some(payload.data), held)
    ensures SeenOneOrOther([s0, s1, s2, s3, s4], name, parent, o, payload, held)
  {
    hide LookIn;
  }

  /** All four steps of a successful update, put together. */
  lemma UpdateSteps(s0: Snapshot, s1: Snapshot, s2: Snapshot, s3: Snapshot, s4: Snapshot,
                    o: nat, t: nat, parent: nat, name: string, tmp: string, e: Entry, data: seq<Byte>, now: U32)
    requires Steps(s0, s1, s2, s3, s4, o, t, parent, tmp, e, data, now) && name != tmp
    requires o < |s0.dir| && Matches(s0.dir[o], parent, name) && |data| < TWO32 && e.size == |data|
    ensures OthersKept(s0, s4, o, parent, tmp) && Updated(s0, s4, o, data, now, t in s2.intact)
    ensures Get(s3.chains, t) == Get(s0.chains, o)
    ensures AllIntact(s0) && t in s2.intact ==> AllIntact(s4)
  {
    UpdateLooks(s0, s1, s2, s3, s4, o, t, parent, name, tmp, e, data, now);
    UpdateKeepsIntact(s0, s1, s2, s3, s4, o, t, parent, tmp, e, data, now);
    StepsUse(s0, s1, s2, s3, s4, o, t, parent, tmp, e, data, now);
    hide AllIntact, Steps, SameSlot;
    forall j | 0 <= j < |s0.dir| && j != o && s0.dir[j].used && !Matches(s0.dir[j], parent, tmp)
      ensures SameSlot(s0, s4, j)
    {
      UpdateElsewhere(s0, s1, s2, s3, s4, o, t, parent, tmp, e, data, now, j);
    }
  }

  /** The entry an update is about has the new bytes and everything else it had. */
  lemma UpdateLooks(s0: Snapshot, s1: Snapshot, s2: Snapshot, s3: Snapshot, s4: Snapshot,
                    o: nat, t: nat, parent: nat, name: string, tmp: string, e: Entry, data: seq<Byte>, now: U32)
    requires Steps(s0, s1, s2, s3, s4, o, t, parent, tmp, e, data, now) && name != tmp
    requires o < |s0.dir| && Matches(s0.dir[o], parent, name) && |data| < TWO32 && e.size == |data|
    ensures Updated(s0, s4, o, data, now, t in s2.intact) && Get(s3.chains, t) == Get(s0.chains, o)
  {
    FirstStep(s0, s1, o, parent, name, tmp);
    hide TmpGone, OthersKept, SwapSlots, SwapChains;
    SwapLooks(s2, s3, o, t, now);
    assert Get(s2.bytes, t) == Some(data);
  }

  /** Steps use no slot in the end that was free in the beginning. */
  lemma StepsUse(s0: Snapshot, s1: Snapshot, s2: Snapshot, s3: Snapshot, s4: Snapshot,
                 o: nat, t: nat, parent: nat, tmp: string, e: Entry, data: seq<Byte>, now: U32)
    requires Steps(s0, s1, s2, s3, s4, o, t, parent, tmp, e, data, now)
    ensures |s0.dir| == |s4.dir| && forall j :: 0 <= j < |s0.dir| && s4.dir[j].used ==> SameName(s0, s4, j)
  {
    hide SwapSlots, SwapChains;
  }

  /** Every other entry is as it was. */
  lemma UpdateElsewhere(s0: Snapshot, s1: Snapshot, s2: Snapshot, s3: Snapshot, s4: Snapshot,
                        o: nat, t: nat, parent: nat, tmp: string, e: Entry, data: seq<Byte>, now: U32, j: nat)
    requires Steps(s0, s1, s2, s3, s4, o, t, parent, tmp, e, data, now)
    requires j < |s0.dir| && j != o && s0.dir[j].used && !Matches(s0.dir[j], parent, tmp)
    ensures SameSlot(s0, s4, j)
  {
    assert SameSlot(s0, s1, j);
    hide TmpGone, SwappedSnapshot;
    assert j != t;
    SwapElsewhere(s2, o, t, now, j);
    assert SameSlot(s1, s2, j);
    assert SameSlot(s3, s4, j);
  }

  /** An exchange leaves every third slot as it was. */
  lemma SwapElsewhere(s: Snapshot, o: nat, t: nat, now: U32, j: nat)
    requires o < |s.dir| && t < |s.dir| && o != t && j < |s.dir| && j != o && j != t
    ensures SameSlot(s, SwappedSnapshot(s, o, t, now), j)
  {
    assert Other(o, t, j) == j;
  }

  /** An update whose new bytes reached the disk leaves every file there. */
  lemma UpdateKeepsIntact(s0: Snapshot, s1: Snapshot, s2: Snapshot, s3: Snapshot, s4: Snapshot,
                          o: nat, t: nat, parent: nat, tmp: string, e: Entry, data: seq<Byte>, now: U32)
    requires Steps(s0, s1, s2, s3, s4, o, t, parent, tmp, e, data, now)
    ensures AllIntact(s0) && t in s2.intact ==> AllIntact(s4)
  {
    hide Swapped, Cleared;
    if AllIntact(s0) && t in s2.intact {
      assert AllIntact(s1);
      assert AllIntact(s2);
      forall i | i in s4.chains
        ensures i in s4.intact
      {
        var k := Other(o, t, i);
        assert k in s2.chains && Other(o, t, k) == i;
      }
    }
  }

  /** The two entries of an update exchange chain and size; the original keeps everything else but its time. */
  ghost function Swapped(dir: Entries, o: nat, t: nat, now: U32): Entries
    requires o < |dir| && t < |dir| && o != t
  {
    dir[o := dir[o].(start := dir[t].start, size := dir[t].size, mtime := now)]
       [t := dir[t].(start := dir[o].start, size := dir[o].size)]
  }

  /** The files on the disk after two slots have exchanged chains and contents. */
  ghost function SwapSlots(slots: set<nat>, o: nat, t: nat): set<nat> { set i | i in slots :: Other(o, t, i) }

  ghost function SwappedSnapshot(s: Snapshot, o: nat, t: nat, now: U32): Snapshot
    requires o < |s.dir| && t < |s.dir| && o != t
  {
    Snapshot(Swapped(s.dir, o, t, now), SwapChains(s.chains, o, t), SwapChains(s.bytes, o, t), SwapSlots(s.intact, o, t))
  }

  lemma SwapKeepsOwners(dir: Entries, chains: map<nat, seq<nat>>, o: nat, t: nat, now: U32)
    requires OwnersAreEntries(dir, chains) && o < |dir| && t < |dir| && o != t && dir[o].used && dir[t].used
    ensures OwnersAreEntries(Swapped(dir, o, t, now), SwapChains(chains, o, t))
  {
    var dir', chains' := Swapped(dir, o, t, now), SwapChains(chains, o, t);
    forall d: nat
      ensures d in chains' <==> d < |dir'| && dir'[d].used && dir'[d].start != 0
      ensures d in chains' ==> |chains'[d]| > 0 && chains'[d][0] == dir'[d].start
    {
      var a := Other(o, t, d);
      assert a in chains <==> a < |dir| && dir[a].used && dir[a].start != 0;
    }
  }

  lemma SwapKeepsSizes(dir: Entries, chains: map<nat, seq<nat>>, bytes: map<nat, seq<Byte>>, o: nat, t: nat, now: U32)
    requires SizesOk(dir, chains, bytes) && o < |dir| && t < |dir| && o != t
    ensures SizesOk(Swapped(dir, o, t, now), SwapChains(chains, o, t), SwapChains(bytes, o, t))
  {
    var dir' := Swapped(dir, o, t, now);
    var chains': map<nat, seq<nat>> := SwapChains(chains, o, t);
    var bytes': map<nat, seq<Byte>> := SwapChains(bytes, o, t);
    forall d | d in chains'
      ensures d in bytes' && d < |dir'| && |bytes'[d]| == dir'[d].size && |bytes'[d]| <= CLUSTER_BYTES * |chains'[d]|
    {
      assert Other(o, t, d) in chains;
    }
  }

  lemma SwapKeepsIntact(store: Store, dataStart: nat, chains: map<nat, seq<nat>>, bytes: map<nat, seq<Byte>>, o: nat, t: nat)
    ensures IntactSlots(store, dataStart, SwapChains(chains, o, t), SwapChains(bytes, o, t)) ==
            SwapSlots(IntactSlots(store, dataStart, chains, bytes), o, t)
  {
    hide Stored;
    var chains': map<nat, seq<nat>> := SwapChains(chains, o, t);
    var bytes': map<nat, seq<Byte>> := SwapChains(bytes, o, t);
    var before := IntactSlots(store, dataStart, chains, bytes);
    forall d: nat
      ensures d in IntactSlots(store, dataStart, chains', bytes') <==> d in SwapSlots(before, o, t)
    {
      var a := Other(o, t, d);
      assert Other(o, t, a) == d;
      assert d in chains' && d in bytes' <==> a in chains && a in bytes;
      assert d in SwapSlots(before, o, t) <==> a in before;
    }
  }

  lemma SwapKeepsTable(dir: Entries, clusters: nat, o: nat, t: nat, now: U32)
    requires TableOk(dir, clusters) && UniqueNames(dir)
    requires o < |dir| && t < |dir| && o != t && dir[o].used && dir[t].used
    ensures TableOk(Swapped(dir, o, t, now), clusters) && UniqueNames(Swapped(dir, o, t, now))
  {
    assert EntryOk(dir, clusters, o) && EntryOk(dir, clusters, t);
    var e := dir[o].(start := dir[t].start, size := dir[t].size, mtime := now);
    var f := dir[t].(start := dir[o].start, size := dir[o].size);
    hide TableOk, UniqueNames;
    RewriteKeepsTable(dir, clusters, o, e);
    RewriteKeepsTable(dir[o := e], clusters, t, f);
    SameNameKeepsNames(dir, o, e);
    SameNameKeepsNames(dir[o := e], t, f);
  }

  /** The swap of an update keeps every invariant. */
  lemma SwapKeeps(fat: Table, dir: Entries, own: Ownership, bytes: map<nat, seq<Byte>>, o: nat, t: nat, now: U32)
    requires TablesOk(fat, dir, own, bytes)
    requires o < |dir| && t < |dir| && o != t && dir[o].used && dir[t].used
    ensures TablesOk(fat, Swapped(dir, o, t, now), SwapOwners(own, o, t), SwapChains(bytes, o, t))
  {
    hide Owned, TableOk, UniqueNames, OwnersAreEntries, SizesOk, SwapChains;
    SwapOwnersKeeps(fat, own, o, t);
    SwapKeepsTable(dir, |fat|, o, t, now);
    SwapKeepsOwners(dir, own.chains, o, t, now);
    SwapKeepsSizes(dir, own.chains, bytes, o, t, now);
  }

  /** The name the update gives its temporary file. */
  function TmpName(name: string): string {
    name[..Min(|name|, MAX_FILENAME - 5)] + ".tmp"
  }

  /** One such name. */
  lemma ItsOwnTmpName()
    ensures var name := seq(59, _ => 'a') + ".tmp"; TmpName(name) == name
  {
  }

  /** The temporary name is the name itself for one family: 63 characters ending in ".tmp". */
  lemma TmpNameCollides(name: string)
    ensures TmpName(name) == name <==> |name| == MAX_FILENAME - 1 && name[MAX_FILENAME - 5..] == ".tmp"
  {
    if |name| == MAX_FILENAME - 1 {
      assert name == name[..MAX_FILENAME - 5] + name[MAX_FILENAME - 5..];
      if TmpName(name) == name {
        assert name[MAX_FILENAME - 5..] == TmpName(name)[MAX_FILENAME - 5..];
      }
    }
  }

  /** What a creation was given to store: bytes, or the reason preparing them failed. */
  datatype Payload = Bytes(data: seq<Byte>) | Refused(error: Status) {
    predicate Sized() { if Bytes? then |data| < TWO32 else error != Ok }

    function Contents(): seq<Byte> { if Bytes? then data else [] }

    function Size(): U32 { if Bytes? && |data| < TWO32 then |data| else 0 }

    predicate Fits() { if Bytes? then |data| <= MAX_STORABLE else error != Ok }
  }

  /** An open file: the entry it was opened on and how far it has been read. */
  class OpenFile {
    const start: U32
    const size: U32
    const slot: nat
    var offset: U32

    constructor (start: U32, size: U32, slot: nat)
      ensures this.start == start && this.size == size && this.slot == slot && offset == 0
    {
      this.start, this.size, this.slot, offset := start, size, slot, 0;
    }
  }

  class Volume {
    const sectors: nat
    const dataStart: nat
    const fat: array<U32>
    const dir: array<Entry>
    /** What the store will answer, and how many accesses it has been asked for. */
    const answers: Answers
    var asked: nat
    var store: Store
    var mounted: bool
    var immutable: bool
    var savedFat: Table
    var savedDir: Entries
    ghost var own: Ownership
    /** What each file was given to hold; whether the disk holds it is Intact's business. */
    ghost var bytes: map<nat, seq<Byte>>

    ghost predicate Geometry()
      reads this
    {
      && FIRST_DATA_CLUSTER < fat.Length <= MAX_CLUSTERS
      && 0 < dir.Length <= MAX_ENTRIES
      && ClusterToSector(dataStart, fat.Length) <= sectors
      && (forall s: nat :: s in store <==> s < sectors)
    }

    ghost predicate Tables()
      reads this`own, this`bytes, fat, dir
    {
      TablesOk(fat[..], dir[..], own, bytes)
    }

    /** The files whose bytes are all on the disk. */
    ghost function Intact(): set<nat>
      reads this`store, this`own, this`bytes
    {
      IntactSlots(store, dataStart, own.chains, bytes)
    }

    ghost predicate Valid()
      reads this, fat, dir
    {
      Geometry() && Tables() && savedFat == fat[..] && savedDir == dir[..]
    }

    /** The tables of a new mount: two clusters reserved, every entry unused. */
    static method AllocateTables(clusters: nat, entries: nat) returns (fat: array<U32>, dir: array<Entry>)
      ensures fresh(fat) && fresh(dir) && fat.Length == clusters && dir.Length == entries
      ensures forall c :: 0 <= c < clusters ==> fat[c] == if c < FIRST_DATA_CLUSTER then FAT_EOF else FAT_FREE
      ensures forall i :: 0 <= i < entries ==> !dir[i].used
    {
      fat := new U32[clusters](i => if i < FIRST_DATA_CLUSTER then FAT_EOF else FAT_FREE);
      dir := new Entry[entries](_ => EMPTY_ENTRY);
    }

    /** A freshly formatted volume. */
    constructor Format(sectors: nat, dataStart: nat, clusters: nat, entries: nat, store: Store, answers: Answers)
      requires FIRST_DATA_CLUSTER < clusters <= MAX_CLUSTERS && 0 < entries <= MAX_ENTRIES
      requires ClusterToSector(dataStart, clusters) <= sectors
      requires forall s: nat :: s in store <==> s < sectors
      ensures Valid() && mounted && !immutable && fresh(fat) && fresh(dir) && this.answers == answers && asked == 0
      ensures forall i :: 0 <= i < dir.Length ==> !dir[i].used
      ensures fat.Length == clusters && dir.Length == entries && AllIntact(Snap())
    {
      this.sectors, this.dataStart, this.store := sectors, dataStart, store;
      this.answers, asked := answers, 0;
      var f, d := AllocateTables(clusters, entries);
      fat, dir := f, d;
      mounted, immutable := true, false;
      own, bytes := NOTHING_OWNED, map[];
      new;
      savedFat, savedDir := fat[..], dir[..];
      FormattedTables(fat[..], dir[..]);
      hide TablesOk;
    }

    // ---- The sector store --------------------------------------------------------

    /** A write is taken whole or dropped whole, as the store answers; the callers do not look at which. */
    method WriteSector(s: nat, buf: Sector) returns (taken: bool)
      requires s < sectors && s in store
      modifies this`store, this`asked, this`asked
      ensures asked == old(asked) + 1 && taken == answers(old(asked))
      ensures store == if taken then old(store)[s := buf] else old(store)
    {
      taken := answers(asked);
      asked := asked + 1;
      if taken {
        store := store[s := buf];
      }
    }

    /** A read shows the sector; a refused one leaves zeros, or whatever the buffer had. */
    method ReadSector(s: nat) returns (served: bool, buf: Sector)
      requires s < sectors && s in store
      modifies this`asked
      ensures asked == old(asked) + 1 && served == answers(old(asked))
      ensures served ==> buf == store[s]
    {
      served := answers(asked);
      asked := asked + 1;
      if served {
        buf := store[s];
      } else {
        buf := *;
      }
    }

    method SaveFat()
      modifies this`savedFat
      ensures savedFat == fat[..]
    {
      savedFat := fat[..];
    }

    method SaveDirectory()
      modifies this`savedDir
      ensures savedDir == dir[..]
    {
      savedDir := dir[..];
    }

    // ---- Allocation --------------------------------------------------------------

    /**
     * Reserves the first free clusters and links them. Succeeds exactly when there are
     * enough; a failure gives back the very table it was given.
     */
    method AllocateChain(count: U32) returns (start: U32, ghost chain: seq<nat>)
      requires FIRST_DATA_CLUSTER < fat.Length <= MAX_CLUSTERS && savedFat == fat[..]
      modifies fat, this`savedFat
      ensures savedFat == fat[..]
      ensures count == 0 ==> start == FAT_EOF && fat[..] == old(fat[..])
      ensures count > 0 ==> (start == FAT_FREE <==> |FreeClusters(old(fat[..]))| < count)
      ensures start == FAT_FREE ==> fat[..] == old(fat[..])
      ensures count > 0 && start != FAT_FREE ==>
                && chain == FreeClusters(old(fat[..]))[..count]
                && start == chain[0]
                && Linked(old(fat[..]), fat[..], chain)
    {
      if count == 0 {
        return FAT_EOF, [];
      }
      ghost var table := fat[..];
      var taken;
      start, taken, chain := LinkFree(count);
      FirstFree(table, taken);
      if taken < count {
        Rollback(start, table, chain);
        return FAT_FREE, [];
      }
      SaveFat();
    }

    /** Links the first free clusters, up to the number wanted. */
    method LinkFree(count: U32) returns (start: U32, taken: nat, ghost chain: seq<nat>)
      requires FIRST_DATA_CLUSTER < fat.Length <= MAX_CLUSTERS && count > 0
      modifies fat
      ensures taken == Min(count, |FreeClusters(old(fat[..]))|)
      ensures chain == FreeClusters(old(fat[..]))[..taken]
      ensures Linked(old(fat[..]), fat[..], chain)
      ensures start == if chain == [] then FAT_EOF else chain[0]
    {
      hide Linked, FreeBelow;
      ghost var table := fat[..];
      start, taken, chain := FAT_EOF, 0, [];
      var current: U32 := FAT_EOF;
      var i := FIRST_DATA_CLUSTER;
      NothingFreeYet(table);
      while i < fat.Length && taken < count
        invariant FIRST_DATA_CLUSTER <= i <= fat.Length
        invariant chain == FreeBelow(table, i) && |chain| == taken <= count
        invariant Linked(table, fat[..], chain)
        invariant start == if chain == [] then FAT_EOF else chain[0]
        invariant chain != [] ==> current == chain[|chain| - 1]
      {
        NextFree(table, fat[..], i);
        if fat[i] == FAT_FREE {
          LinkOne(start, current, i, table, chain);
          if start == FAT_EOF {
            start := i;
          }
          current := i;
          taken := taken + 1;
          chain := chain + [i as nat];
        }
        i := i + 1;
      }
      FreeBelowPrefix(table, i, fat.Length);
    }

    /** Links one more cluster at the end of a chain under construction. */
    method LinkOne(start: U32, current: U32, i: nat, ghost table: Table, ghost chain: seq<nat>)
      requires |table| == fat.Length <= MAX_CLUSTERS && FIRST_DATA_CLUSTER <= i < fat.Length
      requires Linked(table, fat[..], chain) && forall j :: 0 <= j < |chain| ==> chain[j] < i
      requires start == if chain == [] then FAT_EOF else chain[0]
      requires chain != [] ==> current == chain[|chain| - 1]
      modifies fat
      ensures Linked(table, fat[..], chain + [i])
    {
      ghost var before := fat[..];
      LinkedInside(table, before, chain);
      hide Linked;
      if start != FAT_EOF {
        fat[current] := i;
      }
      fat[i] := FAT_EOF;
      ghost var next: U32 := i;
      ghost var linked: Table := if chain == [] then before else before[chain[|chain| - 1] := next];
      assert fat[..] == linked[i := FAT_EOF];
      LinkedExtend(table, before, fat[..], chain, i);
    }

    /** Gives back a chain that turned out too short. */
    method Rollback(start: U32, ghost table: Table, ghost chain: seq<nat>)
      requires |table| == fat.Length <= MAX_CLUSTERS
      requires Linked(table, fat[..], chain)
      requires forall j :: 0 <= j < |chain| ==> IsFree(table, chain[j])
      requires forall i, j :: 0 <= i < j < |chain| ==> chain[i] < chain[j]
      requires start == if chain == [] then FAT_EOF else chain[0]
      modifies fat
      ensures fat[..] == table
    {
      ghost var linked := fat[..];
      var cluster: U32 := start;
      ghost var j := 0;
      while cluster != FAT_EOF
        invariant 0 <= j <= |chain|
        invariant cluster == if j < |chain| then chain[j] else FAT_EOF
        invariant forall c :: 0 <= c < fat.Length ==> fat[c] == if c in chain[..j] then FAT_FREE else linked[c]
        decreases |chain| - j
      {
        assert linked[chain[j]] == if j + 1 < |chain| then chain[j + 1] else FAT_EOF;
        var next := fat[cluster];
        fat[cluster] := FAT_FREE;
        cluster := next;
        assert chain[..j + 1] == chain[..j] + [chain[j]];
        j := j + 1;
      }
      assert chain[..j] == chain;
      assert fat[..] == table;
    }

    /**
     * The release walk of fs_delete. It stops on any table, cyclic or out of range, because
     * every step frees one more cluster; on a proper chain it frees exactly that chain.
     */
    method FreeChain(start: U32, ghost chain: seq<nat>)
      requires chain != [] ==> IsChain(fat[..], chain) && start == chain[0] && fat.Length <= MAX_CLUSTERS
      requires forall i, j :: 0 <= i < j < |chain| ==> chain[i] != chain[j]
      modifies fat
      ensures forall c :: 0 <= c < fat.Length ==> fat[c] == old(fat[c]) || fat[c] == FAT_FREE
      ensures chain != [] ==> Released(old(fat[..]), fat[..], chain)
      ensures start == FAT_FREE || start == FAT_EOF ==> fat[..] == old(fat[..])
    {
      ghost var before := fat[..];
      ghost var j := 0;
      var cluster: U32 := start;
      while cluster != FAT_EOF && cluster != FAT_FREE
        invariant forall c :: 0 <= c < fat.Length ==> fat[c] == before[c] || fat[c] == FAT_FREE
        invariant chain != [] ==>
                    && 0 <= j <= |chain|
                    && cluster == (if j < |chain| then chain[j] else FAT_EOF)
                    && forall c :: 0 <= c < fat.Length ==> fat[c] == if c in chain[..j] then FAT_FREE else before[c]
        invariant start == FAT_FREE || start == FAT_EOF ==> cluster == start && fat[..] == before
        decreases set c | 0 <= c < fat.Length && fat[c] != FAT_FREE, if cluster == FAT_FREE then 0 else 1
      {
        if cluster >= fat.Length {
          break;
        }
        ghost var used := set c | 0 <= c < fat.Length && fat[c] != FAT_FREE;
        var next := fat[cluster];
        if chain != [] {
          assert before[chain[j]] == if j + 1 < |chain| then chain[j + 1] else FAT_EOF;
          assert chain[..j + 1] == chain[..j] + [chain[j]];
        }
        fat[cluster] := FAT_FREE;
        assert next != FAT_FREE ==> cluster in used;
        cluster := next;
        j := j + 1;
      }
      if chain != [] {
        assert chain[..j] == chain;
      }
    }

    // ---- File contents -----------------------------------------------------------

    /** Writes all eight sectors of one cluster, padding with zeros past the end of the contents. */
    method WriteCluster(cluster: nat, content: seq<Byte>, k: nat, written: nat) returns (total: nat)
      requires Geometry() && FIRST_DATA_CLUSTER <= cluster < fat.Length
      requires k % CLUSTER_SECTORS == 0 && written == Min(SECTOR_SIZE * k, |content|)
      modifies this`store, this`asked
      ensures Geometry() && asked == old(asked) + CLUSTER_SECTORS
      ensures total == Min(SECTOR_SIZE * (k + CLUSTER_SECTORS), |content|)
      ensures RunWritten(old(store), store, ClusterToSector(dataStart, cluster), CLUSTER_SECTORS, content, k, answers, old(asked))
      ensures Touches(old(store), store, dataStart, [cluster])
    {
      hide Chunk, RunWritten;
      var base := ClusterToSector(dataStart, cluster);
      total := written;
      RunStarts(store, base, content, k, answers, asked);
      for s := 0 to CLUSTER_SECTORS
        invariant Geometry() && asked == old(asked) + s
        invariant total == Min(SECTOR_SIZE * (k + s), |content|)
        invariant RunWritten(old(store), store, base, s, content, k, answers, old(asked))
        invariant forall t: nat :: t in store && !(base <= t < base + s) ==> t in old(store) && store[t] == old(store)[t]
      {
        var n := 0;
        if total < |content| {
          n := if |content| - total > SECTOR_SIZE then SECTOR_SIZE else |content| - total;
        }
        var buf: Sector := content[total..total + n] + seq(SECTOR_SIZE - n, _ => 0);
        IsChunk(content, k + s, total, n, buf);
        ghost var before := store;
        var _ := WriteSector(base + s, buf);
        RunGrows(old(store), before, store, base, s, content, k, answers, old(asked));
        total := total + n;
      }
      assert forall t: nat :: base <= t < base + CLUSTER_SECTORS ==> OnChain(dataStart, [cluster], t);
    }

    /**
     * Writes a file's contents over its whole chain, in order. Every sector of the chain ends
     * up with its share of the contents, except those whose write the store refuses, which
     * keep what they had.
     */
    method WriteContent(start: U32, content: seq<Byte>, count: nat, ghost chain: seq<nat>)
      requires Geometry() && IsChain(fat[..], chain) && |chain| == count && start == chain[0]
      requires forall i, j :: 0 <= i < j < |chain| ==> chain[i] != chain[j]
      requires |content| <= CLUSTER_BYTES * count
      modifies this`store, this`asked
      ensures Geometry() && asked == old(asked) + CLUSTER_SECTORS * count
      ensures Written(old(store), store, dataStart, chain, content, CLUSTER_SECTORS * count, answers, old(asked))
      ensures Touches(old(store), store, dataStart, chain)
    {
      hide RunWritten, Written, OnChain;
      var cluster: U32 := start;
      WrittenStarts(store, dataStart, chain, content, answers, asked);
      var written := 0;
      for c := 0 to count
        invariant Geometry() && asked == old(asked) + CLUSTER_SECTORS * c
        invariant written == Min(CLUSTER_BYTES * c, |content|)
        invariant cluster == if c < count then chain[c] else FAT_EOF
        invariant Written(old(store), store, dataStart, chain, content, CLUSTER_SECTORS * c, answers, old(asked))
        invariant Touches(old(store), store, dataStart, chain[..c])
      {
        if cluster == FAT_EOF || cluster >= fat.Length {
          break;
        }
        ghost var before := store;
        written := WriteCluster(cluster, content, CLUSTER_SECTORS * c, written);
        WrittenGrows(old(store), before, store, dataStart, chain, content, c, answers, old(asked));
        assert c < count - 1 ==> fat[..][chain[c]] == chain[c + 1];
        cluster := fat[cluster];
      }
      assert chain[..count] == chain;
    }

    /** Reads the rest of one cluster, or as much of it as is wanted. */
    method ReadCluster(cluster: nat, from: nat, want: nat, ghost chain: seq<nat>, ghost c: nat, ghost content: seq<Byte>)
      returns (out: seq<Byte>)
      requires Geometry() && cluster < fat.Length && from < CLUSTER_BYTES && want > 0
      requires c < |chain| && cluster == chain[c]
      modifies this`asked
      ensures |out| == Min(want, CLUSTER_BYTES - from)
      ensures asked == old(asked) + Accesses(CLUSTER_BYTES * c + from, |out|)
      ensures Stored(store, dataStart, chain, content) ==>
                Shows(out, content, CLUSTER_BYTES * c + from, answers, old(asked))
    {
      hide Stored, Shows, Accesses;
      var base := ClusterToSector(dataStart, cluster);
      var at := from;
      out := [];
      ghost var first := CLUSTER_BYTES * c + from;
      ShowsNothing(content, first, answers, asked);
      NoAccesses(first);
      while at < CLUSTER_BYTES && |out| < want
        invariant from <= at <= CLUSTER_BYTES && |out| == at - from <= want
        invariant out == [] || |out| == want || at % SECTOR_SIZE == 0
        invariant asked == old(asked) + Accesses(first, |out|)
        invariant Stored(store, dataStart, chain, content) ==> Shows(out, content, first, answers, old(asked))
        decreases CLUSTER_BYTES - at
      {
        var sector, skip := at / SECTOR_SIZE, at % SECTOR_SIZE;
        ghost var before := asked;
        var _, buf := ReadSector(base + sector);
        var n := SECTOR_SIZE - skip;
        if n > want - |out| {
          n := want - |out|;
        }
        ghost var more := buf[skip..skip + n];
        OneAccess(c, from, |out|, n);
        if Stored(store, dataStart, chain, content) {
          SectorShows(store, dataStart, chain, content, c, at, n, buf, answers, before);
          ShowsExtend(out, more, content, first, answers, old(asked));
        }
        AccessesAdd(first, |out|, n);
        out := out + buf[skip..skip + n];
        at := at + n;
      }
    }

    /** Follows the table past the clusters an offset skips, if it leads that far. */
    method SkipClusters(start: U32, n: nat) returns (at: Option<U32>)
      ensures at == Follow(fat[..], start, n)
    {
      at := Some(start);
      for i := 0 to n
        invariant at.Some? && at == Follow(fat[..], start, i)
        invariant Follow(fat[..], start, i).None? ==> Follow(fat[..], start, n).None?
      {
        if at.value == FAT_EOF || at.value >= fat.Length {
          LostForGood(fat[..], start, i + 1, n);
          return None;
        }
        at := Some(fat[at.value]);
      }
    }

    /**
     * Reads from the current offset, advancing it by what was read. The sectors are asked for
     * once each, in order, and of an intact file every byte whose sector is served is its own.
     */
    method ReadRaw(f: OpenFile, size: U32) returns (out: seq<Byte>)
      requires Valid() && IsOpen(f)
      modifies f`offset, this`asked
      ensures Valid() && asked == old(asked) + Accesses(old(f.offset), |out|)
      ensures |out| == ReadCount(f.size, Capacity(f.slot), old(f.offset), size)
      ensures f.offset == old(f.offset) + |out|
      ensures f.slot in Intact() ==> Shows(out, Contents(f.slot), old(f.offset), answers, old(asked))
    {
      hide Owned, TableOk, UniqueNames, OwnersAreEntries, SizesOk, Stored, Shows, Accesses;
      out := [];
      ghost var chain, content := own.chains[f.slot], Contents(f.slot);
      FileFacts(fat[..], dir[..], own, bytes, f.slot);
      ShowsNothing(content, f.offset, answers, asked);
      NoAccesses(f.offset);
      if f.offset >= f.size {
        return;
      }
      var want: U32 := size;
      if Add32(f.offset, size) > f.size {
        want := f.size - f.offset;
      }
      ghost var c := f.offset / CLUSTER_BYTES;
      FollowChain(fat[..], chain, c);
      var reached := SkipClusters(f.start, f.offset / CLUSTER_BYTES);
      if reached == None {
        return;
      }
      out := ReadChain(reached.value, f.offset % CLUSTER_BYTES, want, chain, c, content);
      f.offset := f.offset + |out|;
    }

    /** Reads along a chain, a cluster at a time. */
    method ReadChain(start: U32, first: nat, want: U32, ghost chain: seq<nat>, ghost k: nat, ghost content: seq<Byte>)
      returns (out: seq<Byte>)
      requires Geometry() && IsChain(fat[..], chain) && k < |chain| && start == chain[k] && first < CLUSTER_BYTES
      modifies this`asked
      ensures Geometry() && |out| == Min(want, CLUSTER_BYTES * |chain| - (CLUSTER_BYTES * k + first))
      ensures asked == old(asked) + Accesses(CLUSTER_BYTES * k + first, |out|)
      ensures Stored(store, dataStart, chain, content) ==>
                Shows(out, content, CLUSTER_BYTES * k + first, answers, old(asked))
    {
      hide Stored, Shows, Accesses;
      out := [];
      var cluster, from := start, first;
      ghost var at, c := CLUSTER_BYTES * k + first, k;
      ShowsNothing(content, at, answers, asked);
      NoAccesses(at);
      while |out| < want && cluster != FAT_EOF
        invariant asked == old(asked) + Accesses(at, |out|)
        invariant |out| <= want && at + |out| <= CLUSTER_BYTES * |chain| && c <= |chain|
        invariant |out| < want ==> 0 <= from < CLUSTER_BYTES && at + |out| == CLUSTER_BYTES * c + from
        invariant |out| < want ==> cluster == if c < |chain| then chain[c] else FAT_EOF
        invariant |out| < want ==> (c == |chain| ==> from == 0) && (out == [] || from == 0)
        invariant Stored(store, dataStart, chain, content) ==> Shows(out, content, at, answers, old(asked))
        decreases |chain| - c
      {
        if cluster >= fat.Length {
          break;
        }
        var more := ReadCluster(cluster, from, want - |out|, chain, c, content);
        ClusterEnds(at, |out|, c, from);
        AccessesAdd(at, |out|, |more|);
        if Stored(store, dataStart, chain, content) {
          ShowsExtend(out, more, content, at, answers, old(asked));
        }
        out := out + more;
        assert c < |chain| - 1 ==> fat[..][chain[c]] == chain[c + 1];
        cluster := fat[cluster];
        from := 0;
        c := c + 1;
      }
    }

    /** The handle is on a live entry that has a chain. */
    ghost predicate IsOpen(f: OpenFile)
      reads this, dir
    {
      f.slot in own.chains && f.slot < dir.Length && f.start == dir[f.slot].start && f.size == dir[f.slot].size
    }

    /** What an entry's file holds. */
    ghost function Contents(slot: nat): seq<Byte>
      reads this
    {
      if slot in bytes then bytes[slot] else []
    }

    /** Bytes of storage behind an entry. */
    ghost function Capacity(slot: nat): nat
      reads this
    {
      if slot in own.chains then CLUSTER_BYTES * |own.chains[slot]| else 0
    }

    /**
     * Reading in any sequence of chunk sizes, from a store that serves every access, gives back
     * one run of the file's storage, in order and without a gap. When no size takes an end past
     * 4 GB, that run is the contents, as far as the sizes reach.
     */
    method ReadInChunks(f: OpenFile, sizes: seq<U32>) returns (out: seq<Byte>)
      requires Valid() && IsOpen(f)
      modifies f`offset, this`asked
      ensures Valid() && f.offset == old(f.offset) + |out| && asked >= old(asked)
      ensures f.slot in Intact() && Willing(answers, old(asked)) ==> ShowsAll(out, Contents(f.slot), old(f.offset))
      ensures old(f.offset) <= f.size && NoneWraps(f.size, sizes) ==>
                && f.offset == Min(f.size, old(f.offset) + Sum(sizes)) <= |Contents(f.slot)|
                && (f.slot in Intact() && Willing(answers, old(asked)) ==>
                      out == Contents(f.slot)[old(f.offset)..f.offset])
    {
      hide Owned, TableOk, UniqueNames, OwnersAreEntries, SizesOk, IntactSlots, ReadCount, Shows, ShowsAll, Accesses;
      out := [];
      ghost var at, content := f.offset, Contents(f.slot);
      FileFacts(fat[..], dir[..], own, bytes, f.slot);
      ShowsNothing(content, at, answers, asked);
      for i := 0 to |sizes|
        invariant Valid() && f.offset == at + |out| && asked >= old(asked)
        invariant at <= f.size && NoneWraps(f.size, sizes) ==> f.offset == Min(f.size, at + Sum(sizes[..i]))
        invariant f.slot in Intact() && Willing(answers, old(asked)) ==> ShowsAll(out, content, at)
      {
        if f.offset <= f.size && NoneWraps(f.size, sizes) {
          ReadCountExact(f.size, Capacity(f.slot), f.offset, sizes[i]);
        }
        ghost var before := asked;
        var more := ReadRaw(f, sizes[i]);
        if f.slot in Intact() && Willing(answers, old(asked)) {
          ServedShowsAll(more, content, at + |out|, answers, before);
          ShowsAllExtend(out, more, content, at);
        }
        out := out + more;
        assert sizes[..i + 1][..i] == sizes[..i];
      }
      assert sizes[..|sizes|] == sizes;
      if at <= f.size && NoneWraps(f.size, sizes) && f.slot in Intact() && Willing(answers, old(asked)) {
        ShowsIsSlice(out, content, at);
      }
    }

    // ---- Operations --------------------------------------------------------------

    /** Nothing on the volume has changed. */
    twostate predicate Untouched()
      reads this, fat, dir
    {
      && store == old(store) && asked == old(asked) && own == old(own) && bytes == old(bytes)
      && fat[..] == old(fat[..]) && dir[..] == old(dir[..])
    }

    /** The checks of a creation, made over the table. */
    method FindRoom(name: string, parent: nat) returns (r: Status, slot: int)
      requires Valid()
      ensures r == CreateChecks(dir[..], name, parent)
      ensures r == Ok ==> 0 < slot < dir.Length && !dir[slot].used
    {
      slot := -1;
      if |name| >= MAX_FILENAME {
        return Inval, -1;
      }
      var exists_ := DirExists(dir, fat.Length, parent);
      if !exists_ {
        return NoEnt, -1;
      }
      var existing := GetEntryIdx(dir, name, parent);
      if existing != -1 {
        return Exist, -1;
      }
      slot := FreeSlot(dir);
      r := if slot == -1 then NFile else Ok;
    }

    /**
     * Creates a file. It fails for the first reason that applies and then changes nothing;
     * otherwise one free slot and the first free clusters become the file, and every other
     * file is intact exactly if it was, whatever writes are refused. The new file is intact
     * exactly if each sector whose write the store refuses happened to hold its share already;
     * the status does not tell. A size within the last cluster of 4 GB wraps the cluster count
     * to zero: the entry is then made without a chain, and the table is no longer one the mount
     * would accept.
     */
    method CreateFileRaw(name: string, content: seq<Byte>, parent: nat, who: Caller)
      returns (r: Status, ghost slot: int)
      requires Valid() && |content| < TWO32
      modifies this`store, this`asked, this`savedFat, this`savedDir, this`own, this`bytes, fat, dir
      ensures r == CreateOutcome(mounted, old(fat[..]), old(dir[..]), name, parent, |content|)
      ensures r != Ok ==> Valid() && Untouched()
      ensures r == Ok ==> 0 < slot < dir.Length && !old(dir[slot].used) && slot !in old(own.chains)
      ensures r == Ok ==> dir[..] == old(dir[..])[slot := NewFile(name, |content|, dir[slot].start, parent, who, slot)]
      ensures r == Ok && |content| <= MAX_STORABLE ==>
                && Valid() && slot in own.chains
                && own.chains == old(own.chains)[slot := own.chains[slot]]
                && bytes == old(bytes)[slot := content]
                && own.chains[slot] == NewChain(old(fat[..]), |content|)
                && asked == old(asked) + CLUSTER_SECTORS * |own.chains[slot]|
                && Intact() == old(Intact()) + Only(slot, slot in Intact())
                && (slot in Intact() <==>
                      Held(old(store), dataStart, NewChain(old(fat[..]), |content|), content, answers, old(asked)))
      ensures r == Ok && |content| > MAX_STORABLE ==>
                && dir[slot].start == FAT_EOF && savedDir == dir[..] && !TableOk(dir[..], fat.Length)
                && store == old(store) && asked == old(asked)
    {
      hide Owned, TableOk, UniqueNames, OwnersAreEntries, SizesOk, IntactSlots, Held, NewChain, Linked;
      slot := -1;
      if !mounted {
        return NoDev, -1;
      }
      var free: int;
      r, free := FindRoom(name, parent);
      if r != Ok {
        return r, -1;
      }
      var count := ClustersNeeded(|content|);
      ClustersNeededExact(|content|);
      ghost var table, entries := fat[..], dir[..];
      var start;
      ghost var chain;
      start, chain := AllocateChain(count);
      if start == FAT_FREE {
        return NoSpc, -1;
      }
      slot := free;
      UnusedOwnsNothing(entries, own.chains, free);
      var e := NewFile(name, |content|, start, parent, who, free);
      if count > 0 {
        NewChainIs(table, |content|);
        FirstFree(table, count);
        FillFile(free, e, content, count, table, chain);
      } else {
        dir[free] := e;
        SaveDirectory();
        BadStartRefused(dir[..], fat.Length, free);
      }
    }

    /** Writes the contents of a new file over its chain and enters it in the table. */
    method FillFile(slot: nat, e: Entry, content: seq<Byte>, count: nat, ghost table: Table, ghost chain: seq<nat>)
      requires Geometry() && savedFat == fat[..] && |table| == fat.Length
      requires TablesOk(table, dir[..], own, bytes)
      requires 0 < slot < dir.Length && !dir[slot].used && Resolves(dir[..], e.parent, e.name, -1) && ParentOk(dir[..], e.parent)
      requires e.used && e.id == slot && e.ftype == FT_REGULAR && e.size == |content|
      requires count == |chain| > 0 && |content| <= CLUSTER_BYTES * count
      requires e.start == chain[0] && Linked(table, fat[..], chain)
      requires forall j :: 0 <= j < |chain| ==> IsFree(table, chain[j])
      requires forall j, k :: 0 <= j < k < |chain| ==> chain[j] < chain[k]
      modifies this`store, this`asked, this`savedDir, this`own, this`bytes, dir
      ensures Valid() && slot in own.chains && slot !in old(own.chains)
      ensures dir[..] == old(dir[..])[slot := e]
      ensures own.chains == old(own.chains)[slot := own.chains[slot]]
      ensures bytes == old(bytes)[slot := content]
      ensures own.chains[slot] == chain && asked == old(asked) + CLUSTER_SECTORS * count
      ensures Intact() == old(Intact()) + Only(slot, slot in Intact())
      ensures slot in Intact() <==> Held(old(store), dataStart, chain, content, answers, old(asked))
    {
      hide Owned, TableOk, UniqueNames, OwnersAreEntries, SizesOk, Stored, Written, Held, Touches, IntactSlots;
      ghost var entries, before := dir[..], store;
      IntactHaveChains(store, dataStart, own.chains, bytes);
      WriteContent(e.start, content, count, chain);
      dir[slot] := e;
      SaveDirectory();
      assert dir[..] == entries[slot := e];
      CreateKeeps(table, fat[..], entries, own, bytes, slot, e, chain, content);
      GiveChainIs(own, slot, chain);
      hide Linked, IsFree, GiveChain;
      WrittenIsStored(before, store, dataStart, chain, content, answers, old(asked));
      IntactAfterCreate(before, store, dataStart, table, own, bytes, slot, chain, content);
      own := GiveChain(own, slot, chain);
      bytes := bytes[slot := content];
    }

    /**
     * Deletes the entry a name resolves to. A directory that still holds something is
     * refused; otherwise the slot is cleared and exactly its chain is freed.
     */
    method Delete(name: string, parent: nat) returns (r: Status, ghost slot: int)
      requires Valid()
      modifies this`savedFat, this`savedDir, this`own, fat, dir
      ensures Valid() && Resolves(old(dir[..]), parent, name, slot)
      ensures AllIntact(old(Snap())) ==> AllIntact(Snap())
      ensures r == if !mounted then NoDev else if immutable then Rofs else DeleteOutcome(old(dir[..]), slot)
      ensures r != Ok ==> Untouched()
      ensures r == Ok ==> dir[..] == old(dir[..])[slot := Cleared(old(dir[slot]))]
      ensures r == Ok ==> own == WithoutOwner(old(own), slot) && Intact() == old(Intact()) - {slot}
      ensures r == Ok ==> fat[..] == FreedBy(old(fat[..]), old(own), slot)
    {
      hide Owned, TableOk, UniqueNames, OwnersAreEntries, SizesOk, IntactSlots;
      var i := GetEntryIdx(dir, name, parent);
      slot := i;
      if !mounted {
        return NoDev, slot;
      }
      if immutable {
        return Rofs, slot;
      }
      if i < 0 {
        return NoEnt, slot;
      }
      if dir[i].ftype == FT_DIR {
        var busy := AnyChild(dir[i].id);
        if busy {
          return NotEmpty, slot;
        }
      }
      RemoveEntry(i);
      DropChainKeys(old(own), i);
      r := Ok;
    }

    /** Frees an entry's chain and clears its slot. */
    method RemoveEntry(i: nat)
      requires Valid() && i < dir.Length && dir[i].used
      requires dir[i].ftype == FT_DIR ==> !HasChild(dir[..], i)
      modifies this`savedFat, this`savedDir, this`own, fat, dir
      ensures Valid()
      ensures dir[..] == old(dir[..])[i := Cleared(old(dir[i]))]
      ensures own == WithoutOwner(old(own), i) && Intact() == old(Intact()) - {i}
      ensures fat[..] == FreedBy(old(fat[..]), old(own), i)
    {
      hide Owned, TableOk, UniqueNames, OwnersAreEntries, SizesOk, IntactSlots, HasChild, DropChain;
      ghost var table, entries := fat[..], dir[..];
      ghost var chain := if i in own.chains then own.chains[i] else [];
      ChainToFree(table, entries, own, i);
      DeletableIsNoParent(entries, fat.Length, i);
      FreeChain(dir[i].start, chain);
      ReleasedIs(table, fat[..], own, i);
      SaveFat();
      dir[i] := Cleared(dir[i]);
      SaveDirectory();
      assert dir[..] == entries[i := Cleared(entries[i])];
      RemoveKeeps(table, fat[..], entries, own, bytes, i, Cleared(entries[i]));
      IntactAfterRemove(store, dataStart, own, bytes, i);
      own := WithoutOwner(own, i);
    }

    method AnyChild(id: nat) returns (busy: bool)
      ensures busy <==> exists c :: 0 <= c < dir.Length && dir[c].used && dir[c].parent == id
    {
      for c := 0 to dir.Length
        invariant forall d :: 0 <= d < c ==> !(dir[d].used && dir[d].parent == id)
      {
        if dir[c].used && dir[c].parent == id {
          return true;
        }
      }
      busy := false;
    }

    /** Renames an entry within its directory, onto a name nobody there has. */
    method Rename(oldName: string, newName: string, parent: nat, now: U32) returns (r: Status, ghost slot: int)
      requires Valid()
      modifies this`savedDir, dir
      ensures Valid() && Resolves(old(dir[..]), parent, oldName, slot)
      ensures r == if !mounted then NoDev
                   else if |newName| >= MAX_FILENAME then Inval
                   else if immutable then Rofs
                   else if !Resolves(old(dir[..]), parent, newName, -1) then Exist
                   else if slot < 0 then NoEnt
                   else Ok
      ensures r != Ok ==> Untouched()
      ensures r == Ok ==> dir[..] == old(dir[..])[slot := old(dir[slot]).(name := newName, ctime := now)]
    {
      hide Owned, TableOk, UniqueNames, OwnersAreEntries, SizesOk, IntactSlots;
      var i := GetEntryIdx(dir, oldName, parent);
      slot := i;
      if !mounted {
        return NoDev, slot;
      }
      if |newName| >= MAX_FILENAME {
        return Inval, slot;
      }
      if immutable {
        return Rofs, slot;
      }
      var taken := GetEntryIdx(dir, newName, parent);
      if taken != -1 {
        return Exist, slot;
      }
      if i < 0 {
        return NoEnt, slot;
      }
      ghost var entries := dir[..];
      var e := dir[i].(name := newName, ctime := now);
      dir[i] := e;
      SaveDirectory();
      assert dir[..] == entries[i := e];
      RewriteKeeps(fat[..], entries, own, bytes, i, e);
      r := Ok;
    }

    /** Makes an empty directory. */
    method Mkdir(name: string, parent: nat, who: Caller) returns (r: Status, ghost slot: int)
      requires Valid()
      modifies this`savedDir, dir
      ensures Valid()
      ensures r == if !mounted then NoDev
                   else if immutable then Rofs
                   else CreateChecks(old(dir[..]), name, parent)
      ensures r != Ok ==> Untouched()
      ensures r == Ok ==> 0 < slot < dir.Length && !old(dir[slot].used) &&
                          dir[..] == old(dir[..])[slot := NewDir(name, parent, who, slot)]
    {
      hide Owned, TableOk, UniqueNames, OwnersAreEntries, SizesOk, IntactSlots;
      slot := -1;
      if !mounted {
        return NoDev, slot;
      }
      if immutable {
        return Rofs, slot;
      }
      var free: int;
      r, free := FindRoom(name, parent);
      slot := free;
      if r != Ok {
        return;
      }
      ghost var entries := dir[..];
      var e := NewDir(name, parent, who, free);
      dir[free] := e;
      SaveDirectory();
      assert dir[..] == entries[free := e];
      MkdirKeeps(fat[..], entries, own, bytes, free, e);
    }

    // ---- The update --------------------------------------------------------------

    /** What fs_create_file hands to the raw create: the bytes, or the reason it refused. */
    method CreateFile(name: string, payload: Payload, parent: nat, who: Caller)
      returns (r: Status, ghost slot: int)
      requires Valid() && payload.Sized()
      modifies this`store, this`asked, this`savedFat, this`savedDir, this`own, this`bytes, fat, dir
      ensures r == if immutable then Rofs
                   else if payload.Refused? then payload.error
                   else CreateOutcome(mounted, old(fat[..]), old(dir[..]), name, parent, |payload.data|)
      ensures r != Ok ==> Valid() && Untouched()
      ensures r == Ok ==> payload.Bytes? && 0 < slot < dir.Length
      ensures r == Ok && payload.Fits() ==>
                && Valid() && slot in own.chains
                && SlotAdded(old(Snap()), Snap(), slot, NewFile(name, |payload.data|, dir[slot].start, parent, who, slot), payload.data)
                && own.chains[slot] == NewChain(old(fat[..]), |payload.data|)
                && asked == old(asked) + CLUSTER_SECTORS * |own.chains[slot]|
                && (slot in Intact() <==>
                      Held(old(store), dataStart, NewChain(old(fat[..]), |payload.data|), payload.data, answers, old(asked)))
      ensures r == Ok && !payload.Fits() ==>
                dir[slot].start == FAT_EOF && !TableOk(dir[..], fat.Length)
    {
      hide Owned, TableOk, UniqueNames, OwnersAreEntries, SizesOk, IntactSlots, Held;
      if immutable {
        return Rofs, -1;
      }
      if payload.Refused? {
        return payload.error, -1;
      }
      IntactHaveChains(store, dataStart, own.chains, bytes);
      r, slot := CreateFileRaw(name, payload.data, parent, who);
    }

    /** The exchange at the heart of an update. */
    method SwapEntries(o: nat, t: nat, now: U32)
      requires Valid() && o < dir.Length && t < dir.Length && dir[o].used && dir[t].used
      modifies this`savedDir, this`own, this`bytes, dir
      ensures Valid()
      ensures o == t ==> dir[..] == old(dir[..])[o := old(dir[o]).(mtime := now)] && own == old(own) && bytes == old(bytes)
      ensures o != t ==> own == SwapOwners(old(own), o, t) && Snap() == SwappedSnapshot(old(Snap()), o, t, now)
    {
      hide Owned, TableOk, UniqueNames, OwnersAreEntries, SizesOk, IntactSlots, SwapChains, SwapSlots;
      ghost var entries := dir[..];
      var oldStart, oldSize := dir[o].start, dir[o].size;
      dir[o] := dir[o].(start := dir[t].start, size := dir[t].size, mtime := now);
      dir[t] := dir[t].(start := oldStart, size := oldSize);
      SaveDirectory();
      if o == t {
        assert dir[..] == entries[o := entries[o].(mtime := now)];
        RewriteKeeps(fat[..], entries, own, bytes, o, dir[o]);
      } else {
        assert dir[..] == Swapped(entries, o, t, now);
        SwapKeeps(fat[..], entries, own, bytes, o, t, now);
        SwapKeepsIntact(store, dataStart, own.chains, bytes, o, t);
        own, bytes := SwapOwners(own, o, t), SwapChains(bytes, o, t);
      }
    }

    ghost function Snap(): Snapshot
      reads this, dir
    {
      Snapshot(dir[..], own.chains, bytes, Intact())
    }

    /** Deletes a file by name, as a snapshot sees it. */
    method DeleteTmp(tmp: string, parent: nat)
      requires Valid()
      modifies this`savedFat, this`savedDir, this`own, fat, dir
      ensures Valid() && TmpGone(old(Snap()), Snap(), parent, tmp)
      ensures mounted && !immutable ==> dir[..] == Tidied(old(dir[..]), parent, tmp)
      ensures Resolves(dir[..], parent, tmp, -1) ==> fat[..] == WithoutName(old(fat[..]), old(dir[..]), old(own), parent, tmp)
      ensures mounted && !immutable ==>
                forall i: nat :: i < dir.Length && old(Matches(dir[i], parent, tmp)) && old(dir[i].ftype) == FT_REGULAR ==>
                  SlotRemoved(old(Snap()), Snap(), i) && fat[..] == FreedBy(old(fat[..]), old(own), i)
    {
      hide Owned, TableOk, OwnersAreEntries, SizesOk, IntactSlots, FreedBy, HasChild, DropChain;
      ghost var before := Snap();
      var r, slot := Delete(tmp, parent);
      if r == Ok {
        DropChainKeys(old(own), slot);
        assert SlotRemoved(before, Snap(), slot);
      }
      SlotIs(before.dir, parent, tmp, slot);
      forall i: nat | i < dir.Length && old(Matches(dir[i], parent, tmp))
        ensures i == slot
      {
        ResolvesUnique(before.dir, parent, tmp, i, slot);
      }
    }

    /**
     * Replaces the contents of an existing entry by way of a temporary sibling. Either the
     * entry is given the new bytes, keeps its id, owner, mode and creation time, and its old
     * chain is free; or it is exactly as it was. In between, a lookup finds the old bytes
     * or the new ones. Nothing else on the volume changes but the temporary sibling. The new
     * bytes are on the disk exactly if each sector whose write the store refuses happened to
     * hold its share; they go on the first clusters free once the temporary sibling is gone.
     */
    method UpdateExisting(name: string, payload: Payload, parent: nat, who: Caller, ghost o: nat)
      returns (r: Status, ghost stages: seq<Snapshot>)
      requires Valid() && payload.Fits() && mounted && !immutable
      requires o < dir.Length && Matches(dir[o], parent, name) && TmpName(name) != name
      modifies this`store, this`asked, this`savedFat, this`savedDir, this`own, this`bytes, fat, dir
      ensures r == PutOutcome(old(fat[..]), old(dir[..]), old(own), TmpName(name), parent, payload)
      ensures Valid() && asked >= old(asked)
      ensures AllOrNothing(old(Snap()), Snap(), o, parent, TmpName(name), payload, who.now, r, o in Intact())
      ensures r == Ok ==> o in own.chains && own.chains[o] == old(UpdateChain(name, parent, |payload.data|))
      ensures r == Ok ==>
                (o in Intact() <==> Held(old(store), dataStart, old(UpdateChain(name, parent, |payload.data|)), payload.data, answers, old(asked)))
      ensures r == Ok && o in old(own.chains) ==>
                forall j :: 0 <= j < |old(own.chains)[o]| && old(own.chains)[o][j] < fat.Length ==>
                  fat[old(own.chains)[o][j]] == FAT_FREE
      ensures Resolves(dir[..], parent, name, o)
      ensures Stages(stages, old(Snap()), Snap(), o, parent, TmpName(name), payload, who, r)
      ensures SeenOneOrOther(stages, name, parent, o, payload, o in Intact())
      ensures AllIntact(old(Snap())) && (r == Ok ==> o in Intact()) ==> AllIntact(Snap())
    {
      hide Owned, TableOk, UniqueNames, OwnersAreEntries, SizesOk, IntactSlots, OthersKept, Swapped, SwapChains, SwapSlots, Held;
      hide Geometry, AllIntact, WithoutName, NewChain, TmpGone, LookIn, Steps;
      var tmp := TmpName(name);
      ghost var s0 := Snap();
      ghost var slot, s1;
      ghost var chain;
      r, slot, s1, chain := PutTmp(name, tmp, payload, parent, who, o);
      FirstStep(s0, s1, o, parent, name, tmp);
      if r != Ok {
        stages := [s0, s1];
        return;
      }
      ghost var s2 := Snap();
      ghost var e := dir[slot];
      ghost var s3 := CommitSwap(name, tmp, parent, who.now, o, slot);
      stages := [s0, s1, s2, s3, Snap()];
      hide SeenOneOrOther, Stages, SlotRemoved;
      StagesOfSuccess(s0, s1, s2, s3, Snap(), o, slot, parent, tmp, payload, who);
      StagesSeen(s0, s1, s2, s3, Snap(), name, parent, o, payload, slot in s2.intact);
      UpdateSteps(s0, s1, s2, s3, Snap(), o, slot, parent, name, tmp, e, payload.data, who.now);
    }

    /** The first half of an update: an old temporary file goes, and a new one is made of the new bytes. */
    method PutTmp(name: string, tmp: string, payload: Payload, parent: nat, who: Caller, ghost o: nat)
      returns (r: Status, ghost slot: nat, ghost s1: Snapshot, ghost chain: seq<nat>)
      requires Valid() && payload.Fits() && mounted && !immutable
      requires o < dir.Length && Matches(dir[o], parent, name) && tmp != name
      modifies this`store, this`asked, this`savedFat, this`savedDir, this`own, this`bytes, fat, dir
      ensures r == PutOutcome(old(fat[..]), old(dir[..]), old(own), tmp, parent, payload)
      ensures Valid() && asked >= old(asked) && TmpGone(old(Snap()), s1, parent, tmp)
      ensures r != Ok ==> Snap() == s1
      ensures r == Ok ==> TmpMade(s1, Snap(), slot, tmp, payload, parent, who) && slot != o
      ensures r == Ok ==> chain == NewChain(WithoutName(old(fat[..]), old(dir[..]), old(own), parent, tmp), payload.Size())
      ensures r == Ok ==> Get(own.chains, slot) == Some(chain)
      ensures r == Ok ==> (slot in Intact() <==> Held(old(store), dataStart, chain, payload.Contents(), answers, old(asked)))
      ensures Resolves(dir[..], parent, name, o)
      ensures LookIn(s1, name, parent, o) == LookIn(Snap(), name, parent, o) == old(LookIn(Snap(), name, parent, o))
    {
      hide Owned, TableOk, UniqueNames, OwnersAreEntries, SizesOk, IntactSlots, OthersKept, Held;
      hide Geometry, AllIntact, WithoutName, FreedBy, NewChain, LookIn, TmpGone;
      ghost var s0 := Snap();
      DeleteTmp(tmp, parent);
      s1 := Snap();
      FirstStep(s0, s1, o, parent, name, tmp);
      SameLook(s0, s1, name, parent, o);
      chain, slot := [], 0;
      ghost var table, made := fat[..], 0;
      if payload.Bytes? {
        PutOutcomeIs(old(fat[..]), s0.dir, old(own), tmp, parent, payload, table);
      }
      hide CreateOutcome, Tidied;
      r, made := CreateFile(tmp, payload, parent, who);
      if r != Ok {
        return;
      }
      slot := made;
      chain := NewChain(table, |payload.data|);
      AddedElsewhere(s1, Snap(), slot, dir[slot], payload.data, o);
      SameLook(s1, Snap(), name, parent, o);
    }

    /** The clusters an update puts the new bytes on. */
    ghost function UpdateChain(name: string, parent: nat, size: U32): seq<nat>
      requires fat.Length <= MAX_CLUSTERS
      reads this, fat, dir
    {
      NewChain(WithoutName(fat[..], dir[..], own, parent, TmpName(name)), size)
    }

    /** The second half of an update: exchange the two entries, then delete the temporary one. */
    method CommitSwap(name: string, tmp: string, parent: nat, now: U32, ghost o: nat, ghost slot: nat)
      returns (ghost s3: Snapshot)
      requires Valid() && mounted && !immutable
      requires o < dir.Length && Matches(dir[o], parent, name)
      requires slot < dir.Length && slot != o && Matches(dir[slot], parent, tmp) && dir[slot].ftype == FT_REGULAR
      modifies this`savedFat, this`savedDir, this`own, this`bytes, fat, dir
      ensures Valid()
      ensures s3 == SwappedSnapshot(old(Snap()), o, slot, now)
      ensures SlotRemoved(s3, Snap(), slot)
      ensures Get(own.chains, o) == Get(old(own.chains), slot)
      ensures o in old(own.chains) ==>
                forall j :: 0 <= j < |old(own.chains)[o]| && old(own.chains)[o][j] < fat.Length ==>
                  fat[old(own.chains)[o][j]] == FAT_FREE
      ensures Resolves(dir[..], parent, name, o)
      ensures LookIn(s3, name, parent, o) == LookIn(Snap(), name, parent, o) == Look(true, Get(old(bytes), slot), slot in old(Intact()))
    {
      hide Owned, TableOk, OwnersAreEntries, SizesOk, IntactSlots, Swapped, SwapChains, SwapSlots;
      ghost var s2 := Snap();
      var orig := GetEntryIdx(dir, name, parent);
      var t := GetEntryIdx(dir, tmp, parent);
      ResolvesUnique(dir[..], parent, name, orig, o);
      ResolvesUnique(dir[..], parent, tmp, t, slot);
      hide UniqueNames;
      SwapEntries(orig, t, now);
      s3 := Snap();
      SwapLooks(s2, s3, o, t, now);
      DeleteTmp(tmp, parent);
    }

    /**
     * fs_atomic_update. A name that does not exist is created; one that does is replaced,
     * all or nothing, exactly when its temporary name is a different name. For a regular
     * file whose name is its own temporary name, the file is gone whatever the answer. The
     * status never tells whether the new bytes reached the disk; they did whenever the store
     * serves every access.
     */
    method AtomicUpdate(name: string, payload: Payload, parent: nat, who: Caller)
      returns (r: Status, ghost o: int, ghost stages: seq<Snapshot>)
      requires Valid() && payload.Fits()
      modifies this`store, this`asked, this`savedFat, this`savedDir, this`own, this`bytes, fat, dir
      ensures Valid() && Resolves(old(dir[..]), parent, name, o) && asked >= old(asked)
      ensures !mounted ==> r == NoDev && Untouched()
      ensures mounted && immutable ==> r == Rofs && Untouched()
      ensures mounted && !immutable && o < 0 ==>
                r == if payload.Refused? then payload.error
                     else CreateOutcome(true, old(fat[..]), old(dir[..]), name, parent, |payload.data|)
      ensures mounted && !immutable && o >= 0 ==> r == PutOutcome(old(fat[..]), old(dir[..]), old(own), TmpName(name), parent, payload)
      ensures mounted && !immutable && o < 0 && r != Ok ==> Untouched()
      ensures mounted && !immutable && o < 0 && r == Ok ==>
                exists i: nat :: i < dir.Length && i in own.chains
                  && SlotAdded(old(Snap()), Snap(), i, NewFile(name, |payload.data|, dir[i].start, parent, who, i), payload.data)
                  && own.chains[i] == NewChain(old(fat[..]), |payload.data|)
                  && (i in Intact() <==>
                        Held(old(store), dataStart, NewChain(old(fat[..]), |payload.data|), payload.data, answers, old(asked)))
      ensures mounted && !immutable && o >= 0 && TmpName(name) != name ==>
                && AllOrNothing(old(Snap()), Snap(), o, parent, TmpName(name), payload, who.now, r, o in Intact())
                && Resolves(dir[..], parent, name, o)
                && (r == Ok ==> o in own.chains && own.chains[o] == old(UpdateChain(name, parent, |payload.data|)))
                && (r == Ok ==>
                      (o in Intact() <==>
                         Held(old(store), dataStart, old(UpdateChain(name, parent, |payload.data|)), payload.data, answers, old(asked))))
                && Stages(stages, old(Snap()), Snap(), o, parent, TmpName(name), payload, who, r)
                && SeenOneOrOther(stages, name, parent, o, payload, o in Intact())
      ensures mounted && !immutable && o >= 0 && TmpName(name) != name && r == Ok && o in old(own.chains) ==>
                forall j :: 0 <= j < |old(own.chains)[o]| && old(own.chains)[o][j] < fat.Length ==>
                  fat[old(own.chains)[o][j]] == FAT_FREE
      ensures mounted && !immutable && o >= 0 && TmpName(name) == name ==>
                && OthersKept(old(Snap()), Snap(), o, parent, name)
                && (old(dir[o].ftype) == FT_REGULAR ==> Resolves(dir[..], parent, name, -1))
      ensures AllIntact(old(Snap())) && Willing(answers, old(asked)) ==> AllIntact(Snap())
    {
      hide Owned, TableOk, OwnersAreEntries, SizesOk, IntactSlots, WithoutName, NewChain, Stages, SeenOneOrOther, PutOutcome;
      hide LookIn, Updated, OthersKept, Held, AllIntact, CreateOutcome;
      ghost var s0 := Snap();
      stages := [];
      var orig := GetEntryIdx(dir, name, parent);
      o := orig;
      if !mounted {
        return NoDev, o, stages;
      }
      if immutable {
        return Rofs, o, stages;
      }
      if orig == -1 {
        ghost var slot;
        r, slot := CreateFile(name, payload, parent, who);
        if r == Ok && Willing(answers, old(asked)) {
          WillingHold(old(store), dataStart, NewChain(old(fat[..]), |payload.data|), payload.data, answers, old(asked));
          AddedIntact(s0, Snap(), slot, dir[slot], payload.data);
        }
        return;
      }
      if TmpName(name) != name {
        r, stages := UpdateExisting(name, payload, parent, who, o);
        if r == Ok && Willing(answers, old(asked)) {
          WillingHold(old(store), dataStart, old(UpdateChain(name, parent, |payload.data|)), payload.data, answers, old(asked));
        }
      } else {
        r := UpdateOntoItself(name, payload, parent, who, o);
      }
    }

    /** What the same steps do when the temporary name is the name itself. */
    method UpdateOntoItself(name: string, payload: Payload, parent: nat, who: Caller, ghost o: nat)
      returns (r: Status)
      requires Valid() && payload.Fits() && mounted && !immutable
      requires o < dir.Length && Matches(dir[o], parent, name)
      modifies this`store, this`asked, this`savedFat, this`savedDir, this`own, this`bytes, fat, dir
      ensures r == PutOutcome(old(fat[..]), old(dir[..]), old(own), name, parent, payload)
      ensures Valid() && asked >= old(asked)
      ensures OthersKept(old(Snap()), Snap(), o, parent, name)
      ensures old(dir[o].ftype) == FT_REGULAR ==> Resolves(dir[..], parent, name, -1)
      ensures AllIntact(old(Snap())) ==> AllIntact(Snap())
    {
      hide Owned, TableOk, OwnersAreEntries, SizesOk, IntactSlots, CreateOutcome, FreeClusters, Resolves, Held, Geometry;
      hide AllIntact, UniqueNames, OthersKept, TmpGone, WithoutName, FreedBy, HasChild;
      ghost var s0 := Snap();
      DeleteTmp(name, parent);
      ghost var s1 := Snap();
      GoneKeepsOthers(s0, s1, o, parent, name);
      assert UniqueNames(s0.dir);
      if s0.dir[o].ftype == FT_REGULAR {
        RemovedName(s0.dir, parent, name, o);
      }
      ghost var slot;
      if payload.Bytes? {
        PutOutcomeIs(old(fat[..]), s0.dir, old(own), name, parent, payload, fat[..]);
      }
      hide Tidied;
      r, slot := CreateFile(name, payload, parent, who);
      if r != Ok {
        return;
      }
      var t := GetEntryIdx(dir, name, parent);
      ResolvesUnique(dir[..], parent, name, t, slot);
      ghost var s2 := Snap();
      SwapEntries(t, t, who.now);
      ghost var s3 := Snap();
      DeleteTmp(name, parent);
      AddedThenGone(s0, s1, s2, s3, Snap(), slot, s2.dir[slot], s3.dir[slot], payload.data, o, parent, name);
      RemovedName(s3.dir, parent, name, slot);
    }

    // ---- Runs --------------------------------------------------------------------

    ghost function Here(): Moment
      reads this, fat, dir
    {
      Moment(fat[..], own, Snap())
    }

    /**
     * Any run of operations from a valid volume ends in a valid one, each of them having done
     * what its answer says; and from a store that serves every access, every file stays on the
     * disk whole.
     */
    method Run(requests: seq<Request>) returns (results: seq<Status>, ghost trace: seq<Moment>)
      requires Valid()
      requires forall i :: 0 <= i < |requests| ==> requests[i].Fits()
      modifies this`store, this`asked, this`savedFat, this`savedDir, this`own, this`bytes, fat, dir
      ensures Valid()
      ensures Follows(mounted, immutable, requests, results, trace) && trace[0] == old(Here()) && trace[|requests|] == Here()
      ensures AllIntact(old(Snap())) && Willing(answers, old(asked)) ==> AllIntact(Snap())
    {
      hide Effect, UniqueNames, IntactSlots, AllIntact, Valid, Follows;
      NamesUnique();
      results, trace := [], [Here()];
      FollowsNothing(mounted, immutable, Here());
      for i := 0 to |requests|
        invariant Valid() && asked >= old(asked) && |trace| == i + 1
        invariant Follows(mounted, immutable, requests[..i], results, trace) && trace[0] == old(Here()) && trace[i] == Here()
        invariant AllIntact(old(Snap())) && Willing(answers, old(asked)) ==> AllIntact(Snap())
      {
        var r := Step(requests[i]);
        NamesUnique();
        FollowsOn(mounted, immutable, requests[..i], results, trace, requests[i], r, Here());
        assert requests[..i + 1] == requests[..i] + [requests[i]];
        results, trace := results + [r], trace + [Here()];
      }
      assert requests[..|requests|] == requests;
    }

    lemma NamesUnique()
      requires Valid()
      ensures UniqueNames(dir[..])
    {
    }

    /** One operation of a run. */
    method Step(request: Request) returns (r: Status)
      requires Valid() && request.Fits()
      modifies this`store, this`asked, this`savedFat, this`savedDir, this`own, this`bytes, fat, dir
      ensures Valid() && asked >= old(asked)
      ensures Effect(mounted, immutable, request, old(Here()), Here(), r)
      ensures AllIntact(old(Snap())) && Willing(answers, old(asked)) ==> AllIntact(Snap())
    {
      hide Effect, AllIntact, IntactSlots, Valid;
      match request
      case Create(name, payload, parent, who) => r := StepCreate(name, payload, parent, who);
      case Remove(name, parent) => r := StepRemove(name, parent);
      case Move(name, to, parent, now) => r := StepMove(name, to, parent, now);
      case MakeDir(name, parent, who) => r := StepMakeDir(name, parent, who);
      case Update(name, payload, parent, who) => r := StepUpdate(name, payload, parent, who);
    }

    method StepCreate(name: string, payload: Payload, parent: nat, who: Caller) returns (r: Status)
      requires Valid() && payload.Fits()
      modifies this`store, this`asked, this`savedFat, this`savedDir, this`own, this`bytes, fat, dir
      ensures Valid() && asked >= old(asked)
      ensures Effect(mounted, immutable, Create(name, payload, parent, who), old(Here()), Here(), r)
      ensures AllIntact(old(Snap())) && Willing(answers, old(asked)) ==> AllIntact(Snap())
    {
      hide Geometry, Tables, IntactSlots, CreateChecks, NewChain;
      ghost var a := Here();
      ghost var slot;
      r, slot := CreateFile(name, payload, parent, who);
      if r == Ok {
        assert Made(a, Here(), slot, name, payload.data, parent, who);
      }
    }

    method StepRemove(name: string, parent: nat) returns (r: Status)
      requires Valid()
      modifies this`savedFat, this`savedDir, this`own, fat, dir
      ensures Valid() && Effect(mounted, immutable, Remove(name, parent), old(Here()), Here(), r)
      ensures AllIntact(old(Snap())) ==> AllIntact(Snap())
    {
      hide Geometry, IntactSlots, HasChild, FreedBy, Owned, TableOk, OwnersAreEntries, SizesOk;
      ghost var a := Here();
      ghost var slot;
      r, slot := Delete(name, parent);
      SlotIs(a.files.dir, parent, name, slot);
      if r == Ok {
        DropChainKeys(a.own, slot);
      }
    }

    method StepMove(name: string, to: string, parent: nat, now: U32) returns (r: Status)
      requires Valid()
      modifies this`savedDir, dir
      ensures Valid() && Effect(mounted, immutable, Move(name, to, parent, now), old(Here()), Here(), r)
      ensures AllIntact(old(Snap())) ==> AllIntact(Snap())
    {
      hide Geometry, IntactSlots, Owned, TableOk, OwnersAreEntries, SizesOk;
      ghost var a := Here();
      ghost var slot;
      r, slot := Rename(name, to, parent, now);
      SlotIs(a.files.dir, parent, name, slot);
    }

    method StepMakeDir(name: string, parent: nat, who: Caller) returns (r: Status)
      requires Valid()
      modifies this`savedDir, dir
      ensures Valid() && Effect(mounted, immutable, MakeDir(name, parent, who), old(Here()), Here(), r)
      ensures AllIntact(old(Snap())) ==> AllIntact(Snap())
    {
      hide Geometry, IntactSlots, Owned, TableOk, UniqueNames, SizesOk, CreateChecks;
      ghost var slot;
      r, slot := Mkdir(name, parent, who);
    }

    method StepUpdate(name: string, payload: Payload, parent: nat, who: Caller) returns (r: Status)
      requires Valid() && payload.Fits()
      modifies this`store, this`asked, this`savedFat, this`savedDir, this`own, this`bytes, fat, dir
      ensures Valid() && asked >= old(asked)
      ensures Effect(mounted, immutable, Update(name, payload, parent, who), old(Here()), Here(), r)
      ensures AllIntact(old(Snap())) && Willing(answers, old(asked)) ==> AllIntact(Snap())
    {
      hide Geometry, IntactSlots, CreateChecks, NewChain, WithoutName, OthersKept, PutOutcome, AllIntact;
      hide Owned, TableOk, OwnersAreEntries, SizesOk;
      ghost var a := Here();
      ghost var o, stages;
      r, o, stages := AtomicUpdate(name, payload, parent, who);
      SlotIs(a.files.dir, parent, name, o);
      if mounted && !immutable && o < 0 && r == Ok {
        ghost var i: nat :| i < dir.Length && i in own.chains
          && SlotAdded(a.files, Snap(), i, NewFile(name, |payload.data|, dir[i].start, parent, who, i), payload.data)
          && own.chains[i] == NewChain(a.fat, |payload.data|);
        assert Made(a, Here(), i, name, payload.data, parent, who);
      }
    }

    /** On a valid volume every cluster is accounted for, and the mount check passes. */
    lemma ValidMeans()
      requires Valid()
      ensures |FreeClusters(fat[..])| + HeldBelow(own.chains, dir.Length) + FIRST_DATA_CLUSTER == fat.Length
      ensures TableOk(dir[..], fat.Length)
      ensures forall i :: 0 <= i < dir.Length && dir[i].used ==> ReachesWithin(dir[..], dir[i].parent, dir.Length)
    {
      forall i | 0 <= i < dir.Length && dir[i].used
        ensures ReachesWithin(dir[..], dir[i].parent, dir.Length)
      {
        ReachBound(dir[..], dir[..][i].parent);
      }
      hide Owned, TableOk;
      Conservation(fat[..], own, dir.Length);
    }
  }

  /** With unique names, clearing the slot a name resolves to leaves the name unresolved. */
  lemma RemovedName(dir: Entries, parent: nat, name: string, i: nat)
    requires UniqueNames(dir) && i < |dir| && Matches(dir[i], parent, name)
    ensures Resolves(dir[i := Cleared(dir[i])], parent, name, -1)
  {
  }

  lemma FollowsNothing(mounted: bool, immutable: bool, a: Moment)
    requires UniqueNames(a.files.dir)
    ensures Follows(mounted, immutable, [], [], [a])
  {
    hide UniqueNames;
  }

  /** One more moment of a run. */
  lemma FollowsOn(mounted: bool, immutable: bool, requests: seq<Request>, results: seq<Status>, trace: seq<Moment>,
                  q: Request, r: Status, b: Moment)
    requires Follows(mounted, immutable, requests, results, trace) && UniqueNames(b.files.dir) && |trace| == |requests| + 1
    requires Effect(mounted, immutable, q, trace[|requests|], b, r)
    ensures Follows(mounted, immutable, requests + [q], results + [r], trace + [b])
  {
    hide Effect, UniqueNames;
  }

  /** A request to the volume. */
  datatype Request =
    | Create(name: string, payload: Payload, parent: nat, who: Caller)
    | Remove(name: string, parent: nat)
    | Move(name: string, to: string, parent: nat, now: U32)
    | MakeDir(name: string, parent: nat, who: Caller)
    | Update(name: string, payload: Payload, parent: nat, who: Caller)
  {
    predicate Fits() {
      match this
      case Create(_, payload, _, _) => payload.Fits()
      case Update(_, payload, _, _) => payload.Fits()
      case _ => true
    }
  }

  /** The tables of a volume at one moment, and its files. */
  datatype Moment = Moment(fat: Table, own: Ownership, files: Snapshot)

  /** A file has been made on the first free clusters. */
  ghost predicate Made(a: Moment, b: Moment, i: nat, name: string, data: seq<Byte>, parent: nat, who: Caller) {
    && |data| < TWO32 && i < |b.files.dir|
    && SlotAdded(a.files, b.files, i, NewFile(name, |data|, b.files.dir[i].start, parent, who, i), data)
    && Get(b.files.chains, i) == Some(NewChain(a.fat, |data|))
  }

  /** A file is created, or not, and then nothing happens. */
  ghost predicate Creates(a: Moment, b: Moment, r: Status, name: string, payload: Payload, parent: nat, who: Caller) {
    && r == (if payload.Refused? then payload.error else CreateOutcome(true, a.fat, a.files.dir, name, parent, payload.Size()))
    && if r == Ok then payload.Bytes? && exists i: nat :: Made(a, b, i, name, payload.data, parent, who) else b == a
  }

  /** An entry is removed with its chain, or not. */
  ghost predicate Removes(a: Moment, b: Moment, r: Status, name: string, parent: nat) {
    var i := SlotOf(a.files.dir, parent, name);
    && r == DeleteOutcome(a.files.dir, i)
    && if r == Ok then i >= 0 && SlotRemoved(a.files, b.files, i) && b.fat == FreedBy(a.fat, a.own, i) else b == a
  }

  /** An entry is given another name, or not. */
  ghost predicate Renames(a: Moment, b: Moment, r: Status, name: string, to: string, parent: nat, now: U32) {
    var dir, i := a.files.dir, SlotOf(a.files.dir, parent, name);
    && r == RenameOutcome(dir, parent, to, i)
    && if r == Ok then 0 <= i < |dir| && b == a.(files := a.files.(dir := dir[i := dir[i].(name := to, ctime := now)])) else b == a
  }

  /** A directory is made, or not. */
  ghost predicate Mkdirs(a: Moment, b: Moment, r: Status, name: string, parent: nat, who: Caller) {
    var dir := a.files.dir;
    && r == CreateChecks(dir, name, parent)
    && if r == Ok then
         exists i: nat :: 0 < i < |dir| && !dir[i].used && i !in a.files.chains &&
                     b == a.(files := a.files.(dir := dir[i := NewDir(name, parent, who, i)]))
       else b == a
  }

  /** A file is given new bytes, or not; its temporary sibling may go. */
  ghost predicate Updates(a: Moment, b: Moment, r: Status, name: string, payload: Payload, parent: nat, who: Caller) {
    var o, tmp := SlotOf(a.files.dir, parent, name), TmpName(name);
    if o < 0 then Creates(a, b, r, name, payload, parent, who)
    else
      && r == PutOutcome(a.fat, a.files.dir, a.own, tmp, parent, payload)
      && OthersKept(a.files, b.files, o, parent, tmp)
      && if tmp == name then o < |a.files.dir| && (a.files.dir[o].ftype == FT_REGULAR ==> Resolves(b.files.dir, parent, name, -1))
         else if r == Ok then
           && payload.Bytes? && Updated(a.files, b.files, o, payload.data, who.now, o in b.files.intact)
           && Get(b.files.chains, o) == Some(NewChain(WithoutName(a.fat, a.files.dir, a.own, parent, tmp), payload.Size()))
         else SameSlot(a.files, b.files, o)
  }

  /** What a request does between two moments, and answers. */
  ghost predicate Effect(mounted: bool, immutable: bool, q: Request, a: Moment, b: Moment, r: Status) {
    if !mounted || immutable then r != Ok && b == a
    else match q
      case Create(name, payload, parent, who) => Creates(a, b, r, name, payload, parent, who)
      case Remove(name, parent) => Removes(a, b, r, name, parent)
      case Move(name, to, parent, now) => Renames(a, b, r, name, to, parent, now)
      case MakeDir(name, parent, who) => Mkdirs(a, b, r, name, parent, who)
      case Update(name, payload, parent, who) => Updates(a, b, r, name, payload, parent, who)
  }

  /** The moments of a run, from before its first request to after its last. */
  ghost predicate Follows(mounted: bool, immutable: bool, requests: seq<Request>, results: seq<Status>, trace: seq<Moment>) {
    && |results| == |requests| && |trace| == |requests| + 1
    && (forall i :: 0 <= i < |trace| ==> UniqueNames(trace[i].files.dir))
    && (forall i :: 0 <= i < |requests| ==> Effect(mounted, immutable, requests[i], trace[i], trace[i + 1], results[i]))
  }

  lemma DropChainKeys(own: Ownership, i: nat)
    ensures WithoutOwner(own, i).chains == own.chains - {i}
  {
  }

  /** After the exchange the original shows the new bytes and the temporary file has its old chain. */
  lemma SwapLooks(s2: Snapshot, s3: Snapshot, o: nat, t: nat, now: U32)
    requires o < |s2.dir| && t < |s2.dir| && o != t
    requires s3 == SwappedSnapshot(s2, o, t, now)
    ensures |s3.dir| == |s2.dir|
    ensures s3.dir[o].used == s2.dir[o].used && s3.dir[o].name == s2.dir[o].name && s3.dir[o].parent == s2.dir[o].parent
    ensures s3.dir[t].used == s2.dir[t].used && s3.dir[t].name == s2.dir[t].name && s3.dir[t].parent == s2.dir[t].parent
    ensures s3.dir[t].ftype == s2.dir[t].ftype
    ensures Get(s3.bytes, o) == Get(s2.bytes, t) && Get(s3.chains, t) == Get(s2.chains, o)
    ensures Get(s3.chains, o) == Get(s2.chains, t) && (o in s3.intact <==> t in s2.intact)
  {
  }

  /** No request on a file of this size ends past 4 GB. */
  predicate NoneWraps(size: nat, sizes: seq<U32>) { forall i :: 0 <= i < |sizes| ==> size + sizes[i] < TWO32 }

  function Sum(sizes: seq<U32>): nat {
    if sizes == [] then 0 else Sum(sizes[..|sizes| - 1]) + sizes[|sizes| - 1]
  }

  /** Where `n` links of the table lead from a cluster, unless they run into an end or out of the table first. */
  function Follow(fat: Table, start: U32, n: nat): Option<U32> {
    if n == 0 then Some(start)
    else
      var at := Follow(fat, start, n - 1);
      if at == None || at.value == FAT_EOF || at.value >= |fat| then None else Some(fat[at.value])
  }

  lemma {:induction false} LostForGood(fat: Table, start: U32, m: nat, n: nat)
    requires m <= n && Follow(fat, start, m).None?
    ensures Follow(fat, start, n).None?
  {
    if m < n {
      LostForGood(fat, start, m, n - 1);
    }
  }

  /** Along a chain the links lead from each of its clusters to the next, and no further. */
  lemma {:induction false} FollowChain(fat: Table, chain: seq<nat>, n: nat)
    requires IsChain(fat, chain) && |fat| <= MAX_CLUSTERS
    ensures Follow(fat, chain[0], n) ==
            if n < |chain| then Some(chain[n]) else if n == |chain| then Some(FAT_EOF) else None
  {
    if n > 0 {
      FollowChain(fat, chain, n - 1);
    }
  }

  /**
   * A file of one byte on a blank cluster two, whose first sector was refused: everything
   * else was written, and the byte is not there.
   */
  lemma LostByte(store: Store)
    requires store.Keys == {16, 17, 18, 19, 20, 21, 22, 23}
    requires forall s :: s in store ==> store[s] == ZERO_SECTOR
    ensures Written(store, store, 0, [2], [1], CLUSTER_SECTORS, k => k != 0, 0)
    ensures !Stored(store, 0, [2], [1])
  {
    forall k | 0 < k < CLUSTER_SECTORS
      ensures Chunk([1], k) == ZERO_SECTOR
    {
    }
    assert SectorAt(0, [2], 0) == 16;
    assert Chunk([1], 0)[0] == 1 && ZERO_SECTOR[0] == 0;
  }

  /** What the invariant says of one file. */
  lemma FileFacts(fat: Table, dir: Entries, own: Ownership, bytes: map<nat, seq<Byte>>, i: nat)
    requires TablesOk(fat, dir, own, bytes) && i in own.chains
    ensures i < |dir| && IsChain(fat, own.chains[i]) && own.chains[i][0] == dir[i].start
    ensures i in bytes && |bytes[i]| == dir[i].size <= CLUSTER_BYTES * |own.chains[i]|
    ensures CLUSTER_BYTES * |own.chains[i]| <= CLUSTER_BYTES * MAX_CLUSTERS
  {
    ChainDistinct(own, i);
    ChainFits(fat, own.chains[i]);
  }

  /** A chain without repeats is no longer than the table. */
  lemma ChainFits(fat: Table, chain: seq<nat>)
    requires IsChain(fat, chain) && |fat| <= MAX_CLUSTERS
    requires forall i, j :: 0 <= i < j < |chain| ==> chain[i] != chain[j]
    ensures |chain| <= MAX_CLUSTERS
  {
    DistinctCount(chain);
    DataClusterCount(|fat|);
    assert Elements(chain) <= DataClusters(|fat|);
    SubsetCount(Elements(chain), DataClusters(|fat|));
  }

  lemma {:induction false} SubsetCount(a: set<nat>, b: set<nat>)
    requires a <= b
    ensures |a| <= |b|
  {
    assert b == a + (b - a);
  }

  /** The chain a delete walks: the entry's own, without repeats, or nothing. */
  lemma ChainToFree(fat: Table, dir: Entries, own: Ownership, i: nat)
    requires Owned(fat, own) && OwnersAreEntries(dir, own.chains) && i < |dir| && dir[i].used
    ensures i in own.chains ==> IsChain(fat, own.chains[i]) && dir[i].start == own.chains[i][0] && |fat| <= MAX_CLUSTERS
    ensures i in own.chains ==> forall j, k :: 0 <= j < k < |own.chains[i]| ==> own.chains[i][j] != own.chains[i][k]
    ensures i !in own.chains ==> dir[i].start == FAT_FREE
  {
    if i in own.chains {
      ChainDistinct(own, i);
    }
  }

  /** Of `n` sectors from `base`, those whose writes were refused are as before and the others hold the contents from the `k`-th sector on. */
  ghost predicate RunWritten(before: Store, after: Store, base: nat, n: nat, bytes: seq<Byte>, k: nat, answers: Answers, asked: nat) {
    forall t: nat :: base <= t < base + n ==>
      t in before && t in after && after[t] == if answers(asked + (t - base)) then Chunk(bytes, k + (t - base)) else before[t]
  }

  lemma RunStarts(store: Store, base: nat, bytes: seq<Byte>, k: nat, answers: Answers, asked: nat)
    ensures RunWritten(store, store, base, 0, bytes, k, answers, asked)
  {
  }

  /** One more sector of a run has been offered. */
  lemma RunGrows(first: Store, before: Store, after: Store, base: nat, n: nat, bytes: seq<Byte>, k: nat, answers: Answers, asked: nat)
    requires RunWritten(first, before, base, n, bytes, k, answers, asked)
    requires base + n in first && base + n in before && before[base + n] == first[base + n]
    requires after == if answers(asked + n) then before[base + n := Chunk(bytes, k + n)] else before
    ensures RunWritten(first, after, base, n + 1, bytes, k, answers, asked)
  {
    hide Chunk;
  }

  /** The buffer a write loop fills: the next bytes of the contents, then zeros. */
  lemma IsChunk(content: seq<Byte>, k: nat, total: nat, n: nat, buf: Sector)
    requires total == Min(SECTOR_SIZE * k, |content|) && n == Min(SECTOR_SIZE, |content| - total)
    requires buf == content[total..total + n] + seq(SECTOR_SIZE - n, _ => 0)
    ensures buf == Chunk(content, k)
  {
  }

  /** One sector's worth of a read of a stored file. */
  lemma SectorShows(store: Store, dataStart: nat, chain: seq<nat>, content: seq<Byte>, c: nat, at: nat, n: nat, buf: Sector,
                    answers: Answers, asked: nat)
    requires Stored(store, dataStart, chain, content) && c < |chain| && at < CLUSTER_BYTES && at % SECTOR_SIZE + n <= SECTOR_SIZE
    requires var s := ClusterToSector(dataStart, chain[c]) + at / SECTOR_SIZE; s in store && (answers(asked) ==> buf == store[s])
    ensures Shows(buf[at % SECTOR_SIZE..at % SECTOR_SIZE + n], content, CLUSTER_BYTES * c + at, answers, asked)
  {
    var b := CLUSTER_BYTES * c + at;
    assert b / SECTOR_SIZE == CLUSTER_SECTORS * c + at / SECTOR_SIZE && b % SECTOR_SIZE == at % SECTOR_SIZE;
    assert SectorAt(dataStart, chain, b / SECTOR_SIZE) == ClusterToSector(dataStart, chain[c]) + at / SECTOR_SIZE;
    hide Chunk, Shows;
    ChunkShows(content, b, n, buf, answers, asked);
  }

  lemma NoAccesses(from: nat)
    ensures Accesses(from, 0) == 0
  {
  }

  /** One turn of the read loop asks for one sector. */
  lemma OneAccess(c: nat, from: nat, done: nat, n: nat)
    requires n > 0 && (from + done) % SECTOR_SIZE + n <= SECTOR_SIZE
    ensures Accesses(CLUSTER_BYTES * c + from + done, n) == 1
    ensures (CLUSTER_BYTES * c + from + done) % SECTOR_SIZE == (from + done) % SECTOR_SIZE
  {
    ClustersAreSectors(c, from + done);
    WithinOneSector(CLUSTER_BYTES * c + from + done, n);
  }

  lemma ClustersAreSectors(c: nat, x: nat)
    ensures (CLUSTER_BYTES * c + x) % SECTOR_SIZE == x % SECTOR_SIZE
  {
    var q, r := x / SECTOR_SIZE, x % SECTOR_SIZE;
    assert CLUSTER_BYTES * c + x == SECTOR_SIZE * (CLUSTER_SECTORS * c + q) + r;
    Remainder(CLUSTER_SECTORS * c + q, r);
  }

  lemma Remainder(q: nat, r: nat)
    requires r < SECTOR_SIZE
    ensures (SECTOR_SIZE * q + r) % SECTOR_SIZE == r && (SECTOR_SIZE * q + r) / SECTOR_SIZE == q
  {
  }

  lemma WithinOneSector(b: nat, n: nat)
    requires n > 0 && b % SECTOR_SIZE + n <= SECTOR_SIZE
    ensures Accesses(b, n) == 1
  {
    var q, r := b / SECTOR_SIZE, b % SECTOR_SIZE;
    assert b + n - 1 == SECTOR_SIZE * q + (r + n - 1);
    Remainder(q, r + n - 1);
  }

  /** Between clusters a read stands at the end of a sector. */
  lemma ClusterEnds(at: nat, done: nat, c: nat, from: nat)
    requires at + done == CLUSTER_BYTES * c + from && (done == 0 || from == 0)
    ensures done == 0 || (at + done) % SECTOR_SIZE == 0
  {
  }

  /** Of the first `n` sectors of a chain, those whose writes were refused are as before and the others hold their share. */
  ghost predicate Written(before: Store, after: Store, dataStart: nat, chain: seq<nat>, bytes: seq<Byte>, n: nat, answers: Answers, asked: nat) {
    forall k :: 0 <= k < n && k < CLUSTER_SECTORS * |chain| ==>
      var s := SectorAt(dataStart, chain, k);
      s in before && s in after && after[s] == if answers(asked + k) then Chunk(bytes, k) else before[s]
  }

  lemma WrittenStarts(store: Store, dataStart: nat, chain: seq<nat>, bytes: seq<Byte>, answers: Answers, asked: nat)
    ensures Written(store, store, dataStart, chain, bytes, 0, answers, asked) && Touches(store, store, dataStart, chain[..0])
  {
  }

  /** The sectors whose writes are refused hold their share of the contents already. */
  ghost predicate Held(store: Store, dataStart: nat, chain: seq<nat>, bytes: seq<Byte>, answers: Answers, asked: nat) {
    forall k :: 0 <= k < CLUSTER_SECTORS * |chain| && !answers(asked + k) ==>
      SectorAt(dataStart, chain, k) in store && store[SectorAt(dataStart, chain, k)] == Chunk(bytes, k)
  }

  /** A chain written over holds the contents exactly if the sectors refused held their share already. */
  lemma WrittenIsStored(before: Store, after: Store, dataStart: nat, chain: seq<nat>, bytes: seq<Byte>, answers: Answers, asked: nat)
    requires |bytes| <= CLUSTER_BYTES * |chain|
    requires Written(before, after, dataStart, chain, bytes, CLUSTER_SECTORS * |chain|, answers, asked)
    ensures Stored(after, dataStart, chain, bytes) <==> Held(before, dataStart, chain, bytes, answers, asked)
  {
  }

  /** Writing the next cluster of a chain leaves the earlier ones as they were. */
  lemma WrittenGrows(first: Store, before: Store, after: Store, dataStart: nat, chain: seq<nat>, bytes: seq<Byte>, c: nat,
                     answers: Answers, asked: nat)
    requires c < |chain| && Written(first, before, dataStart, chain, bytes, CLUSTER_SECTORS * c, answers, asked)
    requires forall i, j :: 0 <= i < j < |chain| ==> chain[i] != chain[j]
    requires Touches(first, before, dataStart, chain[..c]) && Touches(before, after, dataStart, [chain[c]])
    requires RunWritten(before, after, ClusterToSector(dataStart, chain[c]), CLUSTER_SECTORS, bytes, CLUSTER_SECTORS * c,
                        answers, asked + CLUSTER_SECTORS * c)
    ensures Written(first, after, dataStart, chain, bytes, CLUSTER_SECTORS * (c + 1), answers, asked)
    ensures Touches(first, after, dataStart, chain[..c + 1])
  {
    assert Touches(first, after, dataStart, chain[..c + 1]) by {
      assert chain[..c + 1] == chain[..c] + [chain[c]];
    }
    hide Chunk, OnChain, Touches, RunWritten, SectorAt, ClusterToSector;
    forall k | 0 <= k < CLUSTER_SECTORS * (c + 1)
      ensures var s := SectorAt(dataStart, chain, k);
              s in first && s in after && after[s] == if answers(asked + k) then Chunk(bytes, k) else first[s]
    {
      OnItsCluster(dataStart, chain, k, c);
      if k >= CLUSTER_SECTORS * c {
        WrittenNow(first, before, after, dataStart, chain, bytes, c, answers, asked, k);
      } else {
        KeptElsewhere(before, after, dataStart, [chain[c]], SectorAt(dataStart, chain, k));
      }
    }
  }

  lemma KeptElsewhere(before: Store, after: Store, dataStart: nat, chain: seq<nat>, s: nat)
    requires Touches(before, after, dataStart, chain) && s in before && !OnChain(dataStart, chain, s)
    ensures s in after && after[s] == before[s]
  {
  }

  /** A sector of the cluster just written. */
  lemma WrittenNow(first: Store, before: Store, after: Store, dataStart: nat, chain: seq<nat>, bytes: seq<Byte>, c: nat,
                   answers: Answers, asked: nat, k: nat)
    requires c < |chain| && CLUSTER_SECTORS * c <= k < CLUSTER_SECTORS * (c + 1)
    requires Touches(first, before, dataStart, chain[..c]) && !OnChain(dataStart, chain[..c], SectorAt(dataStart, chain, k))
    requires RunWritten(before, after, ClusterToSector(dataStart, chain[c]), CLUSTER_SECTORS, bytes, CLUSTER_SECTORS * c,
                        answers, asked + CLUSTER_SECTORS * c)
    ensures var s := SectorAt(dataStart, chain, k);
            s in first && s in after && after[s] == if answers(asked + k) then Chunk(bytes, k) else first[s]
  {
    hide Chunk, OnChain;
    assert SectorAt(dataStart, chain, k) == ClusterToSector(dataStart, chain[c]) + (k - CLUSTER_SECTORS * c);
  }

  /** Between two stores of the same extent only sectors of a chain differ. */
  ghost predicate Touches(before: Store, after: Store, dataStart: nat, chain: seq<nat>) {
    && before.Keys == after.Keys
    && (forall s: nat :: s in before && !OnChain(dataStart, chain, s) ==> after[s] == before[s])
  }

  /** The sectors before cluster `c` of a chain are not on it, and those of it are not on earlier ones. */
  lemma OnItsCluster(dataStart: nat, chain: seq<nat>, k: nat, c: nat)
    requires c < |chain| && k < CLUSTER_SECTORS * (c + 1)
    requires forall i, j :: 0 <= i < j < |chain| ==> chain[i] != chain[j]
    ensures k / CLUSTER_SECTORS < |chain|
    ensures k < CLUSTER_SECTORS * c ==> !OnChain(dataStart, [chain[c]], SectorAt(dataStart, chain, k))
    ensures k >= CLUSTER_SECTORS * c ==> !OnChain(dataStart, chain[..c], SectorAt(dataStart, chain, k))
  {
    SectorIsOnChain(dataStart, chain, k);
  }

  lemma NothingFreeYet(table: Table)
    requires FIRST_DATA_CLUSTER < |table|
    ensures FreeBelow(table, FIRST_DATA_CLUSTER) == [] && Linked(table, table, [])
  {
    assert FreeBelow(table, 0) == [] && FreeBelow(table, 1) == [];
  }

  /** What the scan of the table finds at its next cluster. */
  lemma NextFree(table: Table, fat: Table, i: nat)
    requires FIRST_DATA_CLUSTER <= i < |table| && Linked(table, fat, FreeBelow(table, i))
    ensures |fat| == |table| && fat[i] == table[i]
    ensures FreeBelow(table, i + 1) == if fat[i] == FAT_FREE then FreeBelow(table, i) + [i] else FreeBelow(table, i)
    ensures forall j :: 0 <= j < |FreeBelow(table, i)| ==> FreeBelow(table, i)[j] < i
  {
    FreeBelowSpec(table, i);
    assert i !in FreeBelow(table, i);
  }

  lemma LinkedInside(table: Table, fat: Table, chain: seq<nat>)
    requires Linked(table, fat, chain)
    ensures forall j :: 0 <= j < |chain| ==> chain[j] < |fat|
  {
  }

  /** Appending one more free cluster to the chain under construction. */
  lemma LinkedExtend(table: Table, before: Table, after: Table, chain: seq<nat>, i: nat)
    requires |table| == |before| == |after| <= MAX_CLUSTERS
    requires Linked(table, before, chain)
    requires FIRST_DATA_CLUSTER <= i < |table|
    requires forall j :: 0 <= j < |chain| ==> chain[j] < i
    requires after == (if chain == [] then before else before[chain[|chain| - 1] := i])[i := FAT_EOF]
    ensures Linked(table, after, chain + [i])
  {
    var grown := chain + [i];
    if chain != [] {
      LastOnly(before, chain);
      forall j | 0 <= j < |chain|
        ensures after[grown[j]] == grown[j + 1]
      {
        assert chain[j] != i;
        assert j < |chain| - 1 ==> before[chain[j]] == chain[j + 1];
      }
    }
  }

  /** Only the last cluster of a chain carries the end mark. */
  lemma LastOnly(fat: Table, chain: seq<nat>)
    requires |fat| <= MAX_CLUSTERS && IsChain(fat, chain)
    ensures forall j :: 0 <= j < |chain| - 1 ==> chain[j] != chain[|chain| - 1]
  {
    forall j | 0 <= j < |chain| - 1
      ensures chain[j] != chain[|chain| - 1]
    {
      assert fat[chain[j]] == chain[j + 1];
    }
  }
}
