/**
 * The write-back block cache (fs/bcache.c) above the block layer (drivers/blockdev.c).
 *
 * A device is an oracle: a read it accepts returns what the medium holds, a write it
 * accepts stores the bytes, and a write it refuses may leave that one sector holding
 * anything. `contents` is the abstract state: what the last accepted write to every
 * sector was. The cache must never let a device failure show through it.
 */
module BlockCache {
  import opened Common

  const CACHE_SIZE: nat := 64
  const DIRTY_HIGH_WATER: nat := CACHE_SIZE / 2
  const FLUSH_INTERVAL_TICKS: nat := 500

  /** A device descriptor; handlers may be missing. */
  datatype Device = Device(sectorSize: nat, sectorCount: nat, canRead: bool, canWrite: bool)

  /** A device pointer: zero is the null pointer. */
  type DevPtr = nat

  datatype Key = Key(dev: DevPtr, sector: nat)

  datatype Slot = Slot(valid: bool, dirty: bool, dev: DevPtr, sector: nat, data: Sector, lastAccess: U32)

  function KeyOf(s: Slot): Key { Key(s.dev, s.sector) }

  // ---- Request validation --------------------------------------------------------

  function CheckRequest(devs: map<DevPtr, Device>, dev: DevPtr, lba: nat): Status
    requires dev == 0 || dev in devs
  {
    if dev == 0 then NoDev
    else if lba >= devs[dev].sectorCount then Inval
    else Ok
  }

  function CheckRead(devs: map<DevPtr, Device>, dev: DevPtr, lba: nat, buf: Option<Sector>): Status
    requires dev == 0 || dev in devs
  {
    var res := CheckRequest(devs, dev, lba);
    if res != Ok then res
    else if buf.None? then Inval
    else if !devs[dev].canRead then NoDev
    else Ok
  }

  function CheckWrite(devs: map<DevPtr, Device>, dev: DevPtr, lba: nat, buf: Option<Sector>): Status
    requires dev == 0 || dev in devs
  {
    var res := CheckRequest(devs, dev, lba);
    if res != Ok then res
    else if buf.None? then Inval
    else if !devs[dev].canWrite then Rofs
    else Ok
  }

  /** What the cache itself adds to a check: only 512-byte sectors fit a slot. */
  function Admit(devs: map<DevPtr, Device>, dev: DevPtr, check: Status): Status
    requires check == Ok ==> dev in devs
  {
    if check != Ok then check
    else if devs[dev].sectorSize != SECTOR_SIZE then Inval
    else Ok
  }

  // ---- The coupling between slots, media and contents ----------------------------

  /** Two valid slots never hold the same sector. */
  ghost predicate DistinctKeys(slots: seq<Slot>) {
    forall i, j :: 0 <= i < j < |slots| && slots[i].valid && slots[j].valid ==> KeyOf(slots[i]) != KeyOf(slots[j])
  }

  ghost predicate DirtyAt(slots: seq<Slot>, k: Key) {
    exists i :: 0 <= i < |slots| && slots[i].dirty && KeyOf(slots[i]) == k
  }

  ghost predicate Cached(slots: seq<Slot>, k: Key) {
    exists i :: 0 <= i < |slots| && slots[i].valid && KeyOf(slots[i]) == k
  }

  /**
   * The invariant of the cache: dirty slots are valid, valid slots show `contents`, clean
   * ones agree with the medium, and the medium disagrees with `contents` only under a
   * dirty slot.
   */
  ghost predicate Coupled(slots: seq<Slot>, media: map<Key, Sector>, contents: map<Key, Sector>) {
    && media.Keys == contents.Keys
    && DistinctKeys(slots)
    && (forall i :: 0 <= i < |slots| && slots[i].dirty ==> slots[i].valid)
    && (forall i :: 0 <= i < |slots| && slots[i].valid ==>
          KeyOf(slots[i]) in contents && contents[KeyOf(slots[i])] == slots[i].data)
    && (forall i :: 0 <= i < |slots| && slots[i].valid && !slots[i].dirty ==>
          KeyOf(slots[i]) in media && media[KeyOf(slots[i])] == slots[i].data)
    && (forall k :: k in media && media[k] != contents[k] ==> DirtyAt(slots, k))
  }

  /** A sector that no slot holds is on the medium exactly as last written. */
  lemma UncachedIsOnMedium(slots: seq<Slot>, media: map<Key, Sector>, contents: map<Key, Sector>, k: Key)
    requires Coupled(slots, media, contents) && k in media
    requires !Cached(slots, k)
    ensures media[k] == contents[k]
  {
    assert !DirtyAt(slots, k) by {
      assert forall i :: 0 <= i < |slots| && slots[i].dirty ==> slots[i].valid;
    }
  }

  /** With nothing dirty, the medium is the abstract state. */
  lemma CleanMeansDurable(slots: seq<Slot>, media: map<Key, Sector>, contents: map<Key, Sector>)
    requires Coupled(slots, media, contents)
    requires forall i :: 0 <= i < |slots| ==> !slots[i].dirty
    ensures media == contents
  {
    forall k | k in media
      ensures media[k] == contents[k]
    {
      assert !DirtyAt(slots, k);
    }
  }

  lemma DirtyIsValid(slots: seq<Slot>, media: map<Key, Sector>, contents: map<Key, Sector>, i: int)
    requires Coupled(slots, media, contents) && 0 <= i < |slots|
    ensures slots[i].dirty ==> slots[i].valid
  {
  }

  /** A device none of whose sectors is cached holds everything ever written to it. */
  lemma ReleasedIsDurable(slots: seq<Slot>, media: map<Key, Sector>, contents: map<Key, Sector>, dev: DevPtr)
    requires Coupled(slots, media, contents)
    requires forall i :: 0 <= i < |slots| ==> !Holds(slots[i], dev)
    ensures forall k :: k in media && k.dev == dev ==> k in contents && media[k] == contents[k]
  {
    forall k | k in media && k.dev == dev
      ensures k in contents && media[k] == contents[k]
    {
      UncachedIsOnMedium(slots, media, contents, k);
    }
  }

  /** The device took a slot's bytes. */
  lemma WriteBackKeeps(slots: seq<Slot>, media: map<Key, Sector>, contents: map<Key, Sector>, i: int)
    requires Coupled(slots, media, contents)
    requires 0 <= i < |slots| && slots[i].valid
    ensures Coupled(slots[i := slots[i].(dirty := false)], media[KeyOf(slots[i]) := slots[i].data], contents)
  {
    var slots' := slots[i := slots[i].(dirty := false)];
    var media' := media[KeyOf(slots[i]) := slots[i].data];
    forall k | k in media' && media'[k] != contents[k]
      ensures DirtyAt(slots', k)
    {
      assert DirtyAt(slots, k);
      var j :| 0 <= j < |slots| && slots[j].dirty && KeyOf(slots[j]) == k;
      assert slots'[j].dirty && KeyOf(slots'[j]) == k;
    }
  }

  /** The device refused a dirty slot's bytes and damaged the sector: nothing is lost. */
  lemma RefusalKeeps(slots: seq<Slot>, media: map<Key, Sector>, contents: map<Key, Sector>, i: int, junk: Sector)
    requires Coupled(slots, media, contents)
    requires 0 <= i < |slots| && slots[i].dirty
    ensures Coupled(slots, media[KeyOf(slots[i]) := junk], contents)
  {
    var media' := media[KeyOf(slots[i]) := junk];
    forall k | k in media' && media'[k] != contents[k]
      ensures DirtyAt(slots, k)
    {
      assert slots[i].dirty;
    }
    forall j | 0 <= j < |slots| && slots[j].valid && !slots[j].dirty
      ensures KeyOf(slots[j]) in media' && media'[KeyOf(slots[j])] == slots[j].data
    {
      assert KeyOf(slots[j]) != KeyOf(slots[i]);
    }
  }

  /** A slot that is not dirty may be dropped. */
  lemma DropKeeps(slots: seq<Slot>, media: map<Key, Sector>, contents: map<Key, Sector>, i: int, s: Slot)
    requires Coupled(slots, media, contents)
    requires 0 <= i < |slots| && !slots[i].dirty && !s.valid && !s.dirty
    ensures Coupled(slots[i := s], media, contents)
  {
    forall k | k in media && media[k] != contents[k]
      ensures DirtyAt(slots[i := s], k)
    {
      assert DirtyAt(slots, k);
      var j :| 0 <= j < |slots| && slots[j].dirty && KeyOf(slots[j]) == k;
      assert slots[i := s][j] == slots[j];
    }
  }

  /** A slot that is not dirty may be refilled from the medium with an uncached sector. */
  lemma FillKeeps(slots: seq<Slot>, media: map<Key, Sector>, contents: map<Key, Sector>, i: int, s: Slot)
    requires Coupled(slots, media, contents)
    requires 0 <= i < |slots| && !slots[i].dirty
    requires s.valid && !s.dirty && KeyOf(s) in media && s.data == media[KeyOf(s)]
    requires !Cached(slots, KeyOf(s))
    ensures Coupled(slots[i := s], media, contents)
  {
    UncachedIsOnMedium(slots, media, contents, KeyOf(s));
    var slots' := slots[i := s];
    forall j, l | 0 <= j < l < |slots'| && slots'[j].valid && slots'[l].valid
      ensures KeyOf(slots'[j]) != KeyOf(slots'[l])
    {
      assert j != i ==> slots[j].valid;
      assert l != i ==> slots[l].valid;
    }
    forall k | k in media && media[k] != contents[k]
      ensures DirtyAt(slots', k)
    {
      assert DirtyAt(slots, k);
      var j :| 0 <= j < |slots| && slots[j].dirty && KeyOf(slots[j]) == k;
      assert slots'[j] == slots[j];
    }
  }

  /** A write is accepted into the slot that holds its sector, or into one not dirty. */
  lemma AcceptKeeps(slots: seq<Slot>, media: map<Key, Sector>, contents: map<Key, Sector>, i: int, s: Slot)
    requires Coupled(slots, media, contents)
    requires 0 <= i < |slots|
    requires s.valid && s.dirty && KeyOf(s) in media
    requires (slots[i].valid && KeyOf(slots[i]) == KeyOf(s)) || (!slots[i].dirty && !Cached(slots, KeyOf(s)))
    ensures Coupled(slots[i := s], media, contents[KeyOf(s) := s.data])
  {
    var slots' := slots[i := s];
    var contents' := contents[KeyOf(s) := s.data];
    forall j | 0 <= j < |slots| && j != i && slots[j].valid
      ensures KeyOf(slots[j]) != KeyOf(s)
    {
      assert Cached(slots, KeyOf(slots[j]));
    }
    forall k | k in media && media[k] != contents'[k]
      ensures DirtyAt(slots', k)
    {
      if k == KeyOf(s) {
        assert slots'[i].dirty;
      } else {
        assert DirtyAt(slots, k);
        var j :| 0 <= j < |slots| && slots[j].dirty && KeyOf(slots[j]) == k;
        assert slots'[j].dirty && KeyOf(slots'[j]) == k;
      }
    }
  }

  /** A flush changes slots only by cleaning them. */
  ghost predicate OnlyCleaned(before: seq<Slot>, after: seq<Slot>) {
    |before| == |after| &&
    forall i :: 0 <= i < |before| ==>
      after[i] == before[i] || (before[i].dirty && after[i] == before[i].(dirty := false))
  }

  predicate Holds(s: Slot, dev: DevPtr) { s.valid && s.dev == dev }

  // ---- The dirty counter ---------------------------------------------------------

  ghost function CountDirty(slots: seq<Slot>): nat {
    if slots == [] then 0
    else CountDirty(slots[..|slots| - 1]) + if slots[|slots| - 1].dirty then 1 else 0
  }

  lemma {:induction false} CountDirtyUpdate(slots: seq<Slot>, i: int, s: Slot)
    requires 0 <= i < |slots|
    ensures CountDirty(slots[i := s]) ==
            CountDirty(slots) + (if s.dirty then 1 else 0) - (if slots[i].dirty then 1 else 0)
  {
    var n := |slots| - 1;
    if i == n {
      assert slots[i := s][..n] == slots[..n];
    } else {
      assert slots[i := s][..n] == slots[..n][i := s];
      CountDirtyUpdate(slots[..n], i, s);
    }
  }

  lemma {:induction false} CountDirtyZero(slots: seq<Slot>)
    ensures CountDirty(slots) == 0 <==> forall i :: 0 <= i < |slots| ==> !slots[i].dirty
  {
    if slots != [] {
      var n := |slots| - 1;
      CountDirtyZero(slots[..n]);
      assert forall i :: 0 <= i < n ==> slots[..n][i] == slots[i];
    }
  }

  /** With every slot dirty but one, some are. */
  lemma StillDirty(before: seq<Slot>, after: seq<Slot>, r: int)
    requires |after| == |before| == CACHE_SIZE && forall i :: 0 <= i < CACHE_SIZE ==> before[i].dirty
    requires forall i :: 0 <= i < CACHE_SIZE && i != r ==> after[i] == before[i]
    ensures CountDirty(after) > 0
  {
    CountDirtyZero(after);
    assert after[if r == 0 then 1 else 0].dirty;
  }

  /** The sectors whose last accepted write has not reached its device. */
  ghost function OffMedium(media: map<Key, Sector>, contents: map<Key, Sector>): set<Key> {
    set k | k in media && (k !in contents || media[k] != contents[k])
  }

  ghost function DirtyKeys(slots: seq<Slot>): set<Key> { set i | 0 <= i < |slots| && slots[i].dirty :: KeyOf(slots[i]) }

  lemma {:induction false} FewDirtyKeys(slots: seq<Slot>)
    ensures |DirtyKeys(slots)| <= CountDirty(slots)
  {
    if slots != [] {
      var n := |slots| - 1;
      FewDirtyKeys(slots[..n]);
      var last := if slots[n].dirty then {KeyOf(slots[n])} else {};
      forall k
        ensures k in DirtyKeys(slots) <==> k in DirtyKeys(slots[..n]) + last
      {
        if k in DirtyKeys(slots[..n]) {
          var i :| 0 <= i < n && slots[..n][i].dirty && KeyOf(slots[..n][i]) == k;
          assert slots[i].dirty && KeyOf(slots[i]) == k;
        }
        if k in DirtyKeys(slots) {
          var i :| 0 <= i <= n && slots[i].dirty && KeyOf(slots[i]) == k;
          assert i < n ==> slots[..n][i].dirty && KeyOf(slots[..n][i]) == k;
        }
      }
      assert DirtyKeys(slots) == DirtyKeys(slots[..n]) + last;
    }
  }

  lemma {:induction false} NoLarger(a: set<Key>, b: set<Key>)
    requires a <= b
    ensures |a| <= |b|
    decreases |a|
  {
    if a != {} {
      var k :| k in a;
      NoLarger(a - {k}, b - {k});
    }
  }

  /** They are no more than there are dirty slots. */
  lemma FewOffMedium(slots: seq<Slot>, media: map<Key, Sector>, contents: map<Key, Sector>)
    requires Coupled(slots, media, contents)
    ensures |OffMedium(media, contents)| <= CountDirty(slots)
  {
    FewDirtyKeys(slots);
    forall k | k in OffMedium(media, contents)
      ensures k in DirtyKeys(slots)
    {
      assert DirtyAt(slots, k);
    }
    NoLarger(OffMedium(media, contents), DirtyKeys(slots));
  }

  // ---- What a request does to the slots -----------------------------------------------

  /** A slot as it was, or written back. */
  predicate Kept(before: Slot, after: Slot) { after == before || after == before.(dirty := false) }

  /** Slot `i` holds the sector, used at this tick; every other slot is as it was, or written back. */
  ghost predicate UsedAt(before: seq<Slot>, after: seq<Slot>, i: int, k: Key, ticks: U32) {
    && |after| == |before| && 0 <= i < |after|
    && after[i].valid && KeyOf(after[i]) == k && after[i].lastAccess == ticks
    && forall j :: 0 <= j < |after| && j != i ==> Kept(before[j], after[j])
  }

  ghost predicate Used(before: seq<Slot>, after: seq<Slot>, k: Key, ticks: U32) {
    exists i :: UsedAt(before, after, i, k, ticks)
  }

  lemma UsedByTouch(before: seq<Slot>, after: seq<Slot>, i: int, k: Key, ticks: U32)
    requires 0 <= i < |before| && before[i].valid && KeyOf(before[i]) == k && after == before[i := before[i].(lastAccess := ticks)]
    ensures UsedAt(before, after, i, k, ticks)
  {
  }

  lemma UsedAfterEviction(before: seq<Slot>, middle: seq<Slot>, after: seq<Slot>, i: int, k: Key, ticks: U32)
    requires 0 <= i < |before| && (middle == before || middle == before[i := before[i].(dirty := false)])
    requires UsedAt(middle, after, i, k, ticks)
    ensures UsedAt(before, after, i, k, ticks)
  {
  }

  lemma UsedThenCleaned(before: seq<Slot>, middle: seq<Slot>, after: seq<Slot>, i: int, k: Key, ticks: U32)
    requires UsedAt(before, middle, i, k, ticks) && OnlyCleaned(middle, after)
    ensures UsedAt(before, after, i, k, ticks)
  {
  }

  // ---- Eviction order ------------------------------------------------------------

  /** Ticks since a slot was last used, in wrapping 32-bit arithmetic. */
  function Age(ticks: U32, s: Slot): U32 { Sub32(ticks, s.lastAccess) }

  /** Slot `i` is tried for eviction before slot `j`: older, or equally old and earlier. */
  predicate Before(ticks: U32, slots: seq<Slot>, i: int, j: int)
    requires 0 <= i < |slots| && 0 <= j < |slots|
  {
    Age(ticks, slots[i]) > Age(ticks, slots[j]) ||
    (Age(ticks, slots[i]) == Age(ticks, slots[j]) && i < j)
  }

  /** The slots a failed eviction attempt refused before settling on slot `r`. */
  ghost predicate TriedBefore(ticks: U32, slots: seq<Slot>, refused: set<int>, r: int)
    requires 0 <= r < |slots|
  {
    forall i :: i in refused <==> 0 <= i < |slots| && Before(ticks, slots, i, r)
  }

  ghost predicate IsOldestUntried(ticks: U32, slots: seq<Slot>, tried: seq<bool>, r: int)
    requires |tried| == |slots|
  {
    0 <= r < |slots| && !tried[r] &&
    forall j :: 0 <= j < |slots| && j != r && !tried[j] ==> Before(ticks, slots, r, j)
  }

  /** Eviction has tried an initial stretch of the age order. */
  ghost predicate TriedOldestFirst(ticks: U32, slots: seq<Slot>, tried: seq<bool>, refused: set<int>)
    requires |tried| == |slots|
  {
    && (forall i :: i in refused <==> 0 <= i < |slots| && tried[i])
    && (forall i, j :: 0 <= i < |slots| && 0 <= j < |slots| && tried[i] && !tried[j] ==> Before(ticks, slots, i, j))
  }

  /** The oldest slot not yet tried is the next one in age order. */
  lemma NextInOrder(ticks: U32, slots: seq<Slot>, tried: seq<bool>, refused: set<int>, r: int)
    requires |tried| == |slots|
    requires TriedOldestFirst(ticks, slots, tried, refused) && IsOldestUntried(ticks, slots, tried, r)
    ensures TriedBefore(ticks, slots, refused, r)
    ensures r !in refused && TriedOldestFirst(ticks, slots, tried[r := true], refused + {r})
  {
  }

  // ---- Histories -----------------------------------------------------------------

  /** A request that succeeded. */
  datatype Event = ReadDone(k: Key, data: Sector) | WriteTaken(k: Key, data: Sector)

  /** The abstract store after a history. */
  ghost function Replay(start: map<Key, Sector>, history: seq<Event>): map<Key, Sector> {
    if history == [] then start
    else
      var before := Replay(start, history[..|history| - 1]);
      match history[|history| - 1]
      case ReadDone(_, _) => before
      case WriteTaken(k, data) => before[k := data]
  }

  /** Every read in the history returned what the store held when it was served. */
  ghost predicate Honest(start: map<Key, Sector>, history: seq<Event>) {
    forall j :: 0 <= j < |history| && history[j].ReadDone? ==>
      history[j].k in Replay(start, history[..j]) &&
      Replay(start, history[..j])[history[j].k] == history[j].data
  }

  lemma HonestExtend(start: map<Key, Sector>, history: seq<Event>, e: Event)
    requires Honest(start, history)
    requires e.ReadDone? ==> e.k in Replay(start, history) && Replay(start, history)[e.k] == e.data
    ensures Honest(start, history + [e])
    ensures Replay(start, history + [e]) ==
            match e case ReadDone(_, _) => Replay(start, history)
                    case WriteTaken(k, data) => Replay(start, history)[k := data]
  {
    var h := history + [e];
    assert h[..|h| - 1] == history;
    forall j | 0 <= j < |h| && h[j].ReadDone?
      ensures h[j].k in Replay(start, h[..j]) && Replay(start, h[..j])[h[j].k] == h[j].data
    {
      assert h[..j] == history[..j];
      if j == |history| {
        assert history[..j] == history;
      }
    }
  }

  /** The last write a history accepted for a sector is what the store holds. */
  lemma {:induction false} ReplayIsLastWrite(start: map<Key, Sector>, history: seq<Event>, i: int)
    requires 0 <= i < |history| && history[i].WriteTaken?
    requires forall j :: i < j < |history| && history[j].WriteTaken? ==> history[j].k != history[i].k
    ensures history[i].k in Replay(start, history)
    ensures Replay(start, history)[history[i].k] == history[i].data
  {
    var n := |history| - 1;
    if i < n {
      ReplayIsLastWrite(start, history[..n], i);
    }
  }

  /** A sector a history never wrote still holds what it started with. */
  lemma {:induction false} ReplayUntouched(start: map<Key, Sector>, history: seq<Event>, k: Key)
    requires k in start
    requires forall j :: 0 <= j < |history| && history[j].WriteTaken? ==> history[j].k != k
    ensures k in Replay(start, history) && Replay(start, history)[k] == start[k]
  {
    if history != [] {
      ReplayUntouched(start, history[..|history| - 1], k);
    }
  }

  /**
   * What an honest history promises a reader: the read at `j` returned the data of the last
   * write to that sector before it, or the initial contents when there was none.
   */
  lemma ReadReturnsLastWrite(start: map<Key, Sector>, history: seq<Event>, j: int)
    requires Honest(start, history)
    requires 0 <= j < |history| && history[j].ReadDone?
    ensures forall i :: 0 <= i < j && history[i].WriteTaken? && history[i].k == history[j].k &&
                        (forall m :: i < m < j && history[m].WriteTaken? ==> history[m].k != history[i].k) ==>
                        history[j].data == history[i].data
    ensures history[j].k in start &&
            (forall m :: 0 <= m < j && history[m].WriteTaken? ==> history[m].k != history[j].k) ==>
            history[j].data == start[history[j].k]
  {
    var h := history[..j];
    forall i | 0 <= i < j && history[i].WriteTaken? && history[i].k == history[j].k &&
               (forall m :: i < m < j && history[m].WriteTaken? ==> history[m].k != history[i].k)
      ensures history[j].data == history[i].data
    {
      assert h[i] == history[i];
      ReplayIsLastWrite(start, h, i);
    }
    if history[j].k in start &&
       (forall m :: 0 <= m < j && history[m].WriteTaken? ==> history[m].k != history[j].k) {
      ReplayUntouched(start, h, history[j].k);
    }
  }

  /** A request a client can make. */
  datatype Request =
    | Read(dev: DevPtr, sector: nat, buf: Option<Sector>)
    | Write(dev: DevPtr, sector: nat, buf: Option<Sector>, now: U32)
    | Sync
    | Unmount(dev: DevPtr)
    | Yield(now: U32)

  // ---- The cache itself ----------------------------------------------------------

  class Cache {
    const devs: map<DevPtr, Device>
    const slots: array<Slot>
    /** What the devices will answer to the accesses they get, in order, and how many they have had. */
    const replies: nat -> Status
    var accesses: nat
    var media: map<Key, Sector>
    var ticks: U32
    var dirtyCount: nat
    var oldestDirtyTick: U32
    ghost var contents: map<Key, Sector>
    /** Every write a device was offered and did not take, in order. */
    ghost var refusals: seq<Key>

    /** A device has refused this sector since the call began. */
    twostate predicate RefusedNow(k: Key)
      reads this
    {
      |old(refusals)| <= |refusals| && k in refusals[|old(refusals)|..]
    }

    /** Every access from the `n`-th on is served. */
    ghost predicate Obliging(n: nat) { forall t: nat :: t >= n ==> replies(t) == Ok }

    /** Time went on, and a device that obliges refused nothing. */
    twostate predicate OnlyAsAnswered()
      reads this
    {
      accesses >= old(accesses) && old(refusals) <= refusals && (Obliging(old(accesses)) ==> refusals == old(refusals))
    }

    ghost predicate Valid()
      reads this, slots
    {
      && slots.Length == CACHE_SIZE
      && Flushable(devs, slots[..])
      && 0 !in devs
      && (forall d: DevPtr, s: nat :: Key(d, s) in media <==> d in devs && s < devs[d].sectorCount)
      && Coupled(slots[..], media, contents)
      && dirtyCount == CountDirty(slots[..])
    }

    constructor (devs: map<DevPtr, Device>, media: map<Key, Sector>, replies: nat -> Status)
      requires 0 !in devs
      requires forall d: DevPtr, s: nat :: Key(d, s) in media <==> d in devs && s < devs[d].sectorCount
      ensures Valid() && fresh(slots)
      ensures this.devs == devs && this.media == media && contents == media && dirtyCount == 0
      ensures this.replies == replies && accesses == 0
    {
      this.devs := devs;
      this.media := media;
      this.replies, accesses := replies, 0;
      slots := new Slot[CACHE_SIZE](_ => Slot(false, false, 0, 0, ZERO_SECTOR, 0));
      ticks, dirtyCount, oldestDirtyTick := 0, 0, 0;
      contents, refusals := media, [];
      new;
      CountDirtyZero(slots[..]);
    }

    /** One device write: the oracle decides, and a refusal may damage the sector. */
    method DeviceWrite(dev: DevPtr, lba: nat, data: Sector) returns (r: Status)
      requires dev == 0 || dev in devs
      modifies this`media, this`refusals, this`accesses
      ensures CheckWrite(devs, dev, lba, Some(data)) != Ok ==>
                r == CheckWrite(devs, dev, lba, Some(data)) && media == old(media)
      ensures r == Ok ==> media == old(media)[Key(dev, lba) := data]
      ensures r != Ok ==> media == old(media) ||
                          (Key(dev, lba) in media && media == old(media)[Key(dev, lba) := media[Key(dev, lba)]])
      ensures refusals == if r == Ok then old(refusals) else old(refusals) + [Key(dev, lba)]
      ensures CheckWrite(devs, dev, lba, Some(data)) == Ok ==> r == replies(old(accesses)) && accesses == old(accesses) + 1
      ensures CheckWrite(devs, dev, lba, Some(data)) != Ok ==> accesses == old(accesses)
    {
      r := CheckWrite(devs, dev, lba, Some(data));
      if r == Ok {
        var outcome := replies(accesses);
        accesses := accesses + 1;
        var junk: Sector :| true;
        var landed: Sector := if outcome == Ok then data else junk;
        media := media[Key(dev, lba) := landed];
        r := outcome;
      }
      if r != Ok {
        refusals := refusals + [Key(dev, lba)];
      }
    }

    method MarkDirty(i: nat, now: U32)
      requires i < slots.Length && dirtyCount == CountDirty(slots[..])
      modifies this`dirtyCount, this`oldestDirtyTick, slots
      ensures slots[..] == old(slots[..])[i := old(slots[i]).(dirty := true)]
      ensures dirtyCount == CountDirty(slots[..])
      ensures oldestDirtyTick == if old(dirtyCount) == 0 then now else old(oldestDirtyTick)
    {
      CountDirtyUpdate(slots[..], i, slots[i].(dirty := true));
      if slots[i].dirty {
        CountDirtyZero(slots[..]);
        return;
      }
      slots[i] := slots[i].(dirty := true);
      if dirtyCount == 0 {
        oldestDirtyTick := now;
      }
      dirtyCount := dirtyCount + 1;
    }

    method MarkClean(i: nat)
      requires i < slots.Length && dirtyCount == CountDirty(slots[..])
      modifies this`dirtyCount, slots
      ensures slots[..] == old(slots[..])[i := old(slots[i]).(dirty := false)]
      ensures dirtyCount == CountDirty(slots[..]) && dirtyCount <= old(dirtyCount)
    {
      CountDirtyUpdate(slots[..], i, slots[i].(dirty := false));
      if !slots[i].dirty {
        return;
      }
      slots[i] := slots[i].(dirty := false);
      if dirtyCount > 0 {
        dirtyCount := dirtyCount - 1;
      }
    }

    /** Tries to put one dirty slot on its device; a failure costs nothing. */
    method WriteBack(i: nat) returns (r: Status)
      requires Valid() && i < slots.Length && slots[i].dirty
      modifies this`media, this`refusals, this`accesses, this`dirtyCount, slots
      ensures Valid() && contents == old(contents)
      ensures slots[i] == if r == Ok then old(slots[i]).(dirty := false) else old(slots[i])
      ensures forall j :: 0 <= j < slots.Length && j != i ==> slots[j] == old(slots[j])
      ensures refusals == if r == Ok then old(refusals) else old(refusals) + [KeyOf(old(slots[i]))]
      ensures r == replies(old(accesses)) && accesses == old(accesses) + 1
      ensures if r == Ok then dirtyCount <= old(dirtyCount) else dirtyCount == old(dirtyCount)
    {
      hide CountDirty;
      ghost var before, media0 := slots[..], media;
      r := DeviceWrite(slots[i].dev, slots[i].sector, slots[i].data);
      if r == Ok {
        WriteBackKeeps(before, media0, contents, i);
        MarkClean(i);
      } else if media != media0 {
        RefusalKeeps(before, media0, contents, i, media[KeyOf(before[i])]);
      }
    }

    /**
     * Finds a slot that may be reused. Empty slots first, then the oldest clean one; with
     * everything dirty, slots are tried oldest first, each at most once. `refused` is the
     * set of slots whose device would not take them.
     */
    method GetLruSlot() returns (r: int, ghost refused: set<int>)
      requires Valid()
      modifies this`media, this`refusals, this`accesses, this`dirtyCount, slots
      ensures Valid() && contents == old(contents)
      ensures dirtyCount <= old(dirtyCount) && (dirtyCount == 0 ==> old(dirtyCount) == 0)
      ensures -1 <= r < CACHE_SIZE
      ensures r >= 0 ==> !slots[r].dirty
      ensures r >= 0 ==> slots[..] == old(slots[..])[r := old(slots[r]).(dirty := false)]
      ensures r < 0 ==> slots[..] == old(slots[..])
      // Empty slots come first, in index order.
      ensures (exists i :: 0 <= i < CACHE_SIZE && !old(slots[i].valid)) ==>
                r >= 0 && !old(slots[r].valid) && forall i :: 0 <= i < r ==> old(slots[i].valid)
      // Then the oldest clean slot.
      ensures (forall i :: 0 <= i < CACHE_SIZE ==> old(slots[i].valid)) &&
              (exists i :: 0 <= i < CACHE_SIZE && !old(slots[i].dirty)) ==>
                r >= 0 && !old(slots[r].dirty) &&
                forall i :: 0 <= i < CACHE_SIZE && i != r && !old(slots[i].dirty) ==> Before(ticks, old(slots[..]), r, i)
      // Then dirty slots in age order, every older one having been refused.
      ensures (forall i :: 0 <= i < CACHE_SIZE ==> old(slots[i].dirty)) && r >= 0 ==>
                TriedBefore(ticks, old(slots[..]), refused, r)
      ensures r < 0 ==> forall i :: 0 <= i < CACHE_SIZE ==> slots[i].dirty && i in refused
      ensures OnlyAsAnswered()
      ensures forall i :: i in refused ==> 0 <= i < CACHE_SIZE && RefusedNow(KeyOf(old(slots[..])[i]))
    {
      hide CountDirty, Flushable, RefusedNow;
      refused := {};
      var clean := -1;
      var cleanAge: U32 := 0;
      for i := 0 to CACHE_SIZE
        invariant -1 <= clean < i
        invariant forall j :: 0 <= j < i ==> slots[j].valid
        invariant clean < 0 ==> forall j :: 0 <= j < i ==> slots[j].dirty
        invariant clean >= 0 ==> !slots[clean].dirty && cleanAge == Age(ticks, slots[clean])
        invariant clean >= 0 ==>
                    forall j :: 0 <= j < i && j != clean && !slots[j].dirty ==> Before(ticks, slots[..], clean, j)
      {
        if !slots[i].valid {
          r := i;
          return;
        }
        var age := Age(ticks, slots[i]);
        if !slots[i].dirty && (clean < 0 || age > cleanAge) {
          clean := i;
          cleanAge := age;
        }
      }
      if clean >= 0 {
        r := clean;
        return;
      }
      r, refused := EvictDirty();
    }

    /** The slot eviction tries next, or -1 when every slot has been tried. */
    method OldestUntried(tried: seq<bool>) returns (oldest: int)
      requires slots.Length == CACHE_SIZE && |tried| == CACHE_SIZE
      ensures -1 <= oldest < CACHE_SIZE
      ensures oldest < 0 ==> forall j :: 0 <= j < CACHE_SIZE ==> tried[j]
      ensures oldest >= 0 ==> IsOldestUntried(ticks, slots[..], tried, oldest)
    {
      oldest := -1;
      var oldestAge: U32 := 0;
      for i := 0 to CACHE_SIZE
        invariant -1 <= oldest < i
        invariant oldest < 0 ==> forall j :: 0 <= j < i ==> tried[j]
        invariant oldest >= 0 ==> !tried[oldest] && oldestAge == Age(ticks, slots[oldest])
        invariant oldest >= 0 ==>
                    forall j :: 0 <= j < i && j != oldest && !tried[j] ==> Before(ticks, slots[..], oldest, j)
      {
        var age := Age(ticks, slots[i]);
        if !tried[i] && (oldest < 0 || age > oldestAge) {
          oldest := i;
          oldestAge := age;
        }
      }
    }

    /** The all-dirty half of the eviction. */
    method EvictDirty() returns (r: int, ghost refused: set<int>)
      requires Valid()
      requires forall i :: 0 <= i < CACHE_SIZE ==> slots[i].dirty
      modifies this`media, this`refusals, this`accesses, this`dirtyCount, slots
      ensures Valid() && contents == old(contents) && 0 < dirtyCount <= old(dirtyCount)
      ensures -1 <= r < CACHE_SIZE
      ensures r >= 0 ==> slots[..] == old(slots[..])[r := old(slots[r]).(dirty := false)]
      ensures r >= 0 ==> TriedBefore(ticks, old(slots[..]), refused, r)
      ensures r < 0 ==> slots[..] == old(slots[..]) && forall i :: 0 <= i < CACHE_SIZE ==> i in refused
      ensures OnlyAsAnswered()
      ensures forall i :: i in refused ==> 0 <= i < CACHE_SIZE && RefusedNow(KeyOf(old(slots[..])[i]))
    {
      hide Coupled, CountDirty, Flushable;
      StillDirty(slots[..], slots[..], 0);
      var tried := seq(CACHE_SIZE, _ => false);
      refused := {};
      ghost var start := slots[..];
      for attempt := 0 to CACHE_SIZE
        invariant Valid() && contents == old(contents) && 0 < dirtyCount == old(dirtyCount)
        invariant slots[..] == start
        invariant |tried| == CACHE_SIZE && TriedOldestFirst(ticks, start, tried, refused)
        invariant |refused| == attempt && OnlyAsAnswered()
        invariant forall i :: i in refused ==> 0 <= i < CACHE_SIZE && RefusedNow(KeyOf(start[i]))
      {
        var oldest := OldestUntried(tried);
        if oldest < 0 {
          r := -1;
          return;
        }
        LogGrows(refusals, KeyOf(slots[oldest]), |old(refusals)|);
        var res := WriteBack(oldest);
        if res == Ok {
          r := oldest;
          StillDirty(start, slots[..], oldest);
          NextInOrder(ticks, start, tried, refused, oldest);
          return;
        }
        NextInOrder(ticks, start, tried, refused, oldest);
        tried := tried[oldest := true];
        refused := refused + {oldest};
      }
      AllTried(refused, CACHE_SIZE);
      r := -1;
    }

    /** Looks a sector up among the valid slots. */
    method Find(k: Key) returns (r: int)
      requires Valid()
      ensures -1 <= r < CACHE_SIZE
      ensures r >= 0 ==> slots[r].valid && KeyOf(slots[r]) == k
      ensures r < 0 ==> !Cached(slots[..], k)
    {
      for i := 0 to CACHE_SIZE
        invariant forall j :: 0 <= j < i ==> !(slots[j].valid && KeyOf(slots[j]) == k)
      {
        if slots[i].valid && slots[i].dev == k.dev && slots[i].sector == k.sector {
          return i;
        }
      }
      r := -1;
    }

    /**
     * A read that succeeds returns the last accepted write; no read changes the contents. An
     * admitted read of a cached sector succeeds; of another it fails only when its device,
     * asked, answers so, or when every slot is dirty and was just refused.
     */
    method ReadSector(dev: DevPtr, sector: nat, buf: Option<Sector>)
      returns (r: Status, out: Option<Sector>, ghost asked: Option<Status>)
      requires Valid()
      requires dev == 0 || dev in devs
      modifies this`media, this`refusals, this`accesses, this`ticks, this`dirtyCount, slots
      ensures Valid() && contents == old(contents) && dirtyCount <= old(dirtyCount)
      ensures Admit(devs, dev, CheckRead(devs, dev, sector, buf)) != Ok ==>
                r == Admit(devs, dev, CheckRead(devs, dev, sector, buf)) && out == buf &&
                media == old(media) && slots[..] == old(slots[..])
      ensures r == Ok ==> Key(dev, sector) in contents && out == Some(contents[Key(dev, sector)])
      ensures r != Ok ==> out == buf || out == Some(ZERO_SECTOR)
      ensures Admit(devs, dev, CheckRead(devs, dev, sector, buf)) == Ok && old(Cached(slots[..], Key(dev, sector))) ==> r == Ok
      ensures asked.Some? ==> r == asked.value
      ensures OnlyAsAnswered()
      ensures Admit(devs, dev, CheckRead(devs, dev, sector, buf)) == Ok ==> ticks == Add32(old(ticks), 1)
      ensures r == Ok ==> Used(old(slots[..]), slots[..], Key(dev, sector), ticks)
      ensures Admit(devs, dev, CheckRead(devs, dev, sector, buf)) == Ok && Obliging(old(accesses)) ==> r == Ok
      ensures Admit(devs, dev, CheckRead(devs, dev, sector, buf)) == Ok && r != Ok && asked.None? ==>
                r == Io && forall i :: 0 <= i < CACHE_SIZE ==> slots[i].dirty && RefusedNow(KeyOf(slots[i]))
    {
      hide CountDirty, Coupled, Flushable, UsedAt;
      r, out, asked := CheckRead(devs, dev, sector, buf), buf, None;
      if r != Ok {
        return;
      }
      if devs[dev].sectorSize != SECTOR_SIZE {
        r := Inval;
        return;
      }
      var k := Key(dev, sector);
      ticks := Add32(ticks, 1);
      var hit := Find(k);
      if hit >= 0 {
        HitIsCurrent(slots[..], media, contents, hit);
        out := Some(slots[hit].data);
        Touch(hit);
        UsedByTouch(old(slots[..]), slots[..], hit, k, ticks);
        return;
      }
      var slot, _ := GetLruSlot();
      if slot < 0 {
        assert RefusedNow(KeyOf(slots[0]));
        r := Io;
        return;
      }
      UncachedAfterEviction(old(slots[..]), slots[..], slot, k);
      ghost var freed := slots[..];
      r, out := FillSlot(slot, k);
      if r == Ok {
        UsedAfterEviction(old(slots[..]), freed, slots[..], slot, k, ticks);
      }
      asked := Some(r);
    }

    /** Refreshes a slot's age. */
    method Touch(i: nat)
      requires Valid() && i < slots.Length && slots[i].valid
      modifies slots
      ensures Valid()
      ensures slots[..] == old(slots[..])[i := old(slots[i]).(lastAccess := ticks)]
    {
      ghost var before := slots[..];
      CountDirtyUpdate(before, i, before[i].(lastAccess := ticks));
      slots[i] := slots[i].(lastAccess := ticks);
      forall k | k in media && media[k] != contents[k]
        ensures DirtyAt(slots[..], k)
      {
        assert DirtyAt(before, k);
        var j :| 0 <= j < |before| && before[j].dirty && KeyOf(before[j]) == k;
        assert slots[..][j].dirty && KeyOf(slots[..][j]) == k;
      }
    }

    /** Reads one sector from its device into a reusable slot. */
    method FillSlot(i: nat, k: Key) returns (r: Status, out: Option<Sector>)
      requires Valid() && i < slots.Length && !slots[i].dirty
      requires k in media && !Cached(slots[..], k)
      modifies slots, this`dirtyCount, this`accesses
      ensures Valid() && r == replies(old(accesses)) && accesses == old(accesses) + 1 && dirtyCount <= old(dirtyCount)
      ensures r == Ok ==> k in contents && out == Some(contents[k]) && Cached(slots[..], k)
      ensures r == Ok ==> UsedAt(old(slots[..]), slots[..], i, k, ticks)
      ensures r != Ok ==> out == Some(ZERO_SECTOR) && !slots[i].valid
    {
      ghost var before := slots[..];
      UncachedIsOnMedium(before, media, contents, k);
      r := replies(accesses);
      accesses := accesses + 1;
      if r != Ok {
        var junk: Sector :| true;
        var s := slots[i].(valid := false, data := junk);
        DropKeeps(before, media, contents, i, s);
        CountDirtyUpdate(before, i, s);
        slots[i] := s;
        out := Some(ZERO_SECTOR);
        return;
      }
      var s := Slot(true, slots[i].dirty, k.dev, k.sector, media[k], ticks);
      FillKeeps(before, media, contents, i, s);
      CountDirtyUpdate(before, i, s);
      slots[i] := s;
      MarkClean(i);
      assert slots[..] == before[i := s];
      assert slots[..][i].valid && KeyOf(slots[..][i]) == k;
      out := Some(slots[i].data);
    }

    /** A write is accepted whole or refused whole, and touches no other sector. */
    method WriteSector(dev: DevPtr, sector: nat, buf: Option<Sector>, now: U32) returns (r: Status)
      requires Valid()
      requires dev == 0 || dev in devs
      modifies this, slots
      ensures Valid()
      ensures Admit(devs, dev, CheckWrite(devs, dev, sector, buf)) != Ok ==>
                r == Admit(devs, dev, CheckWrite(devs, dev, sector, buf)) &&
                media == old(media) && slots[..] == old(slots[..])
      ensures r == Ok ==> buf.Some? && Key(dev, sector) in contents &&
                          contents == old(contents)[Key(dev, sector) := buf.value]
      ensures r != Ok ==> contents == old(contents)
      ensures OnlyAsAnswered()
      ensures Admit(devs, dev, CheckWrite(devs, dev, sector, buf)) == Ok && Obliging(old(accesses)) ==> r == Ok
      ensures Admit(devs, dev, CheckWrite(devs, dev, sector, buf)) == Ok && r != Ok ==>
                r == Io && forall i :: 0 <= i < CACHE_SIZE ==> slots[i].dirty && RefusedNow(KeyOf(slots[i]))
      ensures Admit(devs, dev, CheckWrite(devs, dev, sector, buf)) == Ok ==> ticks == Add32(old(ticks), 1)
      ensures r == Ok ==> Used(old(slots[..]), slots[..], Key(dev, sector), ticks)
      ensures r == Ok ==> oldestDirtyTick == if old(dirtyCount) == 0 then now else old(oldestDirtyTick)
      // Too much outstanding is written behind: fewer than half the slots are dirty, or only what was just refused.
      ensures r == Ok ==> dirtyCount < DIRTY_HIGH_WATER || forall i :: 0 <= i < CACHE_SIZE && slots[i].dirty ==> RefusedNow(KeyOf(slots[i]))
      ensures Obliging(old(accesses)) && (r == Ok || old(dirtyCount) < DIRTY_HIGH_WATER) ==> dirtyCount < DIRTY_HIGH_WATER
    {
      hide CountDirty, Coupled, Flushable, UsedAt;
      r := CheckWrite(devs, dev, sector, buf);
      if r != Ok {
        return;
      }
      if devs[dev].sectorSize != SECTOR_SIZE {
        r := Inval;
        return;
      }
      var k := Key(dev, sector);
      ticks := Add32(ticks, 1);
      var slot := Find(k);
      if slot == -1 {
        ghost var refused;
        slot, refused := GetLruSlot();
        if slot < 0 {
          assert RefusedNow(KeyOf(slots[0]));
          r := Io;
          return;
        }
        UncachedAfterEviction(old(slots[..]), slots[..], slot, k);
      }
      ghost var freed := slots[..];
      AcceptInto(slot, k, buf.value, now);
      UsedAfterEviction(old(slots[..]), freed, slots[..], slot, k, ticks);
      ghost var accepted := slots[..];
      WriteBehind();
      UsedThenCleaned(old(slots[..]), accepted, slots[..], slot, k, ticks);
    }

    /** Writes everything back once too much is outstanding. */
    method WriteBehind()
      requires Valid()
      modifies this`media, this`refusals, this`accesses, this`dirtyCount, slots
      ensures Valid() && contents == old(contents) && OnlyAsAnswered() && OnlyCleaned(old(slots[..]), slots[..])
      ensures dirtyCount < DIRTY_HIGH_WATER || forall i :: 0 <= i < CACHE_SIZE && slots[i].dirty ==> RefusedNow(KeyOf(slots[i]))
      ensures Obliging(old(accesses)) ==> dirtyCount < DIRTY_HIGH_WATER
    {
      hide CountDirty, Coupled, Flushable;
      if dirtyCount >= DIRTY_HIGH_WATER {
        var _ := FlushReporting();
      }
    }

    /** Stores an accepted write in its slot. */
    method AcceptInto(i: nat, k: Key, data: Sector, now: U32)
      requires Valid() && i < slots.Length && k in media && k.dev in devs && CheckWrite(devs, k.dev, k.sector, Some(data)) == Ok
      requires (slots[i].valid && KeyOf(slots[i]) == k) || (!slots[i].dirty && !Cached(slots[..], k))
      modifies this`contents, this`dirtyCount, this`oldestDirtyTick, slots
      ensures Valid() && contents == old(contents)[k := data]
      ensures slots[i].dirty && KeyOf(slots[i]) == k && slots[i].data == data
      ensures UsedAt(old(slots[..]), slots[..], i, k, ticks)
      ensures oldestDirtyTick == if old(dirtyCount) == 0 then now else old(oldestDirtyTick)
    {
      ghost var before := slots[..];
      var s := Slot(true, slots[i].dirty, k.dev, k.sector, data, ticks);
      CountDirtyUpdate(before, i, s);
      AcceptKeeps(before, media, contents, i, s.(dirty := true));
      slots[i] := s;
      MarkDirty(i, now);
      contents := contents[k := data];
      assert slots[..] == before[i := s.(dirty := true)];
    }

    /** Writes back every dirty slot; succeeds exactly when nothing is left dirty. */
    method FlushReporting() returns (r: Status)
      requires Valid()
      modifies this`media, this`refusals, this`accesses, this`dirtyCount, slots
      ensures Valid() && contents == old(contents) && dirtyCount <= old(dirtyCount)
      ensures r == Ok || r == Io
      ensures r == Ok <==> forall i :: 0 <= i < CACHE_SIZE ==> !slots[i].dirty
      ensures r == Ok ==> media == contents && dirtyCount == 0
      ensures OnlyCleaned(old(slots[..]), slots[..]) && OnlyAsAnswered()
      ensures forall i :: 0 <= i < CACHE_SIZE && slots[i].dirty ==> RefusedNow(KeyOf(slots[i]))
    {
      hide Coupled, CountDirty, Flushable;
      var failed := 0;
      ghost var start := slots[..];
      for i := 0 to CACHE_SIZE
        invariant Valid() && contents == old(contents) && dirtyCount <= old(dirtyCount)
        invariant 0 <= failed <= i
        invariant failed == 0 <==> forall j :: 0 <= j < i ==> !slots[j].dirty
        invariant OnlyCleaned(start, slots[..])
        invariant OnlyAsAnswered()
        invariant forall j :: 0 <= j < i && slots[j].dirty ==> RefusedNow(KeyOf(slots[j]))
      {
        DirtyIsValid(slots[..], media, contents, i);
        if slots[i].valid && slots[i].dirty {
          LogGrows(refusals, KeyOf(slots[i]), |old(refusals)|);
          var res := WriteBack(i);
          if res != Ok {
            failed := failed + 1;
          }
        }
      }
      r := if failed > 0 then Io else Ok;
      if failed == 0 {
        CleanMeansDurable(slots[..], media, contents);
        CountDirtyZero(slots[..]);
      }
    }

    /** Writes back and forgets one device; succeeds exactly when nothing of it is left cached. */
    method FlushDev(dev: DevPtr) returns (r: Status)
      requires Valid()
      requires dev == 0 || dev in devs
      modifies this`media, this`refusals, this`accesses, this`dirtyCount, slots
      ensures Valid() && contents == old(contents) && dirtyCount <= old(dirtyCount)
      ensures dev == 0 ==> r == NoDev && slots[..] == old(slots[..]) && media == old(media)
      ensures dev != 0 ==> r == if forall i :: 0 <= i < CACHE_SIZE ==> !Holds(slots[i], dev) then Ok else Io
      ensures OnlyAsAnswered()
      ensures r == Ok ==> forall k :: k in media && k.dev == dev ==> media[k] == contents[k]
      ensures forall i :: 0 <= i < CACHE_SIZE && !old(Holds(slots[i], dev)) ==> slots[i] == old(slots[i])
      ensures dev != 0 ==> forall i :: 0 <= i < CACHE_SIZE && Holds(slots[i], dev) ==> RefusedNow(KeyOf(slots[i]))
    {
      hide Coupled, CountDirty;
      if dev == 0 {
        r := NoDev;
        return;
      }
      var failed := 0;
      ghost var start := slots[..];
      for i := 0 to CACHE_SIZE
        invariant Valid() && contents == old(contents) && dirtyCount <= old(dirtyCount)
        invariant 0 <= failed <= i
        invariant failed == 0 <==> forall j :: 0 <= j < i ==> !Holds(slots[j], dev)
        invariant forall j :: 0 <= j < CACHE_SIZE && (i <= j || !Holds(start[j], dev)) ==> slots[j] == start[j]
        invariant OnlyAsAnswered()
        invariant forall j :: 0 <= j < i && Holds(slots[j], dev) ==> RefusedNow(KeyOf(slots[j]))
      {
        if slots[i].valid && slots[i].dev == dev {
          LogGrows(refusals, KeyOf(slots[i]), |old(refusals)|);
          var kept := ReleaseSlot(i);
          if kept {
            failed := failed + 1;
          }
        }
      }
      r := if failed > 0 then Io else Ok;
      if failed == 0 {
        ReleasedIsDurable(slots[..], media, contents, dev);
      }
    }

    /** Writes a slot back if it is dirty, then drops it; keeps it whole if it cannot be written. */
    method ReleaseSlot(i: nat) returns (kept: bool)
      requires Valid() && i < slots.Length && slots[i].valid
      modifies this`media, this`refusals, this`accesses, this`dirtyCount, slots
      ensures Valid() && contents == old(contents) && dirtyCount <= old(dirtyCount)
      ensures kept ==> slots[..] == old(slots[..]) && refusals == old(refusals) + [KeyOf(slots[i])]
      ensures !kept ==> refusals == old(refusals)
      ensures OnlyAsAnswered()
      ensures !kept ==> !slots[i].valid && slots[..] == old(slots[..])[i := slots[i]]
      ensures forall j :: 0 <= j < slots.Length && j != i ==> slots[j] == old(slots[j])
    {
      hide Coupled, CountDirty;
      kept := false;
      if slots[i].dirty {
        var res := WriteBack(i);
        if res != Ok {
          kept := true;
          return;
        }
      }
      ghost var before := slots[..];
      var s := slots[i].(valid := false, dev := 0);
      DropKeeps(before, media, contents, i, s);
      CountDirtyUpdate(before, i, s);
      slots[i] := s;
    }

    /** Whether the oldest unwritten data has waited a full interval, tick wrap included. */
    predicate FlushIsDue(now: U32)
      reads this
    {
      dirtyCount != 0 && Sub32(now, oldestDirtyTick) >= FLUSH_INTERVAL_TICKS
    }

    method FlushIfDue(now: U32)
      requires Valid()
      modifies this`media, this`refusals, this`accesses, this`dirtyCount, slots
      ensures Valid() && contents == old(contents) && OnlyAsAnswered() && dirtyCount <= old(dirtyCount)
      ensures !old(FlushIsDue(now)) ==> media == old(media) && slots[..] == old(slots[..])
      ensures old(FlushIsDue(now)) ==> forall i :: 0 <= i < CACHE_SIZE && slots[i].dirty ==> RefusedNow(KeyOf(slots[i]))
      ensures Obliging(old(accesses)) ==> !FlushIsDue(now)
    {
      hide Coupled, CountDirty, Flushable;
      if FlushIsDue(now) {
        var _ := FlushReporting();
      }
    }

    /**
     * Any run of requests, with any device behaviour: the requests that answered Ok are an
     * honest history, and the abstract state is exactly that history replayed. A request that
     * is not admitted answers why; with devices that serve every access every other one
     * answers Ok. The medium of a device that takes no writes stays as it was.
     */
    method Run(requests: seq<Request>) returns (answers: seq<Answer>)
      requires Valid()
      requires forall i :: 0 <= i < |requests| ==> Known(devs, requests[i])
      modifies this, slots
      ensures Valid() && |answers| == |requests|
      ensures Honest(old(contents), HistoryOf(requests, answers))
      ensures contents == Replay(old(contents), HistoryOf(requests, answers))
      ensures forall i :: 0 <= i < |requests| && Admission(devs, requests[i]) != Ok ==> answers[i].status == Admission(devs, requests[i])
      ensures Obliging(old(accesses)) ==> forall i :: 0 <= i < |requests| ==> answers[i].status == Admission(devs, requests[i])
      ensures Obliging(old(accesses)) && old(dirtyCount) < DIRTY_HIGH_WATER ==> |OffMedium(media, contents)| < DIRTY_HIGH_WATER
      ensures forall k :: k in old(media) && !Writable(devs, k) ==> k in media && media[k] == old(media)[k]
      ensures requests != [] ==> Durable(requests[|requests| - 1], answers[|requests| - 1], media, contents)
      ensures requests != [] && requests[|requests| - 1].Yield? && Obliging(old(accesses)) ==> !FlushIsDue(requests[|requests| - 1].now)
    {
      hide Honest, Replay, Coupled, CountDirty, Flushable, HistoryOf, EventOf, StepsTo, Admission, Durable;
      answers := [];
      NoHistory(contents, requests);
      for n := 0 to |requests|
        invariant Valid() && |answers| == n && OnlyAsAnswered()
        invariant Honest(old(contents), HistoryOf(requests, answers))
        invariant contents == Replay(old(contents), HistoryOf(requests, answers))
        invariant forall i :: 0 <= i < n && Admission(devs, requests[i]) != Ok ==> answers[i].status == Admission(devs, requests[i])
        invariant Obliging(old(accesses)) ==> forall i :: 0 <= i < n ==> answers[i].status == Admission(devs, requests[i])
        invariant Obliging(old(accesses)) && old(dirtyCount) < DIRTY_HIGH_WATER ==> dirtyCount < DIRTY_HIGH_WATER
        invariant n > 0 ==> Durable(requests[n - 1], answers[n - 1], media, contents)
        invariant n > 0 && requests[n - 1].Yield? && Obliging(old(accesses)) ==> !FlushIsDue(requests[n - 1].now)
      {
        ghost var before := contents;
        var a := Serve(requests[n]);
        HistoryGrows(old(contents), requests, answers, a, before, contents);
        answers := answers + [a];
      }
      FewOffMedium(slots[..], media, contents);
      HistoryIsAdmitted(devs, requests, answers);
      forall k | k in old(media) && !Writable(devs, k)
        ensures k in media && media[k] == old(media)[k]
      {
        ReadOnlyIsOnMedium(devs, old(slots[..]), old(media), old(contents), k);
        ReplayUntouched(old(contents), HistoryOf(requests, answers), k);
        ReadOnlyIsOnMedium(devs, slots[..], media, contents, k);
      }
    }

    /** One request of a run. */
    method Serve(request: Request) returns (a: Answer)
      requires Valid() && Known(devs, request)
      modifies this, slots
      ensures Valid() && OnlyAsAnswered()
      ensures StepsTo(old(contents), contents, EventOf(request, a))
      ensures Admission(devs, request) != Ok ==> a.status == Admission(devs, request)
      ensures Obliging(old(accesses)) ==> a.status == Admission(devs, request)
      ensures Obliging(old(accesses)) && old(dirtyCount) < DIRTY_HIGH_WATER ==> dirtyCount < DIRTY_HIGH_WATER
      ensures Durable(request, a, media, contents)
      // Data that has waited its interval is written when a process yields.
      ensures request.Yield? && old(FlushIsDue(request.now)) ==>
                forall i :: 0 <= i < CACHE_SIZE && slots[i].dirty ==> RefusedNow(KeyOf(slots[i]))
      ensures request.Yield? && Obliging(old(accesses)) ==> !FlushIsDue(request.now)
    {
      hide Coupled, CountDirty, Flushable;
      match request
      case Read(dev, sector, buf) =>
        var r, out, _ := ReadSector(dev, sector, buf);
        a := Answer(r, out);
      case Write(dev, sector, buf, now) =>
        var r := WriteSector(dev, sector, buf, now);
        a := Answer(r, None);
      case Sync =>
        var r := FlushReporting();
        a := Answer(r, None);
      case Unmount(dev) =>
        var r := FlushDev(dev);
        a := Answer(r, None);
      case Yield(now) =>
        FlushIfDue(now);
        a := Answer(Ok, None);
    }
  }

  /** A request names no device, or one there is. */
  predicate Known(devs: map<DevPtr, Device>, request: Request) {
    request.Sync? || request.Yield? || request.dev == 0 || request.dev in devs
  }

  /** What the checks in front of a request say to it. */
  function Admission(devs: map<DevPtr, Device>, request: Request): Status
    requires Known(devs, request)
  {
    match request
    case Read(dev, sector, buf) => Admit(devs, dev, CheckRead(devs, dev, sector, buf))
    case Write(dev, sector, buf, _) => Admit(devs, dev, CheckWrite(devs, dev, sector, buf))
    case Unmount(dev) => if dev == 0 then NoDev else Ok
    case _ => Ok
  }

  /** A sector there is. */
  predicate Addressed(devs: map<DevPtr, Device>, k: Key) { k.dev in devs && k.sector < devs[k.dev].sectorCount }

  predicate Writable(devs: map<DevPtr, Device>, k: Key) { Addressed(devs, k) && devs[k.dev].canWrite }

  /** Exactly which reads and writes are admitted, and what the others are told. */
  lemma AdmittedExactly(devs: map<DevPtr, Device>, dev: DevPtr, sector: nat, buf: Option<Sector>, now: U32)
    requires 0 !in devs && (dev == 0 || dev in devs)
    ensures var k := Key(dev, sector);
            var asRead, asWrite := Admission(devs, Read(dev, sector, buf)), Admission(devs, Write(dev, sector, buf, now));
            && (asRead == Ok <==> Addressed(devs, k) && buf.Some? && devs[dev].canRead && devs[dev].sectorSize == 512)
            && (asWrite == Ok <==> Writable(devs, k) && buf.Some? && devs[dev].sectorSize == 512)
            && (asRead == NoDev <==> dev == 0 || (Addressed(devs, k) && buf.Some? && !devs[dev].canRead))
            && (asWrite == NoDev <==> dev == 0)
            && (asWrite == Rofs <==> Addressed(devs, k) && buf.Some? && !devs[dev].canWrite)
            && asRead in {Ok, NoDev, Inval} && asWrite in {Ok, NoDev, Rofs, Inval}
  {
  }

  /** Only what has been accepted for a device that takes writes can be off its medium. */
  lemma ReadOnlyIsOnMedium(devs: map<DevPtr, Device>, slots: seq<Slot>, media: map<Key, Sector>, contents: map<Key, Sector>, k: Key)
    requires Coupled(slots, media, contents) && Flushable(devs, slots) && !Writable(devs, k)
    ensures k in media <==> k in contents
    ensures k in media ==> media[k] == contents[k]
  {
    assert forall i :: 0 <= i < |slots| && slots[i].dirty ==> Writable(devs, KeyOf(slots[i]));
  }

  ghost predicate WritesWritable(devs: map<DevPtr, Device>, events: seq<Event>) {
    forall j :: 0 <= j < |events| && events[j].WriteTaken? ==> Writable(devs, events[j].k)
  }

  lemma EventIsAdmitted(devs: map<DevPtr, Device>, request: Request, a: Answer)
    requires Known(devs, request) && (Admission(devs, request) != Ok ==> a.status == Admission(devs, request))
    ensures WritesWritable(devs, EventOf(request, a))
  {
  }

  /** A history of requests that were admitted writes only where writes are taken. */
  lemma {:induction false} HistoryIsAdmitted(devs: map<DevPtr, Device>, requests: seq<Request>, answers: seq<Answer>)
    requires |answers| <= |requests|
    requires forall i :: 0 <= i < |requests| ==> Known(devs, requests[i])
    requires forall i :: 0 <= i < |answers| && Admission(devs, requests[i]) != Ok ==> answers[i].status == Admission(devs, requests[i])
    ensures WritesWritable(devs, HistoryOf(requests, answers))
    decreases |answers|
  {
    hide Admission, EventOf, Writable, Known;
    if answers != [] {
      var n := |answers| - 1;
      HistoryIsAdmitted(devs, requests, answers[..n]);
      EventIsAdmitted(devs, requests[n], answers[n]);
    }
  }

  /** What a request that asked for it, and was answered Ok, has put on the medium. */
  ghost predicate Durable(request: Request, a: Answer, media: map<Key, Sector>, contents: map<Key, Sector>) {
    a.status == Ok ==>
      && (request.Sync? ==> media == contents)
      && (request.Unmount? ==> forall k :: k in media && k in contents && k.dev == request.dev ==> media[k] == contents[k])
  }

  /** What came back from a request. */
  datatype Answer = Answer(status: Status, out: Option<Sector>)

  /** What a request that answered Ok adds to the history. */
  function EventOf(request: Request, a: Answer): seq<Event> {
    if a.status != Ok then []
    else
      match request
      case Read(dev, sector, _) => if a.out.Some? then [ReadDone(Key(dev, sector), a.out.value)] else []
      case Write(dev, sector, buf, _) => if buf.Some? then [WriteTaken(Key(dev, sector), buf.value)] else []
      case _ => []
  }

  /** The history of a run: the reads and writes that answered Ok, in order. */
  function HistoryOf(requests: seq<Request>, answers: seq<Answer>): seq<Event>
    requires |answers| <= |requests|
  {
    if answers == [] then []
    else
      var n := |answers| - 1;
      HistoryOf(requests, answers[..n]) + EventOf(requests[n], answers[n])
  }

  /** One event, or none, takes the store from one state to the next. */
  ghost predicate StepsTo(before: map<Key, Sector>, after: map<Key, Sector>, events: seq<Event>) {
    && |events| <= 1
    && if events == [] then after == before
       else match events[0]
            case ReadDone(k, data) => after == before && k in before && before[k] == data
            case WriteTaken(k, data) => after == before[k := data]
  }

  lemma NoHistory(start: map<Key, Sector>, requests: seq<Request>)
    ensures HistoryOf(requests, []) == [] && Honest(start, []) && Replay(start, []) == start
  {
  }

  lemma HistoryGrows(start: map<Key, Sector>, requests: seq<Request>, answers: seq<Answer>, a: Answer,
                     before: map<Key, Sector>, after: map<Key, Sector>)
    requires |answers| < |requests| && Honest(start, HistoryOf(requests, answers)) && before == Replay(start, HistoryOf(requests, answers))
    requires StepsTo(before, after, EventOf(requests[|answers|], a))
    ensures Honest(start, HistoryOf(requests, answers + [a])) && after == Replay(start, HistoryOf(requests, answers + [a]))
  {
    var history, events := HistoryOf(requests, answers), EventOf(requests[|answers|], a);
    assert (answers + [a])[..|answers|] == answers;
    assert HistoryOf(requests, answers + [a]) == history + events;
    hide HistoryOf, EventOf, Honest, Replay;
    if events == [] {
      assert history + events == history;
    } else {
      assert events == [events[0]];
      HonestExtend(start, history, events[0]);
    }
  }

  /** Every dirty slot could be written back, as far as the checks go. */
  predicate Flushable(devs: map<DevPtr, Device>, slots: seq<Slot>) {
    forall i :: 0 <= i < |slots| && slots[i].dirty ==>
      slots[i].dev in devs && CheckWrite(devs, slots[i].dev, slots[i].sector, Some(slots[i].data)) == Ok
  }

  /** A valid slot holds what was last accepted for its sector. */
  lemma HitIsCurrent(slots: seq<Slot>, media: map<Key, Sector>, contents: map<Key, Sector>, i: nat)
    requires Coupled(slots, media, contents) && i < |slots| && slots[i].valid
    ensures KeyOf(slots[i]) in contents && contents[KeyOf(slots[i])] == slots[i].data
  {
  }

  lemma LogGrows(log: seq<Key>, k: Key, from: nat)
    requires from <= |log|
    ensures (log + [k])[from..] == log[from..] + [k]
  {
  }

  /** Freeing a slot caches nothing new. */
  lemma UncachedAfterEviction(before: seq<Slot>, after: seq<Slot>, r: int, k: Key)
    requires !Cached(before, k)
    requires 0 <= r < |before| && after == before[r := before[r].(dirty := false)]
    ensures !Cached(after, k)
  {
    forall i | 0 <= i < |after|
      ensures !(after[i].valid && KeyOf(after[i]) == k)
    {
      assert before[i].valid == after[i].valid && KeyOf(before[i]) == KeyOf(after[i]);
    }
  }

  /** As many distinct slot numbers as there are slots is all of them. */
  lemma {:induction false} AllTried(tried: set<int>, n: nat)
    requires forall i :: i in tried ==> 0 <= i < n
    requires |tried| == n
    ensures forall i :: 0 <= i < n ==> i in tried
  {
    if n > 0 {
      if n - 1 in tried {
        AllTried(tried - {n - 1}, n - 1);
      } else {
        Pigeonhole(tried, n - 1);
      }
    }
  }

  lemma {:induction false} Pigeonhole(s: set<int>, n: nat)
    requires forall i :: i in s ==> 0 <= i < n
    ensures |s| <= n
  {
    if n == 0 {
      assert forall i :: i !in s;
    } else {
      Pigeonhole(s - {n - 1}, n - 1);
    }
  }
}
