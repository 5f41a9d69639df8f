/**
 * Where the bytes of a file live (fs_cluster_to_sector in include/fs.h and the copy loops
 * of fs/vfs.c): a chain of clusters of eight sectors, the slack zeroed.
 */
module FileData {
  import opened Common

  const CLUSTER_SECTORS: nat := 8
  const CLUSTER_BYTES: nat := 4096

  type Store = map<nat, Sector>

  function ClusterToSector(dataStart: nat, cluster: nat): nat { dataStart + cluster * CLUSTER_SECTORS }

  /** The sector holding the `k`-th 512 bytes of a chain. */
  function SectorAt(dataStart: nat, chain: seq<nat>, k: nat): nat
    requires k / CLUSTER_SECTORS < |chain|
  {
    ClusterToSector(dataStart, chain[k / CLUSTER_SECTORS]) + k % CLUSTER_SECTORS
  }

  /** The sector belongs to one of the clusters of a chain. */
  predicate OnChain(dataStart: nat, chain: seq<nat>, s: nat) {
    s >= dataStart && (s - dataStart) / CLUSTER_SECTORS in chain
  }

  /** The `k`-th sector of a file's contents, padded with zeros past their end. */
  function Chunk(bytes: seq<Byte>, k: nat): Sector {
    seq(SECTOR_SIZE, i requires 0 <= i < SECTOR_SIZE =>
      if SECTOR_SIZE * k + i < |bytes| then bytes[SECTOR_SIZE * k + i] else 0)
  }

  /** A chain holds exactly these contents: every byte in its place, every slack byte zero. */
  ghost predicate Stored(store: Store, dataStart: nat, chain: seq<nat>, bytes: seq<Byte>) {
    && |bytes| <= CLUSTER_BYTES * |chain|
    && forall k :: 0 <= k < CLUSTER_SECTORS * |chain| ==>
         SectorAt(dataStart, chain, k) in store &&
         store[SectorAt(dataStart, chain, k)] == Chunk(bytes, k)
  }

  /** A sector of a chain lies in the cluster it is counted in, and only there. */
  lemma SectorIsOnChain(dataStart: nat, chain: seq<nat>, k: nat)
    requires k < CLUSTER_SECTORS * |chain|
    ensures k / CLUSTER_SECTORS < |chain|
    ensures (SectorAt(dataStart, chain, k) - dataStart) / CLUSTER_SECTORS == chain[k / CLUSTER_SECTORS]
    ensures SectorAt(dataStart, chain, k) >= dataStart
    ensures OnChain(dataStart, chain, SectorAt(dataStart, chain, k))
  {
  }

  /** Distinct positions of a chain without repeats are distinct sectors. */
  lemma SectorsDistinct(dataStart: nat, chain: seq<nat>, k: nat, l: nat)
    requires k < CLUSTER_SECTORS * |chain| && l < CLUSTER_SECTORS * |chain|
    requires forall i, j :: 0 <= i < j < |chain| ==> chain[i] != chain[j]
    ensures k / CLUSTER_SECTORS < |chain| && l / CLUSTER_SECTORS < |chain|
    ensures SectorAt(dataStart, chain, k) == SectorAt(dataStart, chain, l) <==> k == l
  {
    SectorIsOnChain(dataStart, chain, k);
    SectorIsOnChain(dataStart, chain, l);
    var i, j := k / CLUSTER_SECTORS, l / CLUSTER_SECTORS;
    if i != j {
      assert chain[i] != chain[j];
    }
  }

  /** Writing to one chain changes no byte stored on a chain that shares no cluster with it. */
  lemma StoredElsewhere(before: Store, after: Store, dataStart: nat, chain: seq<nat>, other: seq<nat>, bytes: seq<Byte>)
    requires Stored(before, dataStart, other, bytes)
    requires forall s :: s in before && !OnChain(dataStart, chain, s) ==> s in after && after[s] == before[s]
    requires forall j :: 0 <= j < |other| ==> other[j] !in chain
    ensures Stored(after, dataStart, other, bytes)
  {
    forall k | 0 <= k < CLUSTER_SECTORS * |other|
      ensures SectorAt(dataStart, other, k) in after
      ensures after[SectorAt(dataStart, other, k)] == Chunk(bytes, k)
    {
      SectorIsOnChain(dataStart, other, k);
    }
  }

  /** A byte of a file's storage: its contents, then zeros. */
  function ByteAt(bytes: seq<Byte>, b: nat): Byte { if b < |bytes| then bytes[b] else 0 }

  /** What a store answers to the accesses it is asked for, one after another: whether it serves each. */
  type Answers = nat -> bool

  /** Every access from the `n`-th on is served. */
  ghost predicate Willing(answers: Answers, n: nat) { forall k: nat :: k >= n ==> answers(k) }

  /** The next `m` accesses from the `n`-th on are served. */
  ghost predicate Served(answers: Answers, n: nat, m: nat) { forall k: nat :: n <= k < n + m ==> answers(k) }

  /** How many sectors a read of `n` bytes from byte `from` on asks for. */
  function Accesses(from: nat, n: nat): nat {
    if n == 0 then 0 else (from + n - 1) / SECTOR_SIZE - from / SECTOR_SIZE + 1
  }

  /** The access, counted from the first of a read, that byte `b` depends on. */
  function AccessOf(from: nat, b: nat): nat
    requires from <= b
  {
    b / SECTOR_SIZE - from / SECTOR_SIZE
  }

  /** Of the storage of a file from byte `from` on, `out` has every byte whose sector was served, the first access being the `n`-th. */
  ghost predicate Shows(out: seq<Byte>, bytes: seq<Byte>, from: nat, answers: Answers, n: nat) {
    forall j :: 0 <= j < |out| && answers(n + AccessOf(from, from + j)) ==> out[j] == ByteAt(bytes, from + j)
  }

  /** `out` is the storage of a file from byte `from` on. */
  ghost predicate ShowsAll(out: seq<Byte>, bytes: seq<Byte>, from: nat) {
    forall j :: 0 <= j < |out| ==> out[j] == ByteAt(bytes, from + j)
  }

  lemma ServedShowsAll(out: seq<Byte>, bytes: seq<Byte>, from: nat, answers: Answers, n: nat)
    requires Served(answers, n, Accesses(from, |out|)) && Shows(out, bytes, from, answers, n)
    ensures ShowsAll(out, bytes, from)
  {
    forall j | 0 <= j < |out|
      ensures out[j] == ByteAt(bytes, from + j)
    {
      AccessInRange(from, |out|, j);
      assert answers(n + AccessOf(from, from + j));
    }
  }

  lemma AccessInRange(from: nat, n: nat, j: nat)
    requires j < n
    ensures AccessOf(from, from + j) < Accesses(from, n)
  {
    DivideInOrder(from, from + j);
    DivideInOrder(from + j, from + n - 1);
  }

  lemma DivideInOrder(a: nat, b: nat)
    requires a <= b
    ensures a / SECTOR_SIZE <= b / SECTOR_SIZE
  {
  }

  lemma ShowsNothing(bytes: seq<Byte>, from: nat, answers: Answers, n: nat)
    ensures Shows([], bytes, from, answers, n) && ShowsAll([], bytes, from)
  {
  }

  /** A run of bytes within one sector of a stored file is that run of its storage, if it was served. */
  lemma ChunkShows(bytes: seq<Byte>, b: nat, n: nat, buf: Sector, answers: Answers, asked: nat)
    requires b % SECTOR_SIZE + n <= SECTOR_SIZE
    requires answers(asked) ==> buf == Chunk(bytes, b / SECTOR_SIZE)
    ensures Shows(buf[b % SECTOR_SIZE..b % SECTOR_SIZE + n], bytes, b, answers, asked)
  {
    var skip := b % SECTOR_SIZE;
    var out := buf[skip..skip + n];
    forall j | 0 <= j < n && answers(asked + AccessOf(b, b + j))
      ensures out[j] == ByteAt(bytes, b + j)
    {
      assert AccessOf(b, b + j) == 0;
    }
  }

  /** At the end of a sector the accesses of two reads add up. */
  lemma AccessesAdd(from: nat, n: nat, m: nat)
    requires n == 0 || (from + n) % SECTOR_SIZE == 0
    ensures Accesses(from, n + m) == Accesses(from, n) + Accesses(from + n, m)
  {
    if n > 0 {
      assert (from + n - 1) / SECTOR_SIZE + 1 == (from + n) / SECTOR_SIZE;
    }
  }

  lemma AccessGoesOn(from: nat, n: nat, b: nat)
    requires n == 0 || (from + n) % SECTOR_SIZE == 0
    requires from + n <= b
    ensures AccessOf(from, b) == Accesses(from, n) + AccessOf(from + n, b)
  {
    if n > 0 {
      assert (from + n - 1) / SECTOR_SIZE + 1 == (from + n) / SECTOR_SIZE;
    }
  }

  /** A read that goes on where a sector ended is one read. */
  lemma ShowsExtend(out: seq<Byte>, more: seq<Byte>, bytes: seq<Byte>, from: nat, answers: Answers, n: nat)
    requires out == [] || (from + |out|) % SECTOR_SIZE == 0
    requires Shows(out, bytes, from, answers, n)
    requires Shows(more, bytes, from + |out|, answers, n + Accesses(from, |out|))
    ensures Shows(out + more, bytes, from, answers, n)
    ensures Accesses(from, |out + more|) == Accesses(from, |out|) + Accesses(from + |out|, |more|)
  {
    AccessesAdd(from, |out|, |more|);
    hide AccessOf, Accesses, ByteAt;
    forall j | 0 <= j < |out + more| && answers(n + AccessOf(from, from + j))
      ensures (out + more)[j] == ByteAt(bytes, from + j)
    {
      if j >= |out| {
        AccessGoesOn(from, |out|, from + j);
        var k := j - |out|;
        assert from + |out| + k == from + j;
        assert answers(n + Accesses(from, |out|) + AccessOf(from + |out|, from + |out| + k));
        assert more[k] == ByteAt(bytes, from + |out| + k);
      } else {
        assert out[j] == ByteAt(bytes, from + j);
      }
    }
  }

  lemma ShowsAllExtend(out: seq<Byte>, more: seq<Byte>, bytes: seq<Byte>, from: nat)
    requires ShowsAll(out, bytes, from) && ShowsAll(more, bytes, from + |out|)
    ensures ShowsAll(out + more, bytes, from)
  {
    forall j | 0 <= j < |out + more|
      ensures (out + more)[j] == ByteAt(bytes, from + j)
    {
      assert j >= |out| ==> more[j - |out|] == ByteAt(bytes, from + |out| + (j - |out|));
    }
  }

  /** Within the contents, a read that was served throughout is that slice of them. */
  lemma ShowsIsSlice(out: seq<Byte>, bytes: seq<Byte>, from: nat)
    requires ShowsAll(out, bytes, from) && from + |out| <= |bytes|
    ensures out == bytes[from..from + |out|]
  {
  }

  /** Clusters a file of this size needs, in the 32-bit arithmetic of the code; one even when empty. */
  function ClustersNeeded(size: U32): nat {
    if size == 0 then 1 else Add32(size, CLUSTER_BYTES - 1) / CLUSTER_BYTES
  }

  const MAX_STORABLE: nat := TWO32 - CLUSTER_BYTES

  /** The sum wraps, and no cluster at all is asked for, exactly above the last whole cluster below 4 GB. */
  lemma ClustersNeededExact(size: U32)
    ensures ClustersNeeded(size) == 0 <==> size > MAX_STORABLE
    ensures size <= MAX_STORABLE ==>
              size <= ClustersNeeded(size) * CLUSTER_BYTES < size + CLUSTER_BYTES + (if size == 0 then 1 else 0)
  {
  }

  // ---- How much a read returns ---------------------------------------------------

  function Min(a: int, b: int): int { if a <= b then a else b }

  /** Bytes fs_read_raw copies, given the file's size, its chain's capacity, the offset and the request. */
  function ReadCount(fileSize: U32, capacity: nat, offset: U32, size: U32): int {
    if offset >= fileSize then 0
    else
      var want := if Add32(offset, size) > fileSize then fileSize - offset else size;
      Min(want, capacity - offset)
  }

  /**
   * A read returns what is left of the file, up to the request, exactly when the end of the
   * request does not wrap past 4 GB, or there is no slack for a wrapped one to expose.
   */
  lemma ReadCountExact(fileSize: U32, capacity: nat, offset: U32, size: U32)
    requires fileSize <= capacity <= 0x4000_0000
    ensures ReadCount(fileSize, capacity, offset, size) == (if offset >= fileSize then 0 else Min(size, fileSize - offset))
            <==> offset + size < TWO32 || offset >= fileSize || capacity == fileSize
  {
  }

  /** A wrapped request hands back slack: one byte of file, asked for past 4 GB, returns a whole cluster less one. */
  lemma WrappedReadOverruns()
    ensures ReadCount(2, CLUSTER_BYTES, 1, TWO32 - 1) == CLUSTER_BYTES - 1
  {
  }
}
