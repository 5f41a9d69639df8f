/**
 * How a disk is laid out and found again: the partition table, the superblock and the
 * geometry arithmetic of format_disk, load_partition and load_superblock (fs/vfs.c).
 */
module DiskLayout {
  import opened Common
  import opened LittleEndian
  import opened FileData

  const SUPER_MAGIC: U32 := 0x4664_7365
  const FORMAT_VERSION: nat := 3
  const ENTRY_SIZE: nat := 96
  const MAX_ENTRIES_CAP: nat := 8192
  const MAX_CLUSTERS_CAP: nat := 262144
  const FIRST_DATA_CLUSTER: nat := 2
  const DIR_START: nat := 1
  const DATA_START_SECTOR: nat := 200
  const PART_START: nat := 64
  const PART_TYPE: nat := 0x7F
  const MBR_SIGNATURE: nat := 0xAA55
  const BOOT_CODE: nat := 446
  const KEYSLOT_SIZE: nat := 116

  // ---- Geometry ------------------------------------------------------------------

  function DirSectors(entries: nat): nat { (entries * ENTRY_SIZE + 511) / 512 }

  function FatSectors(clusters: nat): nat { (clusters * 4 + 511) / 512 }

  /** Where a format puts everything. */
  datatype Geometry = Geometry(entries: nat, dirSectors: nat, fatStart: nat, dataStart: nat, clusters: nat)

  /** One pass of the settling loop: how many clusters fit once the table for `clusters` is laid. */
  function Settle(maxSectors: nat, fatStart: nat, clusters: nat): nat {
    var dataStart := fatStart + FatSectors(clusters);
    var usable := if maxSectors > dataStart then maxSectors - dataStart else 0;
    Min(clusters, usable / CLUSTER_SECTORS)
  }

  /** Shrinking the cluster count can only shrink its table, so one pass settles it. */
  lemma SettleIsIdempotent(maxSectors: nat, fatStart: nat, clusters: nat)
    ensures Settle(maxSectors, fatStart, Settle(maxSectors, fatStart, clusters)) == Settle(maxSectors, fatStart, clusters)
  {
    assert FatSectors(Settle(maxSectors, fatStart, clusters)) <= FatSectors(clusters);
  }

  /** The clusters a partition is first assumed to hold. */
  function FirstGuess(maxSectors: nat): nat {
    var usable := if maxSectors > DATA_START_SECTOR then maxSectors - DATA_START_SECTOR else 0;
    Min(usable / CLUSTER_SECTORS, MAX_CLUSTERS_CAP)
  }

  /** The entry counts the format can choose. */
  predicate EntryCount(e: nat) { e == 512 || e == 1024 || e == 2048 || e == 4096 || e == 8192 }

  /** Doubles the entry count for as long as the table stays under a twentieth of the partition. */
  method EntriesForPartition(sectors: U32) returns (entries: nat)
    ensures EntryCount(entries)
    ensures entries > 512 ==> DirSectors(entries) * 20 <= sectors
    ensures entries * 2 <= MAX_ENTRIES_CAP ==> DirSectors(entries * 2) * 20 > sectors
  {
    entries := 512;
    while entries * 2 <= MAX_ENTRIES_CAP && DirSectors(entries * 2) * 20 <= sectors
      invariant EntryCount(entries)
      invariant entries > 512 ==> DirSectors(entries) * 20 <= sectors
      decreases MAX_ENTRIES_CAP - entries
    {
      entries := entries * 2;
    }
  }

  /** A layout in which every region is where it must be. */
  ghost predicate GoodGeometry(g: Geometry, maxSectors: nat) {
    // The directory table starts after the superblock and holds every entry.
    && g.dirSectors == DirSectors(g.entries) && ENTRY_SIZE * g.entries <= SECTOR_SIZE * g.dirSectors
    && g.fatStart == DIR_START + g.dirSectors
    // The allocation table starts where the directory ends and describes every cluster.
    && g.fatStart < g.dataStart && 4 * g.clusters <= SECTOR_SIZE * (g.dataStart - g.fatStart)
    // The data starts where the table ends, and its last cluster ends inside the partition.
    && ClusterToSector(g.dataStart, g.clusters) <= maxSectors
    // There is something to allocate.
    && FIRST_DATA_CLUSTER < g.clusters <= MAX_CLUSTERS_CAP
    && EntryCount(g.entries)
  }

  /** The format path accepts a disk of this size. */
  predicate Formattable(diskSectors: U32) {
    diskSectors > PART_START + DATA_START_SECTOR &&
    FirstGuess(diskSectors - PART_START) >= FIRST_DATA_CLUSTER + 1
  }

  /**
   * One pass of the settling loop. The data starts at the first sector that leaves the table
   * room for every cluster, and what is settled on is the largest count, no larger than the
   * one tried, whose clusters all lie behind it inside the partition.
   */
  method SettlePass(maxSectors: U32, fatStart: nat, clusters: nat) returns (dataStart: nat, settled: nat)
    ensures dataStart >= fatStart && 4 * clusters <= SECTOR_SIZE * (dataStart - fatStart)
    ensures dataStart > fatStart ==> 4 * clusters > SECTOR_SIZE * (dataStart - fatStart - 1)
    ensures settled <= clusters && (settled > 0 ==> ClusterToSector(dataStart, settled) <= maxSectors)
    ensures forall n :: settled < n <= clusters ==> ClusterToSector(dataStart, n) > maxSectors
    ensures dataStart == fatStart + FatSectors(clusters) && settled == Settle(maxSectors, fatStart, clusters)
  {
    var fatSectors := (clusters * 4 + 511) / 512;
    dataStart := fatStart + fatSectors;
    var usable := if maxSectors > dataStart then maxSectors - dataStart else 0;
    var fit := usable / CLUSTER_SECTORS;
    settled := clusters;
    if fit < clusters {
      settled := fit;
    }
  }

  lemma TablesCover(entries: nat, clusters: nat)
    ensures ENTRY_SIZE * entries <= SECTOR_SIZE * DirSectors(entries)
    ensures 4 * clusters <= SECTOR_SIZE * FatSectors(clusters)
  {
  }

  /** The geometry of a new file system, for every partition the format path accepts. */
  method FormatGeometry(maxSectors: U32, guess: nat) returns (g: Geometry)
    requires maxSectors > DATA_START_SECTOR && guess == FirstGuess(maxSectors) && guess > FIRST_DATA_CLUSTER
    ensures GoodGeometry(g, maxSectors)
    ensures g.clusters == Settle(maxSectors, g.fatStart, guess)
    ensures Settle(maxSectors, g.fatStart, g.clusters) == g.clusters
    ensures g.dataStart == g.fatStart + FatSectors(g.clusters)
    ensures g.clusters == Min(Min((maxSectors - 200) / 8, 262144), (maxSectors - g.fatStart - FatSectors(guess)) / 8)
    ensures g.clusters < 262144 ==> maxSectors < g.dataStart + 8 * g.clusters + 208
  {
    hide Settle, FatSectors, DirSectors;
    var entries := EntriesForPartition(maxSectors);
    var dirSectors := DirSectors(entries);
    var fatStart := DIR_START + dirSectors;
    var clusters := guess;
    var dataStart := 0;
    SettleIsIdempotent(maxSectors, fatStart, guess);
    RoomForTables(maxSectors, entries, guess);
    LittleWasted(maxSectors, entries, guess);
    for pass := 0 to 2
      invariant clusters == if pass == 0 then guess else Settle(maxSectors, fatStart, guess)
      invariant pass > 0 ==> dataStart == fatStart + FatSectors(if pass == 1 then guess else clusters)
    {
      dataStart, clusters := SettlePass(maxSectors, fatStart, clusters);
    }
    TablesCover(entries, clusters);
    g := Geometry(entries, dirSectors, fatStart, dataStart, clusters);
  }

  /** The tables never crowd out the data: some clusters always fit. */
  lemma RoomForTables(maxSectors: U32, entries: nat, guess: nat)
    requires maxSectors > DATA_START_SECTOR && guess == FirstGuess(maxSectors) && guess > FIRST_DATA_CLUSTER
    requires EntryCount(entries) && (entries > 512 ==> DirSectors(entries) * 20 <= maxSectors)
    ensures FIRST_DATA_CLUSTER < Settle(maxSectors, DIR_START + DirSectors(entries), guess) <= guess
    ensures ClusterToSector(DIR_START + DirSectors(entries) + FatSectors(Settle(maxSectors, DIR_START + DirSectors(entries), guess)),
                            Settle(maxSectors, DIR_START + DirSectors(entries), guess)) <= maxSectors
  {
    var fatStart := DIR_START + DirSectors(entries);
    var clusters := Settle(maxSectors, fatStart, guess);
    assert DirSectors(entries) == entries * 3 / 16;
    assert FatSectors(clusters) <= FatSectors(guess) <= guess / 128 + 1;
  }

  /** What a settled layout leaves unused: less than the 208 sectors the first guess sets aside, short of the cap. */
  lemma LittleWasted(maxSectors: U32, entries: nat, guess: nat)
    requires maxSectors > DATA_START_SECTOR && guess == FirstGuess(maxSectors) && EntryCount(entries)
    requires Settle(maxSectors, DIR_START + DirSectors(entries), guess) > 0
    ensures var fatStart := DIR_START + DirSectors(entries);
            var clusters := Settle(maxSectors, fatStart, guess);
            && clusters == Min(Min((maxSectors - 200) / 8, 262144), (maxSectors - fatStart - FatSectors(guess)) / 8)
            && (clusters < 262144 ==> maxSectors < fatStart + FatSectors(clusters) + 8 * clusters + 208)
  {
  }

  // ---- The partition table -------------------------------------------------------

  datatype Partition = Partition(status: nat, chsFirst: nat, ptype: nat, chsLast: nat, first: nat, count: nat)

  const NO_PARTITION := Partition(0, 0, 0, 0, 0, 0)

  function PartitionFields(p: Partition): seq<Field> {
    [Field(1, p.status), Field(3, p.chsFirst), Field(1, p.ptype), Field(3, p.chsLast), Field(4, p.first), Field(4, p.count)]
  }

  function ReadPartition(buf: seq<Byte>): Partition
    requires |buf| >= 16
  {
    Partition(ReadAt(buf, 0, 1), ReadAt(buf, 1, 3), ReadAt(buf, 4, 1), ReadAt(buf, 5, 3), ReadAt(buf, 8, 4), ReadAt(buf, 12, 4))
  }

  lemma PartitionRoundTrip(p: Partition, rest: seq<Byte>)
    requires FieldsFit(PartitionFields(p))
    ensures |Record(PartitionFields(p))| == 16
    ensures ReadPartition(Record(PartitionFields(p)) + rest) == p
  {
    var fs := PartitionFields(p);
    PartitionOffsets(fs);
    RecordLength(fs);
    FieldRoundTrip(fs, 0, rest);
    FieldRoundTrip(fs, 1, rest);
    FieldRoundTrip(fs, 2, rest);
    FieldRoundTrip(fs, 3, rest);
    FieldRoundTrip(fs, 4, rest);
    FieldRoundTrip(fs, 5, rest);
  }

  lemma PartitionOffsets(fs: seq<Field>)
    requires |fs| == 6
    requires fs[0].width == 1 && fs[1].width == 3 && fs[2].width == 1 && fs[3].width == 3
    requires fs[4].width == 4 && fs[5].width == 4
    ensures Offset(fs, 1) == 1 && Offset(fs, 2) == 4 && Offset(fs, 3) == 5 && Offset(fs, 4) == 8 && Offset(fs, 5) == 12
    ensures Offset(fs, 6) == 16
  {
    assert Offset(fs, 0) == 0;
    hide Offset;
    OffsetStep(fs, 0);
    OffsetStep(fs, 1);
    OffsetStep(fs, 2);
    OffsetStep(fs, 3);
    OffsetStep(fs, 4);
    OffsetStep(fs, 5);
  }

  /** The partition a format writes: everything after its start. */
  function NewPartition(diskSectors: U32): Partition
    requires diskSectors >= PART_START
  {
    Partition(0, 0, PART_TYPE, 0, PART_START, diskSectors - PART_START)
  }

  /** Sector 0 as write_mbr leaves it. */
  function MbrSector(p: Partition): seq<Byte> {
    seq(BOOT_CODE, _ => 0) + Record(PartitionFields(p)) + Record(PartitionFields(NO_PARTITION)) +
    Record(PartitionFields(NO_PARTITION)) + Record(PartitionFields(NO_PARTITION)) + Encode(MBR_SIGNATURE, 2)
  }

  function PartitionAt(buf: Sector, i: nat): Partition
    requires i < 4
  {
    ReadPartition(buf[BOOT_CODE + 16 * i..BOOT_CODE + 16 * i + 16])
  }

  /** Which partition entries the loader accepts. */
  predicate Usable(p: Partition, diskSectors: U32) {
    && p.ptype == PART_TYPE
    && p.first != 0 && p.count != 0
    && p.first < diskSectors
    && p.count <= diskSectors - p.first
    && p.count > DATA_START_SECTOR
  }

  /** Finds the first partition that is ours and lies on the disk. */
  method LoadPartition(buf: Sector, diskSectors: U32) returns (found: Option<Partition>)
    ensures ReadAt(buf, 510, 2) != MBR_SIGNATURE ==> found == None
    ensures ReadAt(buf, 510, 2) == MBR_SIGNATURE && found == None ==>
              forall i :: 0 <= i < 4 ==> !Usable(PartitionAt(buf, i), diskSectors)
    ensures found.Some? ==> exists i :: 0 <= i < 4 && found.value == PartitionAt(buf, i) &&
                                        Usable(PartitionAt(buf, i), diskSectors) &&
                                        forall j :: 0 <= j < i ==> !Usable(PartitionAt(buf, j), diskSectors)
  {
    hide PartitionAt, Decode;
    if ReadAt(buf, 510, 2) != MBR_SIGNATURE {
      return None;
    }
    for i := 0 to 4
      invariant forall j :: 0 <= j < i ==> !Usable(PartitionAt(buf, j), diskSectors)
    {
      var p := PartitionAt(buf, i);
      if p.ptype == PART_TYPE && p.first != 0 && p.count != 0 && p.first < diskSectors &&
         p.count <= diskSectors - p.first && p.count > DATA_START_SECTOR {
        return Some(p);
      }
    }
    found := None;
  }

  lemma Pow256Values()
    ensures Pow256(1) == 0x100 && Pow256(2) == 0x1_0000 && Pow256(3) == 0x100_0000 && Pow256(4) == TWO32
  {
    assert Pow256(1) == 256 * Pow256(0);
    assert Pow256(2) == 256 * Pow256(1);
    assert Pow256(3) == 256 * Pow256(2);
  }

  /** Where the fields of a partition entry lie: its type at byte 4, its first sector at 8 and its length at 12. */
  lemma PartitionLayout(p: Partition)
    requires FieldsFit(PartitionFields(p))
    ensures var b := Record(PartitionFields(p));
            && |b| == 16 && b[0..1] == Encode(p.status, 1) && b[4..5] == Encode(p.ptype, 1)
            && b[8..12] == Encode(p.first, 4) && b[12..16] == Encode(p.count, 4)
  {
    hide Record, Encode, Decode, Pow256;
    PartitionRoundTrip(p, []);
    var fs, b := PartitionFields(p), Record(PartitionFields(p));
    assert b + [] == b;
    assert fs[0].value < Pow256(fs[0].width) && fs[2].value < Pow256(fs[2].width);
    assert fs[4].value < Pow256(fs[4].width) && fs[5].value < Pow256(fs[5].width);
    NumberIs(b[0..1], p.status);
    NumberIs(b[4..5], p.ptype);
    NumberIs(b[8..12], p.first);
    NumberIs(b[12..16], p.count);
  }

  /** The partition table a format writes leads back to the partition it describes. */
  lemma MbrRoundTrip(diskSectors: U32)
    requires Formattable(diskSectors)
    ensures var mbr := MbrSector(NewPartition(diskSectors));
            && |mbr| == SECTOR_SIZE
            && ReadAt(mbr, 510, 2) == MBR_SIGNATURE
            && PartitionAt(mbr, 0) == NewPartition(diskSectors)
            && Usable(PartitionAt(mbr, 0), diskSectors)
  {
    Pow256Values();
    hide Pow256, Record, Encode, Decode;
    var p := NewPartition(diskSectors);
    var mbr := MbrSector(p);
    PartitionRoundTrip(p, []);
    PartitionRoundTrip(NO_PARTITION, []);
    EncodeRoundTrip(MBR_SIGNATURE, 2);
    assert |mbr| == SECTOR_SIZE;
    assert mbr[510..512] == Encode(MBR_SIGNATURE, 2);
    assert mbr[BOOT_CODE..BOOT_CODE + 16] == Record(PartitionFields(p)) + [];
  }

  // ---- The superblock ------------------------------------------------------------

  datatype Super = Super(
    magic: nat, version: nat, sectorSize: nat, totalSectors: nat, dirStart: nat, dirSectors: nat, maxEntries: nat,
    entrySize: nat, clusterSectors: nat, fatStart: nat, dataStart: nat, totalClusters: nat, flags: nat,
    keyslot: seq<Byte>)

  function SuperFields(s: Super): seq<Field> {
    [Field(4, s.magic), Field(2, s.version), Field(2, s.sectorSize), Field(4, s.totalSectors), Field(4, s.dirStart),
     Field(4, s.dirSectors), Field(4, s.maxEntries), Field(2, s.entrySize), Field(2, s.clusterSectors),
     Field(4, s.fatStart), Field(4, s.dataStart), Field(4, s.totalClusters), Field(4, s.flags)]
  }

  ghost predicate SuperFits(s: Super) { FieldsFit(SuperFields(s)) && |s.keyslot| == KEYSLOT_SIZE }

  /** The superblock sector as save_superblock writes it, the tail zeroed. */
  function SuperSector(s: Super): seq<Byte> {
    Record(SuperFields(s)) + (s.keyslot + seq(SECTOR_SIZE - 44 - KEYSLOT_SIZE, _ => 0))
  }

  function ReadSuper(buf: seq<Byte>): Super
    requires |buf| >= 44 + KEYSLOT_SIZE
  {
    Super(ReadAt(buf, 0, 4), ReadAt(buf, 4, 2), ReadAt(buf, 6, 2), ReadAt(buf, 8, 4), ReadAt(buf, 12, 4),
          ReadAt(buf, 16, 4), ReadAt(buf, 20, 4), ReadAt(buf, 24, 2), ReadAt(buf, 26, 2), ReadAt(buf, 28, 4),
          ReadAt(buf, 32, 4), ReadAt(buf, 36, 4), ReadAt(buf, 40, 4), buf[44..44 + KEYSLOT_SIZE])
  }

  lemma SuperOffsets(fs: seq<Field>)
    requires |fs| == 13
    requires forall k :: 0 <= k < 13 ==> fs[k].width == if k in {1, 2, 7, 8} then 2 else 4
    ensures Offset(fs, 0) == 0 && Offset(fs, 1) == 4 && Offset(fs, 2) == 6 && Offset(fs, 3) == 8 && Offset(fs, 4) == 12
    ensures Offset(fs, 5) == 16 && Offset(fs, 6) == 20 && Offset(fs, 7) == 24 && Offset(fs, 8) == 26
    ensures Offset(fs, 9) == 28 && Offset(fs, 10) == 32 && Offset(fs, 11) == 36 && Offset(fs, 12) == 40
    ensures Offset(fs, 13) == 44
  {
    assert Offset(fs, 0) == 0;
    hide Offset;
    OffsetStep(fs, 0);
    OffsetStep(fs, 1);
    OffsetStep(fs, 2);
    OffsetStep(fs, 3);
    OffsetStep(fs, 4);
    OffsetStep(fs, 5);
    OffsetStep(fs, 6);
    OffsetStep(fs, 7);
    OffsetStep(fs, 8);
    OffsetStep(fs, 9);
    OffsetStep(fs, 10);
    OffsetStep(fs, 11);
    OffsetStep(fs, 12);
  }

  /** What is written is what is read, key slot and all. */
  lemma SuperRoundTrip(s: Super)
    requires SuperFits(s)
    ensures |SuperSector(s)| == SECTOR_SIZE && ReadSuper(SuperSector(s)) == s
  {
    var fs := SuperFields(s);
    var rest := s.keyslot + seq(SECTOR_SIZE - 44 - KEYSLOT_SIZE, _ => 0);
    SuperOffsets(fs);
    RecordLength(fs);
    forall k | 0 <= k < 13
      ensures Offset(fs, k) + fs[k].width <= SECTOR_SIZE
      ensures ReadAt(SuperSector(s), Offset(fs, k), fs[k].width) == fs[k].value
    {
      FieldRoundTrip(fs, k, rest);
    }
    hide Record, Decode;
    assert SuperSector(s)[44..44 + KEYSLOT_SIZE] == s.keyslot;
  }

  /** Where the fields of a superblock lie, byte by byte, as the packed struct has them. */
  lemma SuperLayout(s: Super)
    requires SuperFits(s)
    ensures var b := SuperSector(s);
            && |b| == SECTOR_SIZE
            && b[0..4] == Encode(s.magic, 4) && b[4..6] == Encode(s.version, 2) && b[6..8] == Encode(s.sectorSize, 2)
            && b[8..12] == Encode(s.totalSectors, 4) && b[12..16] == Encode(s.dirStart, 4) && b[16..20] == Encode(s.dirSectors, 4)
            && b[20..24] == Encode(s.maxEntries, 4) && b[24..26] == Encode(s.entrySize, 2) && b[26..28] == Encode(s.clusterSectors, 2)
            && b[28..32] == Encode(s.fatStart, 4) && b[32..36] == Encode(s.dataStart, 4) && b[36..40] == Encode(s.totalClusters, 4)
            && b[40..44] == Encode(s.flags, 4) && b[44..44 + KEYSLOT_SIZE] == s.keyslot
  {
    hide SuperSector, Encode, Decode, Pow256;
    SuperRoundTrip(s);
    SuperBounds(s);
    var b := SuperSector(s);
    NumberIs(b[0..4], s.magic);
    NumberIs(b[4..6], s.version);
    NumberIs(b[6..8], s.sectorSize);
    NumberIs(b[8..12], s.totalSectors);
    NumberIs(b[12..16], s.dirStart);
    NumberIs(b[16..20], s.dirSectors);
    NumberIs(b[20..24], s.maxEntries);
    NumberIs(b[24..26], s.entrySize);
    NumberIs(b[26..28], s.clusterSectors);
    NumberIs(b[28..32], s.fatStart);
    NumberIs(b[32..36], s.dataStart);
    NumberIs(b[36..40], s.totalClusters);
    NumberIs(b[40..44], s.flags);
  }

  lemma SuperBounds(s: Super)
    requires SuperFits(s)
    ensures s.magic < Pow256(4) && s.version < Pow256(2) && s.sectorSize < Pow256(2) && s.totalSectors < Pow256(4)
    ensures s.dirStart < Pow256(4) && s.dirSectors < Pow256(4) && s.maxEntries < Pow256(4) && s.entrySize < Pow256(2)
    ensures s.clusterSectors < Pow256(2) && s.fatStart < Pow256(4) && s.dataStart < Pow256(4) && s.totalClusters < Pow256(4)
    ensures s.flags < Pow256(4)
  {
    hide Pow256;
    var fs := SuperFields(s);
    assert fs[0].value < Pow256(fs[0].width) && fs[1].value < Pow256(fs[1].width) && fs[2].value < Pow256(fs[2].width);
    assert fs[3].value < Pow256(fs[3].width) && fs[4].value < Pow256(fs[4].width) && fs[5].value < Pow256(fs[5].width);
    assert fs[6].value < Pow256(fs[6].width) && fs[7].value < Pow256(fs[7].width) && fs[8].value < Pow256(fs[8].width);
    assert fs[9].value < Pow256(fs[9].width) && fs[10].value < Pow256(fs[10].width) && fs[11].value < Pow256(fs[11].width);
    assert fs[12].value < Pow256(fs[12].width);
  }

  /** The checks of load_superblock, in the 32-bit arithmetic of the code. */
  predicate Readable(s: Super, maxSectors: U32) {
    && s.magic == SUPER_MAGIC
    && s.version == FORMAT_VERSION
    && s.sectorSize == SECTOR_SIZE && s.entrySize == ENTRY_SIZE && s.maxEntries <= MAX_ENTRIES_CAP
    && s.clusterSectors == CLUSTER_SECTORS
    && s.totalClusters != 0 && s.totalClusters <= MAX_CLUSTERS_CAP
    && s.dirStart != 0 && s.fatStart > s.dirStart && s.dataStart > s.fatStart
    && (s.dataStart + s.totalClusters * s.clusterSectors) % TWO32 <= maxSectors
  }

  /** Bytes that say the file system is this one: "esdF" and the format version, then the sizes both sides must agree on. */
  const SIGNATURE: seq<Byte> := [0x65, 0x73, 0x64, 0x46, 3, 0, 0, 2]
  const AGREED_SIZES: seq<Byte> := [96, 0, 8, 0]

  /**
   * A sector is accepted exactly when it carries that signature and those sizes, and its counts and
   * starts are in bounds and in order.
   */
  lemma AcceptedExactly(buf: seq<Byte>, maxSectors: U32)
    requires |buf| >= 44 + KEYSLOT_SIZE
    ensures var s := ReadSuper(buf);
            Readable(s, maxSectors) <==>
              && buf[..8] == SIGNATURE && buf[24..28] == AGREED_SIZES
              && s.maxEntries <= MAX_ENTRIES_CAP && 1 <= s.totalClusters <= MAX_CLUSTERS_CAP
              && 0 < s.dirStart < s.fatStart < s.dataStart
              && (s.dataStart + s.totalClusters * CLUSTER_SECTORS) % TWO32 <= maxSectors
  {
    hide Decode, Encode, Pow256;
    SignedExactly(buf);
    AgreesExactly(buf);
  }

  lemma SignedExactly(buf: seq<Byte>)
    requires |buf| >= 8
    ensures buf[..8] == SIGNATURE <==>
              ReadAt(buf, 0, 4) == SUPER_MAGIC && ReadAt(buf, 4, 2) == FORMAT_VERSION && ReadAt(buf, 6, 2) == SECTOR_SIZE
  {
    hide Decode, Encode, Pow256;
    SignatureBytes();
    NumberIs(buf[0..4], SUPER_MAGIC);
    NumberIs(buf[4..6], FORMAT_VERSION);
    NumberIs(buf[6..8], SECTOR_SIZE);
    InThree(buf[..8], buf[0..4], buf[4..6], buf[6..8]);
    InThree(SIGNATURE, SIGNATURE[..4], SIGNATURE[4..6], SIGNATURE[6..]);
  }

  lemma AgreesExactly(buf: seq<Byte>)
    requires |buf| >= 28
    ensures buf[24..28] == AGREED_SIZES <==> ReadAt(buf, 24, 2) == ENTRY_SIZE && ReadAt(buf, 26, 2) == CLUSTER_SECTORS
  {
    hide Decode, Encode, Pow256;
    SizeBytes();
    NumberIs(buf[24..26], ENTRY_SIZE);
    NumberIs(buf[26..28], CLUSTER_SECTORS);
    InThree(buf[24..28], [], buf[24..26], buf[26..28]);
    InThree(AGREED_SIZES, [], AGREED_SIZES[..2], AGREED_SIZES[2..]);
  }

  lemma InThree(s: seq<Byte>, a: seq<Byte>, b: seq<Byte>, c: seq<Byte>)
    requires |s| == |a| + |b| + |c|
    requires s[..|a|] == a && s[|a|..|a| + |b|] == b && s[|a| + |b|..] == c
    ensures s == a + b + c
  {
  }

  lemma NumberIs(b: seq<Byte>, x: nat)
    requires x < Pow256(|b|)
    ensures Decode(b) == x <==> b == Encode(x, |b|)
  {
    hide Decode, Encode, Pow256;
    EncodeRoundTrip(x, |b|);
    DecodeRoundTrip(b);
  }

  lemma EncodeStep(low: nat, high: nat, n: nat)
    requires low < 256
    ensures Encode(256 * high + low, n + 1) == [low as Byte] + Encode(high, n)
  {
    var x := 256 * high + low;
    assert x % 256 == low && x / 256 == high;
  }

  lemma EncodeTwo(a: nat, b: nat)
    requires a < 256 && b < 256
    ensures Encode(256 * b + a, 2) == [a as Byte, b as Byte]
  {
    EncodeStep(a, b, 1);
    EncodeStep(b, 0, 0);
    assert Encode(0, 0) == [];
    hide Encode;
  }

  lemma SignatureBytes()
    ensures Pow256(2) == 0x1_0000 && Pow256(4) == TWO32
    ensures Encode(SUPER_MAGIC, 4) == SIGNATURE[..4] && Encode(FORMAT_VERSION, 2) == SIGNATURE[4..6] && Encode(SECTOR_SIZE, 2) == SIGNATURE[6..]
  {
    hide Encode, Pow256;
    Pow256Values();
    EncodeTwo(0x64, 0x46);
    EncodeStep(0x73, 0x4664, 2);
    EncodeStep(0x65, 0x466473, 3);
    EncodeTwo(3, 0);
    EncodeTwo(0, 2);
  }

  lemma SizeBytes()
    ensures Pow256(2) == 0x1_0000
    ensures Encode(ENTRY_SIZE, 2) == AGREED_SIZES[..2] && Encode(CLUSTER_SECTORS, 2) == AGREED_SIZES[2..]
  {
    hide Encode, Pow256;
    Pow256Values();
    EncodeTwo(96, 0);
    EncodeTwo(8, 0);
  }

  /** The superblock of a new file system. */
  function NewSuper(g: Geometry, maxSectors: U32): Super {
    Super(SUPER_MAGIC, FORMAT_VERSION, SECTOR_SIZE, maxSectors, DIR_START, g.dirSectors, g.entries, ENTRY_SIZE,
          CLUSTER_SECTORS, g.fatStart, g.dataStart, g.clusters, 0, seq(KEYSLOT_SIZE, _ => 0))
  }

  /** A new file system is found again by the mount, with the geometry it was given. */
  lemma FormatThenLoad(g: Geometry, maxSectors: U32)
    requires GoodGeometry(g, maxSectors)
    ensures var sector := SuperSector(NewSuper(g, maxSectors));
            && |sector| == SECTOR_SIZE
            && ReadSuper(sector) == NewSuper(g, maxSectors)
            && Readable(ReadSuper(sector), maxSectors)
  {
    NewSuperFits(g, maxSectors);
    NewSuperReadable(g, maxSectors);
    hide *;
    SuperRoundTrip(NewSuper(g, maxSectors));
  }

  /** Behind the layout a new superblock is all zeros, so it has no key slot yet. */
  lemma NoKeySlotYet(g: Geometry, maxSectors: U32, i: nat)
    requires GoodGeometry(g, maxSectors) && 40 <= i < SECTOR_SIZE
    ensures |SuperSector(NewSuper(g, maxSectors))| == SECTOR_SIZE && SuperSector(NewSuper(g, maxSectors))[i] == 0
  {
    hide Encode, GoodGeometry, Record, SuperFields, SuperFits;
    NewSuperFits(g, maxSectors);
    var s := NewSuper(g, maxSectors);
    SuperLayout(s);
    var b := SuperSector(s);
    if i < 44 {
      LittleEndian.ByteAt(0, 4, i - 40);
      NothingWithout(i - 40);
      assert b[i] == b[40..44][i - 40];
    } else if i < 44 + KEYSLOT_SIZE {
      assert b[i] == b[44..44 + KEYSLOT_SIZE][i - 44];
    }
  }

  lemma NothingWithout(k: nat)
    requires k < 4
    ensures Without(0, k) == 0
  {
  }

  lemma NewSuperReadable(g: Geometry, maxSectors: U32)
    requires GoodGeometry(g, maxSectors)
    ensures Readable(NewSuper(g, maxSectors), maxSectors)
  {
  }

  lemma NewSuperFits(g: Geometry, maxSectors: U32)
    requires GoodGeometry(g, maxSectors)
    ensures SuperFits(NewSuper(g, maxSectors))
  {
    Pow256Values();
    hide Pow256;
  }

  /**
   * The loader's promise that an accepted superblock keeps its last cluster inside the
   * partition holds exactly when the sum it checks does not wrap.
   */
  lemma ReadableFits(s: Super, maxSectors: U32)
    requires Readable(s, maxSectors)
    ensures ClusterToSector(s.dataStart, s.totalClusters) <= maxSectors <==>
            ClusterToSector(s.dataStart, s.totalClusters) < TWO32
  {
  }

  /** What a superblock's numbers make the tables take up: the entries, and a word for every cluster. */
  ghost predicate RegionsApart(s: Super) {
    // Counting sectors [start, start + length), neither table reaches into what follows it.
    && s.dirStart + DirSectors(s.maxEntries) <= s.fatStart
    && s.fatStart + FatSectors(s.totalClusters) <= s.dataStart
  }

  /** No sector is two things at once: directory, allocation table or data. */
  ghost predicate OneUse(s: Super) {
    forall n: nat ::
      && !(InDirectory(s, n) && InTable(s, n)) && !(InTable(s, n) && InData(s, n)) && !(InDirectory(s, n) && InData(s, n))
  }

  predicate InDirectory(s: Super, n: nat) { s.dirStart <= n < s.dirStart + DirSectors(s.maxEntries) }

  predicate InTable(s: Super, n: nat) { s.fatStart <= n < s.fatStart + FatSectors(s.totalClusters) }

  predicate InData(s: Super, n: nat) { s.dataStart <= n < ClusterToSector(s.dataStart, s.totalClusters) }

  /**
   * The loader checks the order of the starts, not the extents. An accepted superblock gives
   * every sector one use exactly when each table ends before the next region starts.
   */
  lemma RegionsApartExact(s: Super, maxSectors: U32)
    requires Readable(s, maxSectors)
    ensures OneUse(s) <==> RegionsApart(s)
  {
    hide DirSectors, FatSectors;
    TableIsThere(s.totalClusters);
    if OneUse(s) {
      assert !(InDirectory(s, s.fatStart) && InTable(s, s.fatStart));
      assert !(InTable(s, s.dataStart) && InData(s, s.dataStart));
    }
  }

  lemma TableIsThere(clusters: nat)
    requires clusters > 0
    ensures FatSectors(clusters) > 0 && ClusterToSector(0, clusters) > 0
  {
  }

  /** An accepted superblock whose directory lies over its allocation table and its data. */
  lemma OverlapAccepted()
    ensures var s := Super(SUPER_MAGIC, FORMAT_VERSION, SECTOR_SIZE, 100, 1, 1, MAX_ENTRIES_CAP, ENTRY_SIZE, CLUSTER_SECTORS, 2,
                           3, 3, 0, seq(KEYSLOT_SIZE, _ => 0));
            Readable(s, 100) && InDirectory(s, 2) && InTable(s, 2) && InDirectory(s, 3) && InData(s, 3)
  {
  }

  /** A superblock whose data starts eight sectors short of 2^32 is accepted on a partition of a hundred. */
  lemma WrappedSuperAccepted()
    ensures var s := Super(SUPER_MAGIC, FORMAT_VERSION, SECTOR_SIZE, 100, 1, 1, 512, ENTRY_SIZE, CLUSTER_SECTORS, 2,
                           TWO32 - CLUSTER_SECTORS, 1, 0, seq(KEYSLOT_SIZE, _ => 0));
            Readable(s, 100) && ClusterToSector(s.dataStart, s.totalClusters) > 100
  {
  }

  /** Formatting a blank disk of any accepted size and mounting it again gives back one geometry. */
  method FormatThenMount(diskSectors: U32) returns (g: Geometry, part: Option<Partition>, super: Super)
    requires Formattable(diskSectors)
    ensures part == Some(NewPartition(diskSectors))
    ensures part.value.first + part.value.count == diskSectors
    ensures GoodGeometry(g, part.value.count)
    ensures super == NewSuper(g, part.value.count) && Readable(super, part.value.count)
  {
    hide MbrSector, PartitionAt, ReadAt, Usable, SuperSector, ReadSuper, Readable, GoodGeometry;
    var maxSectors: U32 := diskSectors - PART_START;
    var mbr := MbrSector(NewPartition(diskSectors));
    g := FormatGeometry(maxSectors, FirstGuess(maxSectors));
    var sector := SuperSector(NewSuper(g, maxSectors));
    MbrRoundTrip(diskSectors);
    part := LoadPartition(mbr, diskSectors);
    FormatThenLoad(g, maxSectors);
    super := ReadSuper(sector);
  }
}
