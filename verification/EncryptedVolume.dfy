/**
 * Encrypted files on a volume (fs_create_encrypted and fs_read_encrypted of fs/crypto_fs.c):
 * sealed, stored over a chain of clusters, read back from the disk, opened and copied out.
 */
module EncryptedVolume {
  import opened Common
  import opened Blocks
  import opened FileData
  import opened EncryptedFiles
  import opened EncryptedBuffers
  import Directory
  import Fat
  import FileSystem
  import Aes

  /**
   * Seals data and stores the result as a new file. What the file holds is the sealed form,
   * and it is on the disk exactly if each sector whose write the store refuses happened to
   * hold its share.
   */
  method CreateEncrypted(v: FileSystem.Volume, name: string, data: seq<Byte>, iv: Block, w: Aes.RoundKeys, mac: seq<Byte> -> Tag,
                         parent: nat, who: FileSystem.Caller)
    returns (r: Status, ghost slot: int)
    requires v.Valid() && |data| < TWO32
    modifies v`store, v`asked, v`savedFat, v`savedDir, v`own, v`bytes, v.fat, v.dir
    ensures r == FileSystem.CreateOutcome(v.mounted, old(v.fat[..]), old(v.dir[..]), name, parent, StoredLength(|data|))
    ensures r != Ok ==> v.Valid() && v.Untouched()
    ensures r == Ok && |data| <= TWO32 - 72 && StoredLength(|data|) <= MAX_STORABLE ==>
              && v.Valid() && 0 < slot < v.dir.Length && slot in v.own.chains
              && Directory.Matches(v.dir[slot], parent, name)
              && v.Contents(slot) == Seal(AesKey(w, mac), iv, data)
              && v.Intact() == old(v.Intact()) + FileSystem.Only(slot, slot in v.Intact())
              && v.asked >= old(v.asked)
              && (slot in v.Intact() <==>
                    FileSystem.Held(old(v.store), v.dataStart, FileSystem.NewChain(old(v.fat[..]), StoredLength(|data|)),
                                    Seal(AesKey(w, mac), iv, data), v.answers, old(v.asked)))
  {
    hide Seal, FileSystem.Volume.Geometry, FileSystem.Volume.Tables, FileSystem.CreateOutcome, FileSystem.IntactSlots;
    hide FileSystem.Held, FileSystem.NewChain;
    var mem := new Byte[TWO32];
    var total;
    ghost var reach;
    total, reach := SealFile(mem, data, iv, w, mac);
    r, slot := v.CreateFileRaw(name, mem[..total], parent, who);
  }

  /** What a read of a stored form gives: bytes of the plaintext it opens to, or nothing if it does not open. */
  ghost predicate IsRead(out: seq<Byte>, k: Key, stored: seq<Byte>, past: Block, offset: U32, size: U32) {
    var o := Open(k, stored, past);
    if o.Opened? && o.length >= 0 then |out| == ReadLength(o.length, offset, size) && Copied(out, o.plain, offset)
    else out == []
  }

  /**
   * One read of an encrypted file through an open handle: the whole stored form is read from
   * the disk, opened, and the bytes from the handle's offset copied out. `past` is the memory
   * behind the buffer the file is read into.
   */
  method ReadFile(v: FileSystem.Volume, f: FileSystem.OpenFile, size: U32, past: Block,
                  w: Aes.RoundKeys, mac: seq<Byte> -> Tag, ghost iv: Block, ghost data: seq<Byte>)
    returns (out: seq<Byte>)
    requires v.Valid() && v.IsOpen(f)
    modifies f`offset, v`asked
    ensures v.Valid() && |out| <= size && f.offset == Add32(old(f.offset), |out|)
    ensures v.asked == old(v.asked) + if f.size <= PREFIX then 0 else Accesses(0, f.size)
    ensures Served(v.answers, old(v.asked), v.asked - old(v.asked)) && f.slot in v.Intact() ==>
              IsRead(out, AesKey(w, mac), v.Contents(f.slot), past, old(f.offset), size)
    ensures Served(v.answers, old(v.asked), v.asked - old(v.asked)) && f.slot in v.Intact() && v.Contents(f.slot) == Seal(AesKey(w, mac), iv, data) ==>
              |out| == ReadLength(|data|, old(f.offset), size) && Copied(out, data, old(f.offset))
  {
    hide Seal, Open, IsRead, Copied, ReadLength, Shows, Add32, Served, Accesses, FileSystem.TablesOk, FileSystem.IntactSlots;
    out := [];
    StoredFacts(v, f);
    SealedLength(AesKey(w, mac), iv, data);
    AddNothing(f.offset);
    if f.size <= PREFIX {
      ShortReadsNothing(AesKey(w, mac), v.Contents(f.slot), past, f.offset, size);
      return;
    }
    var offset := f.offset;
    var read := ReadStored(v, f);
    var next;
    out, next := OpenAndCopy(read, past, offset, size, w, mac, iv, data);
    f.offset := next;
  }

  lemma ShortReadsNothing(k: Key, stored: seq<Byte>, past: Block, offset: U32, size: U32)
    requires |stored| <= PREFIX
    ensures IsRead([], k, stored, past, offset, size)
  {
    hide Open;
    ShortIsRefused(k, stored, past);
  }

  /** The whole stored form of a file. */
  method ReadStored(v: FileSystem.Volume, f: FileSystem.OpenFile) returns (read: seq<Byte>)
    requires v.Valid() && v.IsOpen(f)
    modifies f`offset, v`asked
    ensures v.Valid() && v.asked == old(v.asked) + Accesses(0, f.size) && |read| == f.size
    ensures Served(v.answers, old(v.asked), Accesses(0, f.size)) && f.slot in v.Intact() ==> read == v.Contents(f.slot)
  {
    hide Shows, ShowsAll, Served, Accesses, FileSystem.TablesOk, FileSystem.IntactSlots;
    StoredFacts(v, f);
    f.offset := 0;
    read := v.ReadRaw(f, f.size);
    if Served(v.answers, old(v.asked), Accesses(0, f.size)) && f.slot in v.Intact() {
      ServedShowsAll(read, v.Contents(f.slot), 0, v.answers, old(v.asked));
      ShowsIsSlice(read, v.Contents(f.slot), 0);
    }
  }

  lemma AddNothing(a: U32)
    ensures Add32(a, 0) == a
  {
  }

  /** The part of a read that follows the disk: what was sealed is opened and its bytes copied out. */
  method OpenAndCopy(read: seq<Byte>, past: Block, offset: U32, size: U32,
                     w: Aes.RoundKeys, mac: seq<Byte> -> Tag, ghost iv: Block, ghost data: seq<Byte>)
    returns (out: seq<Byte>, next: U32)
    requires |read| < TWO32
    ensures |out| <= size && next == Add32(offset, |out|) && IsRead(out, AesKey(w, mac), read, past, offset, size)
    ensures read == Seal(AesKey(w, mac), iv, data) && |data| < TWO31 ==>
              |out| == ReadLength(|data|, offset, size) && Copied(out, data, offset)
  {
    hide Seal, Open, Copied, ReadLength, Add32, Aes.Under, Aes.Back;
    AddNothing(offset);
    ghost var k := AesKey(w, mac);
    if read == Seal(k, iv, data) && |data| < TWO31 {
      AesKeyIsSound(w, mac);
      OpenUndoesSeal(k, iv, data, past);
    }
    if |read| <= PREFIX {
      ShortIsRefused(k, read, past);
      return [], offset;
    }
    var mem := Place(read, past);
    var buffer := new Byte[size];
    var count;
    count, next := ReadEncrypted(mem, |read|, offset, size, buffer, w, mac);
    out := buffer[..count];
  }

  /** A buffer holding the bytes read, and the memory behind it. */
  method Place(read: seq<Byte>, past: Block) returns (mem: array<Byte>)
    ensures fresh(mem) && mem.Length == |read| + BLOCK && mem[..|read|] == read && mem[|read|..] == past
  {
    mem := new Byte[|read| + BLOCK](i requires 0 <= i < |read| + BLOCK => if i < |read| then read[i] else past[i - |read|]);
  }

  /** What a valid volume says of an open file. */
  lemma StoredFacts(v: FileSystem.Volume, f: FileSystem.OpenFile)
    requires v.Valid() && v.IsOpen(f)
    ensures |v.Contents(f.slot)| == f.size < TWO31
    ensures ReadCount(f.size, v.Capacity(f.slot), 0, f.size) == f.size
  {
    FileSystem.FileFacts(v.fat[..], v.dir[..], v.own, v.bytes, f.slot);
  }

  lemma SealedLength(k: Key, iv: Block, data: seq<Byte>)
    ensures |Seal(k, iv, data)| >= PREFIX + |data| && |Seal(k, iv, data)| > PREFIX
  {
    PayloadWhole(k, data);
    hide Payload;
  }

  /**
   * Reads of any sizes that do not wrap, from a store that serves every access, give the data,
   * in order and without a gap, as far as they ask for it.
   */
  method ReadInChunks(v: FileSystem.Volume, f: FileSystem.OpenFile, sizes: seq<U32>, past: Block,
                      w: Aes.RoundKeys, mac: seq<Byte> -> Tag, ghost iv: Block, ghost data: seq<Byte>)
    returns (out: seq<Byte>)
    requires v.Valid() && v.IsOpen(f)
    modifies f`offset, v`asked
    ensures v.Valid()
    ensures Willing(v.answers, old(v.asked)) && f.slot in v.Intact() && v.Contents(f.slot) == Seal(AesKey(w, mac), iv, data)
            && old(f.offset) <= |data| && NoneWraps(|data|, sizes) ==>
              && f.offset == Stop(|data|, old(f.offset), Sum(sizes))
              && out == data[old(f.offset)..f.offset]
  {
    hide Seal, IsRead, Copied, ReadLength, Reads, Sum, Stop, Add32, Accesses, FileSystem.TablesOk, FileSystem.IntactSlots;
    out := [];
    StoredFacts(v, f);
    SealedLength(AesKey(w, mac), iv, data);
    ghost var at := f.offset;
    ghost var known := Willing(v.answers, v.asked) && f.slot in v.Intact() && v.Contents(f.slot) == Seal(AesKey(w, mac), iv, data)
                       && at <= |data| < TWO32 && NoneWraps(|data|, sizes);
    for i := 0 to |sizes|
      invariant v.Valid() && v.asked >= old(v.asked)
      invariant known ==>
                  && f.offset == at + |out| <= |data|
                  && out + Reads(data, f.offset, sizes[i..]) == Reads(data, at, sizes)
    {
      ghost var from := f.offset;
      var more := ReadFile(v, f, sizes[i], past, w, mac, iv, data);
      if known {
        assert sizes[i..][0] == sizes[i] && sizes[i..][1..] == sizes[i + 1..];
        OneRead(data, from, sizes[i..], more);
        Regroup(out, more, Reads(data, f.offset, sizes[i + 1..]));
      }
      out := out + more;
    }
    if known {
      assert sizes[|sizes|..] == [];
      ReadsUnfold(data, f.offset, []);
      ReadsConcatenate(data, at, sizes);
    }
  }

  lemma Regroup(a: seq<Byte>, b: seq<Byte>, c: seq<Byte>)
    ensures (a + b) + c == a + (b + c)
  {
  }

  lemma AddSmall(a: U32, b: U32)
    requires a + b < TWO32
    ensures Add32(a, b) == a + b
  {
  }

  /** One read of a run of them. */
  lemma OneRead(data: seq<Byte>, offset: nat, sizes: seq<U32>, more: seq<Byte>)
    requires offset <= |data| < TWO32 && sizes != [] && |data| + sizes[0] < TWO32
    requires NoneWraps(|data|, sizes) && NoneWraps(|data|, sizes[1..])
    requires |more| == ReadLength(|data|, offset, sizes[0]) && Copied(more, data, offset)
    ensures Add32(offset, |more|) == offset + |more| <= |data|
    ensures Reads(data, offset, sizes) == more + Reads(data, offset + |more|, sizes[1..])
  {
    hide Reads, Sum, Stop, ReadLength, Copied, Add32, NoneWraps;
    ReadsUnfold(data, offset, sizes);
    AddSmall(offset, |more|);
    CopiedIsSlice(more, data, offset);
  }

  /**
   * The whole way: data sealed and created under a name, the name looked up and read back in
   * pieces of any sizes that do not wrap, comes back as it was, as far as the sizes reach,
   * from every store that serves every access.
   */
  method StoreAndRead(v: FileSystem.Volume, name: string, data: seq<Byte>, iv: Block, w: Aes.RoundKeys, mac: seq<Byte> -> Tag,
                      parent: nat, who: FileSystem.Caller, sizes: seq<U32>, past: Block)
    returns (r: Status, out: seq<Byte>)
    requires v.Valid() && |data| <= TWO32 - 72 && StoredLength(|data|) <= MAX_STORABLE
    modifies v`store, v`asked, v`savedFat, v`savedDir, v`own, v`bytes, v.fat, v.dir
    ensures v.Valid()
    ensures r == FileSystem.CreateOutcome(v.mounted, old(v.fat[..]), old(v.dir[..]), name, parent, StoredLength(|data|))
    ensures r == Ok && Willing(v.answers, old(v.asked)) && NoneWraps(|data|, sizes) ==> out == data[..Stop(|data|, 0, Sum(sizes))]
  {
    hide Seal, Sum, Stop, NoneWraps, FileSystem.CreateOutcome, FileSystem.IntactSlots;
    hide Fat.Owned, Directory.TableOk, FileSystem.OwnersAreEntries, FileSystem.SizesOk;
    out := [];
    ghost var slot;
    r, slot := CreateEncrypted(v, name, data, iv, w, mac, parent, who);
    if r != Ok {
      return;
    }
    var i := Directory.GetEntryIdx(v.dir, name, parent);
    Directory.ResolvesUnique(v.dir[..], parent, name, i, slot);
    var f := new FileSystem.OpenFile(v.dir[i].start, v.dir[i].size, i);
    out := ReadInChunks(v, f, sizes, past, w, mac, iv, data);
  }
}
