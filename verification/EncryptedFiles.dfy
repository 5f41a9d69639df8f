/**
 * Encrypted files as fs/crypto_fs.c stores them: an initialisation vector, then a header
 * with the length and a keyed hash of the data, the data and padding, encrypted together.
 */
module EncryptedFiles {
  import opened Common
  import opened LittleEndian
  import opened Blocks
  import opened Chaining

  const MAGIC := 0x53414645
  const HASH := 32
  /** Magic, length and hash. */
  const HEADER := 40
  /** The vector and the header: a file no longer than this holds no data. */
  const PREFIX := 56
  const TWO31 := 0x8000_0000

  type Tag = t: seq<bv8> | |t| == HASH witness seq(HASH, _ => 0)

  /** What a key gives: the cipher, its inverse, and the hash, each as a function. */
  datatype Key = Key(enc: Block -> Block, dec: Block -> Block, mac: seq<bv8> -> Tag)

  ghost predicate Sound(k: Key) { forall s: Block :: k.dec(k.enc(s)) == s }

  // ---- The stored form ---------------------------------------------------------------------

  /** The length on disk, in 32-bit arithmetic as the code computes it. */
  function StoredLength(len: U32): U32 { Add32(16, Add32(Add32(40, len), 15) / 16 * 16) }

  /**
   * It is the true length, and the buffer allocated for it holds the data copied into it, up
   * to 72 bytes short of 4 GB and no further.
   */
  lemma StoredLengthExact(len: U32)
    ensures StoredLength(len) == 16 + (len + 55) / 16 * 16 <==> len <= TWO32 - 72
    ensures PREFIX + len <= StoredLength(len) <==> len <= TWO32 - 72
  {
  }

  function Padding(len: nat): nat { (len + 55) / 16 * 16 - HEADER - len }

  /** A header word. */
  function Word(x: nat): (r: seq<bv8>)
    ensures |r| == 4
  {
    EncodeLength(x, 4);
    Encode(x, 4)
  }

  /** Magic, length, hash, data and padding. */
  function Payload(k: Key, data: seq<bv8>): seq<bv8> {
    Word(MAGIC) + Word(|data|) + k.mac(data) + data + seq(Padding(|data|), _ => 0)
  }

  lemma PayloadWhole(k: Key, data: seq<bv8>)
    ensures |Payload(k, data)| == HEADER + |data| + Padding(|data|) > HEADER && Whole(Payload(k, data))
  {
    hide Word;
  }

  function Seal(k: Key, iv: Block, data: seq<bv8>): seq<bv8> {
    PayloadWhole(k, data);
    iv + CbcEncrypt(Payload(k, data), iv, k.enc)
  }

  // ---- Opening it ------------------------------------------------------------------------------

  /** A length as the signed number the code returns it as. */
  function Signed(len: nat): int { if len < TWO31 then len else len - TWO32 }

  datatype Opened = Refused(status: Status) | Opened(length: int, plain: seq<bv8>)

  /** How many bytes past the end of a stored file its decryption takes in and rewrites. */
  function Overrun(len: nat): (r: nat)
    requires len > PREFIX
    ensures r < BLOCK
  {
    Reach(len - 16) - (len - 16)
  }

  /** It keeps within the file exactly when what follows the vector is whole blocks. */
  lemma OverrunExact(len: nat)
    requires len > PREFIX
    ensures Overrun(len) == 0 <==> (len - 16) % BLOCK == 0
  {
    ReachExact(len - 16);
  }

  /** A file of a hundred bytes: the last block decrypted ends at byte 112. */
  lemma HundredBytesOverrun()
    ensures Overrun(100) == 12 && 16 + Reach(84) == 112
  {
  }

  /** Opening a stored file, with the memory that happens to follow it. */
  function Open(k: Key, blob: seq<bv8>, past: seq<bv8>): Opened
    requires |blob| > PREFIX ==> |past| >= Overrun(|blob|)
  {
    if |blob| <= PREFIX then Refused(Inval)
    else Unpack(k, Decrypted(k, blob, past), |blob| - 16)
  }

  /** What the decryption leaves after the vector, past the end of the file included. */
  function Decrypted(k: Key, blob: seq<bv8>, past: seq<bv8>): (p: seq<bv8>)
    requires |blob| > PREFIX && |past| >= Overrun(|blob|)
    ensures |p| == Reach(|blob| - 16)
  {
    CbcDecrypt(blob[16..] + past[..Overrun(|blob|)], blob[..16], k.dec)
  }

  /** The decrypted payload, of which `size` bytes are the file's, read and checked. */
  function Unpack(k: Key, p: seq<bv8>, size: nat): Opened
    requires HEADER < size <= |p|
  {
    var len := Decode(p[4..8]);
    if Decode(p[..4]) != MAGIC then Refused(Acces)
    else if len > size - HEADER then Refused(Inval)
    else if k.mac(p[HEADER..HEADER + len]) != p[8..HEADER] then Refused(Io)
    else Opened(Signed(len), p[HEADER..HEADER + len])
  }

  /** The fields of a payload lie where they are read. */
  lemma PayloadFields(k: Key, data: seq<bv8>)
    ensures var p := Payload(k, data);
            && |p| >= HEADER + |data|
            && p[..4] == Word(MAGIC) && p[4..8] == Word(|data|) && p[8..HEADER] == k.mac(data)
            && p[HEADER..HEADER + |data|] == data
  {
    hide Word;
    var p, m, l, h := Payload(k, data), Word(MAGIC), Word(|data|), k.mac(data);
    assert p == m + (l + (h + (data + seq(Padding(|data|), _ => 0))));
  }

  lemma Pow256Of4()
    ensures Pow256(4) == TWO32
  {
    assert Pow256(0) == 1 && Pow256(1) == 256 && Pow256(2) == 65536 && Pow256(3) == 16777216;
  }

  lemma UnpackPayload(k: Key, data: seq<bv8>)
    requires |data| < TWO32
    ensures var p := Payload(k, data); |p| > HEADER && Unpack(k, p, |p|) == Opened(Signed(|data|), data)
  {
    hide Word, Decode, Payload;
    PayloadWhole(k, data);
    PayloadFields(k, data);
    WordBack(MAGIC);
    WordBack(|data|);
  }

  lemma WordBack(x: U32)
    ensures Decode(Word(x)) == x
  {
    Pow256Of4();
    EncodeRoundTrip(x, 4);
    hide Encode, Decode, Pow256;
  }

  /**
   * Opening what was sealed returns the data, for every vector, every length and whatever
   * follows it in memory; the length it reports is the true one, rather than a negative number
   * its callers take for a failure, exactly below 2 GB.
   */
  lemma OpenUndoesSeal(k: Key, iv: Block, data: seq<bv8>, past: seq<bv8>)
    requires Sound(k) && |data| < TWO32
    ensures |Seal(k, iv, data)| > PREFIX && Overrun(|Seal(k, iv, data)|) == 0
    ensures Open(k, Seal(k, iv, data), past) == Opened(Signed(|data|), data)
    ensures Signed(|data|) == |data| <==> |data| < TWO31
  {
    hide Payload, Unpack;
    var p := Payload(k, data);
    PayloadWhole(k, data);
    CbcRoundTrip(p, iv, k.enc, k.dec);
    var blob := Seal(k, iv, data);
    OverrunExact(|blob|);
    assert blob[..16] == iv && blob[16..] + past[..0] == CbcEncrypt(p, iv, k.enc);
    UnpackPayload(k, data);
    hide CbcEncrypt, CbcDecrypt;
  }

  // ---- What is opened, and what is refused ---------------------------------------------------

  /** A decrypted file of `size` bytes begins like the payload of some data, to the end of the data. */
  ghost predicate Begins(k: Key, p: seq<bv8>, size: nat, data: seq<bv8>) {
    PayloadFields(k, data);
    |data| < TWO32 && HEADER + |data| <= size <= |p| && p[..HEADER + |data|] == Payload(k, data)[..HEADER + |data|]
  }

  /** The checks, by what the header says rather than by how it is read. */
  lemma UnpackIs(k: Key, p: seq<bv8>, size: nat) returns (n: nat)
    requires HEADER < size <= |p|
    ensures n < TWO32 && p[4..8] == Word(n)
    ensures Unpack(k, p, size) ==
            if p[..4] != Word(MAGIC) then Refused(Acces)
            else if HEADER + n > size then Refused(Inval)
            else if k.mac(p[HEADER..HEADER + n]) != p[8..HEADER] then Refused(Io)
            else Opened(Signed(n), p[HEADER..HEADER + n])
  {
    hide Decode, Word;
    WordExact(p[..4], MAGIC);
    WordIsThere(p[4..8]);
    n := Decode(p[4..8]);
  }

  /** Four bytes are the word of one number, the one read from them. */
  lemma WordExact(b: seq<bv8>, x: U32)
    requires |b| == 4
    ensures b == Word(x) <==> Decode(b) == x
  {
    hide Encode, Decode;
    WordBack(x);
    DecodeRoundTrip(b);
  }

  lemma WordIsThere(b: seq<bv8>)
    requires |b| == 4
    ensures 0 <= Decode(b) < TWO32 && b == Word(Decode(b))
  {
    hide Encode, Decode, Pow256;
    DecodeRoundTrip(b);
    Pow256Of4();
  }

  lemma WordsDiffer(x: U32, y: U32)
    ensures Word(x) == Word(y) <==> x == y
  {
    hide Word;
    WordBack(x);
    WordBack(y);
  }

  /** It opens to some data exactly when it begins like the payload of that data. */
  lemma UnpackExact(k: Key, p: seq<bv8>, size: nat, data: seq<bv8>)
    requires HEADER < size <= |p|
    ensures Unpack(k, p, size) == Opened(Signed(|data|), data) && |data| < TWO32 <==> Begins(k, p, size, data)
  {
    hide Word, Payload, Unpack, Signed;
    PayloadFields(k, data);
    HeaderParts(p, Payload(k, data), |data|);
    var n := UnpackIs(k, p, size);
    if |data| < TWO32 {
      WordsDiffer(n, |data|);
    }
  }

  /** Two headers, with the data behind them, are the same exactly when their parts are. */
  lemma HeaderParts(p: seq<bv8>, q: seq<bv8>, n: nat)
    requires HEADER < |p| && HEADER + n <= |q|
    ensures HEADER + n <= |p| ==>
              (p[..HEADER + n] == q[..HEADER + n] <==>
                 p[..4] == q[..4] && p[4..8] == q[4..8] && p[8..HEADER] == q[8..HEADER] && p[HEADER..HEADER + n] == q[HEADER..HEADER + n])
  {
    if HEADER + n <= |p| {
      Cut(p, n);
      Cut(q, n);
    }
  }

  lemma Cut(p: seq<bv8>, n: nat)
    requires HEADER + n <= |p|
    ensures var h := p[..HEADER + n];
            && h == p[..4] + p[4..8] + p[8..HEADER] + p[HEADER..HEADER + n]
            && h[..4] == p[..4] && h[4..8] == p[4..8] && h[8..HEADER] == p[8..HEADER] && h[HEADER..] == p[HEADER..HEADER + n]
  {
  }

  /**
   * A stored file opens exactly when its decryption begins like the payload of some data that
   * fits in it, and to that data.
   */
  lemma OpenExact(k: Key, blob: seq<bv8>, past: seq<bv8>, data: seq<bv8>)
    requires |blob| > PREFIX ==> |past| >= Overrun(|blob|)
    ensures Open(k, blob, past) == Opened(Signed(|data|), data) && |data| < TWO32 <==>
              |blob| > PREFIX && Begins(k, Decrypted(k, blob, past), |blob| - 16, data)
    ensures Open(k, blob, past).Opened? ==>
              var plain := Open(k, blob, past).plain;
              |plain| < TWO32 && Open(k, blob, past).length == Signed(|plain|)
  {
    hide Decrypted, Begins, Unpack, Signed;
    if |blob| > PREFIX {
      var p := Decrypted(k, blob, past);
      UnpackExact(k, p, |blob| - 16, data);
      var n := UnpackIs(k, p, |blob| - 16);
    }
  }

  /** The length a decrypted header gives. */
  ghost predicate SaysLength(p: seq<bv8>, n: nat) { |p| >= HEADER && n < TWO32 && p[4..8] == Word(n) }

  /**
   * Why a file is refused: too short to hold any data, not beginning with the magic word,
   * giving a length it does not have, or a hash that is not that of its data.
   */
  lemma RefusedExact(k: Key, blob: seq<bv8>, past: seq<bv8>, n: nat)
    requires |blob| > PREFIX ==> |past| >= Overrun(|blob|) && SaysLength(Decrypted(k, blob, past), n)
    ensures Open(k, blob, past) ==
            if |blob| <= PREFIX then Refused(Inval)
            else
              var p := Decrypted(k, blob, past);
              if p[..4] != Word(MAGIC) then Refused(Acces)
              else if PREFIX + n > |blob| then Refused(Inval)
              else if p[8..HEADER] != k.mac(p[HEADER..HEADER + n]) then Refused(Io)
              else Opened(Signed(n), p[HEADER..HEADER + n])
  {
    hide Decrypted, Word, Unpack;
    if |blob| > PREFIX {
      var m := UnpackIs(k, Decrypted(k, blob, past), |blob| - 16);
      WordsDiffer(m, n);
    }
  }

  /** Every header gives one length. */
  lemma OneLength(p: seq<bv8>) returns (n: nat)
    requires |p| >= HEADER
    ensures SaysLength(p, n) && forall m: nat :: SaysLength(p, m) ==> m == n
  {
    hide Decode, Word;
    WordIsThere(p[4..8]);
    n := Decode(p[4..8]);
    forall m: nat | SaysLength(p, m)
      ensures m == n
    {
      WordsDiffer(m, n);
    }
  }

  /** Data altered under the header it was sealed with is refused, by every hash that tells the two apart. */
  lemma AlteredIsRefused(k: Key, blob: seq<bv8>, past: seq<bv8>, data: seq<bv8>, altered: seq<bv8>)
    requires |altered| == |data| < TWO32 && PREFIX + |data| <= |blob| && |blob| > PREFIX && |past| >= Overrun(|blob|)
    requires Decrypted(k, blob, past)[..HEADER + |data|] == Word(MAGIC) + Word(|data|) + k.mac(data) + altered
    requires k.mac(altered) != k.mac(data)
    ensures Open(k, blob, past) == Refused(Io)
  {
    hide Decrypted, Word, Open;
    var p := Decrypted(k, blob, past);
    Cut(p, |data|);
    Cut(Word(MAGIC) + Word(|data|) + k.mac(data) + altered, |data|);
    FourParts(Word(MAGIC), Word(|data|), k.mac(data), altered);
    RefusedExact(k, blob, past, |data|);
  }

  lemma FourParts(a: seq<bv8>, b: seq<bv8>, c: seq<bv8>, d: seq<bv8>)
    requires |a| == |b| == 4 && |c| == HASH
    ensures var s := a + b + c + d;
            s[..4] == a && s[4..8] == b && s[8..HEADER] == c && s[HEADER..] == d && s[..HEADER + |d|] == s
  {
  }

  // ---- The size from one block ---------------------------------------------------------------

  /** The plaintext length, or why not, from a file's first two blocks and its length on disk. */
  function SizeOf(k: Key, iv: Block, first: Block, fileSize: nat): (Status, nat) {
    if fileSize <= PREFIX then (Ok, 0)
    else
      var p := CbcDecrypt(first, iv, k.dec);
      if Decode(p[..4]) != MAGIC then (Io, 0)
      else if Decode(p[4..8]) > fileSize - 16 - HEADER then (Io, 0)
      else (Ok, Decode(p[4..8]))
  }

  /** A length is told exactly when the first block begins with the magic word and a length the file can hold. */
  lemma SizeExact(k: Key, iv: Block, first: Block, fileSize: nat, n: nat)
    requires fileSize > PREFIX && n < TWO32
    ensures SizeOf(k, iv, first, fileSize) == (Ok, n) <==>
              CbcDecrypt(first, iv, k.dec)[..8] == Word(MAGIC) + Word(n) && PREFIX + n <= fileSize
    ensures SizeOf(k, iv, first, fileSize).0 in {Ok, Io}
  {
    hide CbcDecrypt, Word, Decode;
    var p := CbcDecrypt(first, iv, k.dec);
    WordExact(p[..4], MAGIC);
    WordExact(p[4..8], n);
    TwoWords(p, Word(MAGIC), Word(n));
  }

  lemma TwoWords(p: seq<bv8>, a: seq<bv8>, b: seq<bv8>)
    requires |p| >= 8 && |a| == |b| == 4
    ensures p[..8] == a + b <==> p[..4] == a && p[4..8] == b
  {
    assert p[..8] == p[..4] + p[4..8];
    assert (a + b)[..4] == a && (a + b)[4..] == b;
    assert p[..8][..4] == p[..4] && p[..8][4..] == p[4..8];
  }

  /** The first block of the decrypted payload needs only the first block of the ciphertext. */
  lemma FirstBlockAlone(data: seq<bv8>, iv: Block, dec: Block -> Block)
    requires Whole(data) && |data| >= BLOCK
    ensures CbcDecrypt(data, iv, dec)[..BLOCK] == CbcDecrypt(data[..BLOCK], iv, dec)
  {
    DecryptSplits(data[..BLOCK], data[BLOCK..], iv, dec);
    assert data[..BLOCK] + data[BLOCK..] == data;
    hide CbcDecrypt;
  }

  /** Whenever the whole file opens, whatever follows it, the one-block answer is the length it opens to. */
  lemma SizeAgreesWithOpen(k: Key, blob: seq<bv8>, past: seq<bv8>)
    requires |blob| > PREFIX && |past| >= Overrun(|blob|) && Open(k, blob, past).Opened?
    ensures SizeOf(k, blob[..16], blob[16..32], |blob|) == (Ok, |Open(k, blob, past).plain|)
  {
    hide CbcDecrypt, Decode, Reach;
    var cipher := blob[16..] + past[..Overrun(|blob|)];
    FirstBlockAlone(cipher, blob[..16], k.dec);
    assert cipher[..BLOCK] == blob[16..32];
    var p := CbcDecrypt(cipher, blob[..16], k.dec);
    assert p[..BLOCK][..4] == p[..4] && p[..BLOCK][4..8] == p[4..8];
  }

  // ---- Reading in pieces ---------------------------------------------------------------------------

  /** How many bytes a read copies. */
  function ReadLength(len: nat, offset: U32, size: U32): nat {
    if offset >= len then 0 else if Add32(offset, size) > len then len - offset else size
  }

  /** It stays within the plaintext exactly when the end of the request does not wrap. */
  lemma ReadLengthExact(len: nat, offset: U32, size: U32)
    requires len < TWO32
    ensures ReadLength(len, offset, size) == (if offset >= len then 0 else if size < len - offset then size else len - offset)
            <==> offset + size < TWO32 || offset >= len
  {
  }

  lemma ReadLengthBound(len: nat, offset: U32, size: U32)
    ensures ReadLength(len, offset, size) <= size
  {
  }

  /** One byte left and a request past 2^32: the read runs on for the whole request. */
  lemma WrappedReadRunsOn()
    ensures ReadLength(2, 1, TWO32 - 1) == TWO32 - 1
  {
  }

  function Sum(sizes: seq<U32>): nat { if sizes == [] then 0 else sizes[0] + Sum(sizes[1..]) }

  /** No request on so many bytes ends past 4 GB. */
  predicate NoneWraps(len: nat, sizes: seq<U32>) { forall i :: 0 <= i < |sizes| ==> len + sizes[i] < TWO32 }

  /** Successive reads of given sizes, each from where the one before stopped. */
  function Reads(plain: seq<bv8>, offset: nat, sizes: seq<U32>): seq<bv8>
    requires offset <= |plain| < TWO32 && NoneWraps(|plain|, sizes)
    decreases sizes
  {
    if sizes == [] then []
    else
      var n := ReadLength(|plain|, offset, sizes[0]);
      plain[offset..offset + n] + Reads(plain, offset + n, sizes[1..])
  }

  /** Where reads asking for so much in all stop. */
  function Stop(len: nat, offset: nat, total: nat): (r: nat)
    requires offset <= len
    ensures offset <= r <= len
  {
    if offset + total < len then offset + total else len
  }

  lemma StopLater(len: nat, offset: U32, size: U32, rest: nat)
    requires offset <= len < TWO32 && offset + size < TWO32
    ensures var n := ReadLength(len, offset, size);
            offset + n <= len && n <= size && offset + n <= Stop(len, offset, size + rest) == Stop(len, offset + n, rest)
  {
  }

  /** Reads of any sizes give the plaintext, in order and without a gap, as far as they ask for it. */
  lemma {:induction false} ReadsConcatenate(plain: seq<bv8>, offset: nat, sizes: seq<U32>)
    requires offset <= |plain| < TWO32 && NoneWraps(|plain|, sizes)
    ensures Reads(plain, offset, sizes) == plain[offset..Stop(|plain|, offset, Sum(sizes))]
    decreases sizes
  {
    ReadsUnfold(plain, offset, sizes);
    hide Reads, Sum, ReadLength, Stop;
    if sizes != [] {
      var n := ReadLength(|plain|, offset, sizes[0]);
      StopLater(|plain|, offset, sizes[0], Sum(sizes[1..]));
      ReadsConcatenate(plain, offset + n, sizes[1..]);
      PiecesJoin(plain, offset, offset + n, Stop(|plain|, offset, Sum(sizes)));
    }
  }

  lemma ReadsUnfold(plain: seq<bv8>, offset: nat, sizes: seq<U32>)
    requires offset <= |plain| < TWO32 && NoneWraps(|plain|, sizes)
    ensures sizes == [] ==> Reads(plain, offset, sizes) == [] && Stop(|plain|, offset, Sum(sizes)) == offset
    ensures sizes != [] ==>
      var n := ReadLength(|plain|, offset, sizes[0]);
      && Sum(sizes) == sizes[0] + Sum(sizes[1..]) && offset + n <= |plain| && NoneWraps(|plain|, sizes[1..])
      && offset + sizes[0] < TWO32
      && Reads(plain, offset, sizes) == plain[offset..offset + n] + Reads(plain, offset + n, sizes[1..])
  {
  }

  lemma PiecesJoin(s: seq<bv8>, a: nat, b: nat, c: nat)
    requires a <= b <= c <= |s|
    ensures s[a..b] + s[b..c] == s[a..c]
  {
  }
}

/** The same in place, on the buffers the code builds and opens. */
module EncryptedBuffers {
  import opened Common
  import opened Blocks
  import opened Chaining
  import opened LittleEndian
  import opened EncryptedFiles
  import Aes

  /** A key as its round keys and its hash. */
  function AesKey(w: Aes.RoundKeys, mac: seq<bv8> -> Tag): Key { Key(Aes.Under(w), Aes.Back(w), mac) }

  lemma AesKeyIsSound(w: Aes.RoundKeys, mac: seq<bv8> -> Tag)
    ensures Sound(AesKey(w, mac))
  {
    hide Aes.Cipher, Aes.InverseCipher;
    forall s: Block
      ensures AesKey(w, mac).dec(AesKey(w, mac).enc(s)) == s
    {
      Aes.InverseCipherUndoes(s, w);
    }
  }

  /** Memory with some bytes put over what was there. */
  ghost function Over(mem: seq<bv8>, at: nat, s: seq<bv8>): (r: seq<bv8>)
    requires at + |s| <= |mem|
    ensures |r| == |mem|
  {
    mem[..at] + s + mem[at + |s|..]
  }

  method Put(mem: array<bv8>, at: nat, s: seq<bv8>)
    requires at + |s| <= mem.Length
    modifies mem
    ensures mem[..] == Over(old(mem[..]), at, s)
  {
    for i := 0 to |s|
      invariant forall p :: 0 <= p < mem.Length ==> mem[p] == if at <= p < at + i then s[p - at] else old(mem[p])
    {
      mem[at + i] := s[i];
    }
    assert mem[..] == Over(old(mem[..]), at, s);
  }

  /** Copies the data behind the header, at addresses that wrap, and says how far up it gets. */
  method CopyData(mem: array<bv8>, data: seq<bv8>) returns (ghost reach: nat)
    requires mem.Length == TWO32 && |data| < TWO32
    modifies mem
    ensures reach == Stop(TWO32, PREFIX, |data|)
    ensures PREFIX + |data| <= TWO32 ==> mem[..] == Over(old(mem[..]), PREFIX, data)
  {
    reach := PREFIX;
    for i := 0 to |data|
      invariant reach == Stop(TWO32, PREFIX, i)
      invariant PREFIX + |data| <= TWO32 ==>
        forall p :: 0 <= p < TWO32 ==> mem[p] == if PREFIX <= p < PREFIX + i then data[p - PREFIX] else old(mem[p])
    {
      var at := Add32(PREFIX, i);
      mem[at] := data[i];
      reach := if at + 1 > reach then at + 1 else reach;
    }
    if PREFIX + |data| <= TWO32 {
      assert mem[..] == Over(old(mem[..]), PREFIX, data);
    }
  }

  /** Clears the padding, from the end of the payload to the end of its last block. */
  method ClearPadding(mem: array<bv8>, from: U32, padded: U32)
    requires mem.Length == TWO32 && 16 + padded <= TWO32
    modifies mem
    ensures from <= padded ==> mem[..] == Over(old(mem[..]), 16 + from, seq(padded - from, _ => 0))
  {
    var i: nat := from;
    while i < padded
      invariant from <= i && (from <= padded ==> i <= padded)
      invariant forall p :: 0 <= p < TWO32 ==> mem[p] == if 16 + from <= p < 16 + i then 0 else old(mem[p])
    {
      mem[16 + i] := 0;
      i := i + 1;
    }
    if from <= padded {
      assert mem[..] == Over(old(mem[..]), 16 + from, seq(padded - from, _ => 0));
    }
  }

  /**
   * Builds the stored form of a file: vector, header, data, padding, encrypted after the
   * vector. `mem` is memory counted from the buffer allocated for it, of which `total` bytes
   * are its own: the copy stays within them, and what they hold is the sealed form, exactly
   * up to 72 bytes short of 4 GB.
   */
  method SealFile(mem: array<bv8>, data: seq<bv8>, iv: Block, w: Aes.RoundKeys, mac: seq<bv8> -> Tag)
    returns (total: U32, ghost reach: nat)
    requires mem.Length == TWO32 && |data| < TWO32
    modifies mem
    ensures total == StoredLength(|data|) && (reach <= total <==> |data| <= TWO32 - 72)
    ensures |data| <= TWO32 - 72 ==>
              mem[..total] == Seal(AesKey(w, mac), iv, data) && mem[total..] == old(mem[total..])
  {
    hide Word, Payload, CbcEncrypt, Aes.Under, Aes.Back, Over, Seal, StoredLength, Stop, Padding, Add32;
    ghost var k, m0 := AesKey(w, mac), mem[..];
    Lengths(|data|);
    var padded: U32 := Add32(Add32(40, |data|), 15) / 16 * 16;
    total := Add32(16, padded);
    Put(mem, 0, iv);
    ghost var m1 := mem[..];
    Put(mem, 16, Word(MAGIC) + Word(|data|) + mac(data));
    ghost var m2 := mem[..];
    reach := CopyData(mem, data);
    ghost var m3 := mem[..];
    ClearPadding(mem, Add32(40, |data|), padded);
    if |data| <= TWO32 - 72 {
      Assembled(m0, m1, m2, m3, mem[..], k, iv, data);
    }
    ghost var m4 := mem[..];
    EncryptTail(mem, padded, iv, w);
    if |data| <= TWO32 - 72 {
      SealIs(k, iv, data);
      assert m4[16..total] == Payload(k, data);
      assert mem[..total] == mem[..16] + mem[16..total];
    }
  }

  /** The lengths the code computes, where they do not wrap, and how far its copy reaches. */
  lemma Lengths(len: U32)
    ensures var padded := Add32(Add32(40, len), 15) / 16 * 16;
            && 16 + padded <= TWO32 && Add32(16, padded) == StoredLength(len)
            && (Stop(TWO32, PREFIX, len) <= StoredLength(len) <==> len <= TWO32 - 72)
            && (len <= TWO32 - 72 ==>
                  && Add32(40, len) == 40 + len <= padded && padded - (40 + len) == Padding(len)
                  && StoredLength(len) == 16 + padded && PREFIX + len + Padding(len) == 16 + padded)
  {
    StoredLengthExact(len);
  }

  /** Put together, the pieces are the vector and the payload. */
  lemma Assembled(m0: seq<bv8>, m1: seq<bv8>, m2: seq<bv8>, m3: seq<bv8>, m4: seq<bv8>, k: Key, iv: Block, data: seq<bv8>)
    requires |m0| == TWO32 && |data| <= TWO32 - 72
    requires PREFIX + |data| + Padding(|data|) <= TWO32
    requires m1 == Over(m0, 0, iv) && m2 == Over(m1, 16, Word(MAGIC) + Word(|data|) + k.mac(data))
    requires m3 == Over(m2, PREFIX, data) && m4 == Over(m3, PREFIX + |data|, seq(Padding(|data|), _ => 0))
    ensures var end := PREFIX + |data| + Padding(|data|);
            m4[..16] == iv && m4[16..end] == Payload(k, data) && m4[end..] == m0[end..]
  {
    PayloadParts(k, data);
    hide Word, Payload, Padding, Over;
    var zeros := seq(Padding(|data|), _ => 0);
    var header := Word(MAGIC) + Word(|data|) + k.mac(data);
    assert [] + m0[0..] == m0 && [] + iv == iv;
    Stacked(m0, [], iv);
    Stacked(m0, iv, header);
    Stacked(m0, iv + header, data);
    Stacked(m0, iv + header + data, zeros);
    assert m4 == iv + (header + data + zeros) + m0[PREFIX + |data| + |zeros|..];
  }

  /** Bytes put right behind those put before. */
  lemma Stacked(m0: seq<bv8>, done: seq<bv8>, s: seq<bv8>)
    requires |done| + |s| <= |m0|
    ensures Over(done + m0[|done|..], |done|, s) == (done + s) + m0[|done + s|..]
  {
  }

  lemma SealIs(k: Key, iv: Block, data: seq<bv8>)
    ensures Whole(Payload(k, data)) && Seal(k, iv, data) == iv + CbcEncrypt(Payload(k, data), iv, k.enc)
  {
    PayloadWhole(k, data);
  }

  /** Encrypts blocks behind a vector. */
  method EncryptTail(mem: array<bv8>, n: U32, iv: Block, w: Aes.RoundKeys)
    requires 16 + n <= mem.Length && n % BLOCK == 0
    modifies mem
    ensures mem[..16] == old(mem[..16]) && mem[16 + n..] == old(mem[16 + n..])
    ensures mem[16..16 + n] == CbcEncrypt(old(mem[16..16 + n]), iv, Aes.Under(w))
  {
    hide CbcEncrypt, Aes.Under, Reach;
    ReachExact(n);
    EncryptedParts(mem[..], 16, n, iv, Aes.Under(w));
    hide EncryptedFrom;
    var ctx := new Aes.Context(w, iv);
    ctx.EncryptBuffer(mem, 16, n);
  }

  lemma PayloadParts(k: Key, data: seq<bv8>)
    ensures Payload(k, data) == Word(MAGIC) + Word(|data|) + k.mac(data) + data + seq(Padding(|data|), _ => 0)
  {
  }

  /**
   * Opens a stored file in place; the plaintext is left after the header. The file is the
   * first `len` bytes of `mem`, and the rest of `mem` is the memory behind it: the decryption
   * leaves it alone when the file is whole blocks after its vector, and otherwise goes on into
   * it to the end of the last block.
   */
  method OpenInPlace(mem: array<bv8>, len: U32, w: Aes.RoundKeys, mac: seq<bv8> -> Tag) returns (r: Opened)
    requires len <= mem.Length && (len > PREFIX ==> len + Overrun(len) <= mem.Length)
    modifies mem
    ensures r == Open(AesKey(w, mac), old(mem[..len]), old(mem[len..]))
    ensures r.Opened? ==> PREFIX + |r.plain| <= len && mem[PREFIX..PREFIX + |r.plain|] == r.plain
    ensures len <= PREFIX ==> mem[..] == old(mem[..])
    ensures len > PREFIX ==>
              && mem[..16] == old(mem[..16]) && mem[len + Overrun(len)..] == old(mem[len + Overrun(len)..])
              && mem[16..len + Overrun(len)] == Decrypted(AesKey(w, mac), old(mem[..len]), old(mem[len..]))
  {
    hide CbcDecrypt, Aes.Under, Aes.Back, Overrun, Unpack;
    if len <= PREFIX {
      return Refused(Inval);
    }
    ghost var all := mem[..];
    FileThenPast(all, len);
    DecryptTail(mem, len, w);
    r := CheckPayload(mem, len, mac, mem[16..len + Overrun(len)], AesKey(w, mac));
  }

  lemma ArrayParts(mem: array<bv8>, a: nat, b: nat)
    requires a <= b <= mem.Length
    ensures mem[..a] == mem[..][..a] && mem[a..b] == mem[..][a..b] && mem[b..] == mem[..][b..]
  {
  }

  /** Decrypts the blocks behind a file's vector, the last one to its end. */
  method DecryptTail(mem: array<bv8>, len: U32, w: Aes.RoundKeys)
    requires PREFIX < len && len + Overrun(len) <= mem.Length
    modifies mem
    ensures mem[..16] == old(mem[..16]) && mem[len + Overrun(len)..] == old(mem[len + Overrun(len)..])
    ensures (Overrun(len) + len - 16) % BLOCK == 0
    ensures mem[16..len + Overrun(len)] == CbcDecrypt(old(mem[16..len + Overrun(len)]), old(mem[..16]), Aes.Back(w))
  {
    hide CbcDecrypt, Aes.Back, Reach;
    ghost var was, n := mem[..], Reach(len - 16);
    assert len + Overrun(len) == 16 + n && Overrun(len) + len - 16 == n && n % BLOCK == 0;
    hide Overrun;
    hide DecryptedFrom;
    ArrayParts(mem, 16, 16 + n);
    DecryptedParts(was, 16, n, was[..16], Aes.Back(w));
    var ctx := new Aes.Context(w, mem[..16]);
    ctx.DecryptBuffer(mem, 16, len - 16);
    ArrayParts(mem, 16, 16 + n);
  }

  /** Reads the fields of a decrypted file and checks them. */
  method CheckPayload(mem: array<bv8>, len: U32, mac: seq<bv8> -> Tag, ghost p: seq<bv8>, ghost k: Key) returns (r: Opened)
    requires PREFIX < len <= mem.Length && k.mac == mac
    requires len - 16 <= |p| && 16 + |p| <= mem.Length && p == mem[16..16 + |p|]
    ensures r == Unpack(k, p, len - 16)
    ensures r.Opened? ==> PREFIX + |r.plain| <= len && mem[PREFIX..PREFIX + |r.plain|] == r.plain
  {
    hide Decode;
    var magic, n := Decode(mem[16..20]), Decode(mem[20..24]);
    Within(mem[..], p, 0, 4);
    Within(mem[..], p, 4, 8);
    Within(mem[..], p, 8, HEADER);
    if magic != MAGIC {
      return Refused(Acces);
    }
    if n > len - 16 - HEADER {
      return Refused(Inval);
    }
    Within(mem[..], p, HEADER, HEADER + n);
    if mac(mem[56..56 + n]) != mem[24..56] {
      return Refused(Io);
    }
    r := Opened(Signed(n), mem[56..56 + n]);
  }

  lemma Within(mem: seq<bv8>, p: seq<bv8>, from: nat, to: nat)
    requires from <= to <= |p| && 16 + |p| <= |mem| && p == mem[16..16 + |p|]
    ensures p[from..to] == mem[16 + from..16 + to]
  {
    forall k | 0 <= k < to - from
      ensures p[from..to][k] == mem[16 + from..16 + to][k]
    {
      assert p[from + k] == mem[16 + from + k];
    }
  }

  /** The bytes decrypted: the file after its vector, then what follows it. */
  lemma FileThenPast(mem: seq<bv8>, len: nat)
    requires PREFIX < len && len + Overrun(len) <= |mem|
    ensures mem[..len][16..] + mem[len..][..Overrun(len)] == mem[16..len + Overrun(len)] && mem[..len][..16] == mem[..16]
  {
  }

  /** Copies bytes out, from offsets that wrap like the code's; where there is no memory anything may come. */
  method CopyOut(from: array<bv8>, base: nat, offset: U32, to: array<bv8>, n: nat)
    requires from != to && n <= to.Length && n < TWO32
    modifies to
    ensures forall i: U32 :: i < n && base + Add32(offset, i) < from.Length ==> to[i] == from[base + Add32(offset, i)]
  {
    for i := 0 to n
      invariant forall j: U32 :: j < i && base + Add32(offset, j) < from.Length ==> to[j] == from[base + Add32(offset, j)]
    {
      var at := base + Add32(offset, i);
      if at < from.Length {
        to[i] := from[at];
      } else {
        to[i] := *;
      }
    }
  }

  /**
   * One read of an encrypted file whose stored form is the first `len` bytes of `mem`: the
   * bytes of the plaintext from the offset, or nothing, with the offset left alone, when it
   * does not open. Unless the end of the request wraps they are one piece of the plaintext.
   */
  method ReadEncrypted(mem: array<bv8>, len: U32, offset: U32, size: U32, buffer: array<bv8>, w: Aes.RoundKeys, mac: seq<bv8> -> Tag)
    returns (count: nat, next: U32)
    requires mem != buffer && size <= buffer.Length
    requires len <= mem.Length && (len > PREFIX ==> len + Overrun(len) <= mem.Length)
    modifies mem, buffer
    ensures var o := Open(AesKey(w, mac), old(mem[..len]), old(mem[len..]));
            if o.Opened? && o.length >= 0 then
              && |o.plain| == o.length
              && count == ReadLength(o.length, offset, size) <= size && next == Add32(offset, count)
              && Copied(buffer[..count], o.plain, offset)
            else count == 0 && next == offset
  {
    hide Open, Overrun, Decrypted, Copied, Add32, Aes.Under, Aes.Back;
    ghost var blob, past := mem[..len], mem[len..];
    if len <= PREFIX {
      ShortIsRefused(AesKey(w, mac), blob, past);
      return 0, offset;
    }
    OpenedLength(AesKey(w, mac), blob, past);
    var o := OpenInPlace(mem, len, w, mac);
    if o.Refused? || o.length < 0 {
      return 0, offset;
    }
    ReadLengthBound(o.length, offset, size);
    count := size;
    if offset >= o.length {
      count := 0;
    } else if Add32(offset, size) > o.length {
      count := o.length - offset;
    }
    next := Add32(offset, count);
    ghost var after := mem[..];
    CopyOut(mem, PREFIX, offset, buffer, count);
    CopiedFrom(after, |o.plain|, offset, buffer[..count]);
    assert after[PREFIX..PREFIX + |o.plain|] == o.plain;
  }

  /** `out` is what lies in `plain` from an offset on, at offsets that wrap at 4 GB, wherever that is within it. */
  ghost predicate Copied(out: seq<bv8>, plain: seq<bv8>, offset: U32) {
    forall i: U32 :: i < |out| && Add32(offset, i) < |plain| ==> out[i] == plain[Add32(offset, i)]
  }

  lemma CopiedFrom(mem: seq<bv8>, n: nat, offset: U32, out: seq<bv8>)
    requires PREFIX + n <= |mem|
    requires forall i: U32 :: i < |out| && PREFIX + Add32(offset, i) < |mem| ==> out[i] == mem[PREFIX + Add32(offset, i)]
    ensures Copied(out, mem[PREFIX..PREFIX + n], offset)
  {
    hide Add32;
  }

  /** Without a wrap, what is copied is one piece. */
  lemma CopiedIsSlice(out: seq<bv8>, plain: seq<bv8>, offset: U32)
    requires Copied(out, plain, offset) && offset + |out| <= |plain| < TWO32
    ensures out == plain[offset..offset + |out|]
  {
    forall i: U32 | i < |out|
      ensures out[i] == plain[offset + i]
    {
      assert Add32(offset, i) == offset + i;
    }
  }

  lemma ShortIsRefused(k: Key, blob: seq<bv8>, past: seq<bv8>)
    requires |blob| <= PREFIX
    ensures Open(k, blob, past).Refused?
  {
  }

  lemma OpenedLength(k: Key, blob: seq<bv8>, past: seq<bv8>)
    requires |blob| > PREFIX && |past| >= Overrun(|blob|)
    ensures Open(k, blob, past).Opened? && Open(k, blob, past).length >= 0 ==>
              Open(k, blob, past).length == |Open(k, blob, past).plain| < TWO31
  {
    hide Reach, Decrypted;
    var p := Decrypted(k, blob, past);
    WordIsSmall(p[4..8]);
  }

  lemma WordIsSmall(s: seq<bv8>)
    requires |s| == 4
    ensures Decode(s) < TWO32
  {
    DecodeRoundTrip(s);
    Pow256Of4();
  }
}