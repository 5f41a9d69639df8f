/** Sixteen-byte blocks. */
module Blocks {
  import opened ByteField

  const BLOCK := 16

  /** A block, column after column. */
  type Block = s: seq<bv8> | |s| == BLOCK witness seq(BLOCK, _ => 0)

  function Add(s: Block, t: Block): Block { seq(BLOCK, k requires 0 <= k < BLOCK => Xor(s[k], t[k])) }

  lemma AddTwice(s: Block, t: Block)
    ensures Add(Add(s, t), t) == s
  {
    hide Xor;
    forall k | 0 <= k < BLOCK
      ensures Xor(Xor(s[k], t[k]), t[k]) == s[k]
    {
      XorTwice(s[k], t[k]);
    }
  }
}

/** Cipher block chaining over any cipher on blocks. */
module Chaining {
  import opened Common
  import opened Blocks

  predicate Whole(data: seq<bv8>) { |data| % BLOCK == 0 }

  /** How far the block loops reach when they are asked for `n` bytes: to the end of the block they end in. */
  function Reach(n: nat): (r: nat)
    ensures r % BLOCK == 0 && n <= r < n + BLOCK
  {
    if n % BLOCK == 0 then n else n - n % BLOCK + BLOCK
  }

  lemma ReachSteps(i: nat, n: nat)
    requires i % BLOCK == 0 && i <= Reach(n)
    ensures i < n ==> i + BLOCK <= Reach(n) && (i + BLOCK) % BLOCK == 0
    ensures i >= n ==> i == Reach(n)
  {
  }

  /** They stay within the bytes they were given exactly when those are whole blocks. */
  lemma ReachExact(n: nat)
    ensures Reach(n) == n <==> n % BLOCK == 0
  {
  }

  /** Their 32-bit counter, stepping by blocks, gets to the end exactly up to 16 bytes short of 4 GB, and every caller stays there. */
  lemma CounterArrives(n: U32)
    ensures (exists i: U32 :: i % BLOCK == 0 && n <= i) <==> n <= TWO32 - BLOCK
  {
    if n <= TWO32 - BLOCK {
      var i: U32 := Reach(n);
      assert i % BLOCK == 0;
    }
  }

  /** Each block is added to the one before it, encrypted; the first to the initialisation vector. */
  function CbcEncrypt(data: seq<bv8>, iv: Block, enc: Block -> Block): (r: seq<bv8>)
    requires Whole(data)
    ensures |r| == |data|
    decreases |data|
  {
    if data == [] then []
    else
      var c := enc(Add(data[..BLOCK], iv));
      c + CbcEncrypt(data[BLOCK..], c, enc)
  }

  function CbcDecrypt(data: seq<bv8>, iv: Block, dec: Block -> Block): (r: seq<bv8>)
    requires Whole(data)
    ensures |r| == |data|
    decreases |data|
  {
    if data == [] then []
    else Add(dec(data[..BLOCK]), iv) + CbcDecrypt(data[BLOCK..], data[..BLOCK], dec)
  }

  /** The vector that goes on from a run of ciphertext: its last block. */
  function Carry(ciphertext: seq<bv8>, iv: Block): Block
    requires Whole(ciphertext)
  {
    if ciphertext == [] then iv else ciphertext[|ciphertext| - BLOCK..]
  }

  lemma {:induction false} CbcRoundTrip(data: seq<bv8>, iv: Block, enc: Block -> Block, dec: Block -> Block)
    requires Whole(data) && forall s: Block :: dec(enc(s)) == s
    ensures CbcDecrypt(CbcEncrypt(data, iv, enc), iv, dec) == data
    decreases |data|
  {
    hide Add;
    if data != [] {
      var first: Block := data[..BLOCK];
      var c := enc(Add(first, iv));
      var e := CbcEncrypt(data, iv, enc);
      assert e[..BLOCK] == c && e[BLOCK..] == CbcEncrypt(data[BLOCK..], c, enc);
      AddTwice(first, iv);
      CbcRoundTrip(data[BLOCK..], c, enc, dec);
    }
  }

  /** Block `j` of a run of blocks. */
  function BlockAt(data: seq<bv8>, j: nat): Block
    requires BLOCK * (j + 1) <= |data|
  {
    data[BLOCK * j..BLOCK * (j + 1)]
  }

  lemma BlockBehind(c: Block, rest: seq<bv8>, j: nat)
    requires 0 < j && BLOCK * j <= |rest|
    ensures BlockAt(c + rest, j) == BlockAt(rest, j - 1)
  {
  }

  /**
   * As section 6.2 of NIST SP 800-38A has it: each block is added to the ciphertext before it, the
   * first to the initialisation vector, and then encrypted.
   */
  lemma {:induction false} CbcEncryptBlock(data: seq<bv8>, iv: Block, enc: Block -> Block, j: nat)
    requires Whole(data) && BLOCK * (j + 1) <= |data|
    ensures var e := CbcEncrypt(data, iv, enc);
            BlockAt(e, j) == enc(Add(BlockAt(data, j), if j == 0 then iv else BlockAt(e, j - 1)))
    decreases |data|
  {
    hide Add;
    var first: Block := data[..BLOCK];
    var c, rest := enc(Add(first, iv)), data[BLOCK..];
    var e := CbcEncrypt(rest, c, enc);
    assert CbcEncrypt(data, iv, enc) == c + e && data == first + rest;
    if j == 0 {
      assert BlockAt(c + e, 0) == c && BlockAt(first + rest, 0) == first;
    } else {
      CbcEncryptBlock(rest, c, enc, j - 1);
      hide CbcEncrypt;
      BlockBehind(c, e, j);
      BlockBehind(first, rest, j);
      if j == 1 {
        assert BlockAt(c + e, 0) == c;
      } else {
        BlockBehind(c, e, j - 1);
      }
    }
  }

  /** And each is decrypted, and then added to the ciphertext before it. */
  lemma {:induction false} CbcDecryptBlock(data: seq<bv8>, iv: Block, dec: Block -> Block, j: nat)
    requires Whole(data) && BLOCK * (j + 1) <= |data|
    ensures BlockAt(CbcDecrypt(data, iv, dec), j) == Add(dec(BlockAt(data, j)), if j == 0 then iv else BlockAt(data, j - 1))
    decreases |data|
  {
    hide Add;
    var first: Block := data[..BLOCK];
    var p, rest := Add(dec(first), iv), data[BLOCK..];
    var d := CbcDecrypt(rest, first, dec);
    assert CbcDecrypt(data, iv, dec) == p + d && data == first + rest;
    if j == 0 {
      assert BlockAt(p + d, 0) == p && BlockAt(first + rest, 0) == first;
    } else {
      CbcDecryptBlock(rest, first, dec, j - 1);
      hide CbcDecrypt;
      BlockBehind(p, d, j);
      BlockBehind(first, rest, j);
      if j == 1 {
        assert BlockAt(first + rest, 0) == first;
      } else {
        BlockBehind(first, rest, j - 1);
      }
    }
  }

  /** Encrypting in two calls, the second from where the first left off, is encrypting in one. */
  lemma {:induction false} EncryptSplits(a: seq<bv8>, b: seq<bv8>, iv: Block, enc: Block -> Block)
    requires Whole(a) && Whole(b)
    ensures Whole(a + b)
    ensures CbcEncrypt(a + b, iv, enc) == CbcEncrypt(a, iv, enc) + CbcEncrypt(b, Carry(CbcEncrypt(a, iv, enc), iv), enc)
    decreases |a|
  {
    EncryptUnfolds(a, iv, enc);
    EncryptUnfolds(a + b, iv, enc);
    NothingYet(iv, enc);
    hide Add, CbcEncrypt, Carry;
    if a == [] {
      assert a + b == b;
    } else {
      var c := enc(Add(a[..BLOCK], iv));
      var rest := CbcEncrypt(a[BLOCK..], c, enc);
      assert (a + b)[..BLOCK] == a[..BLOCK] && (a + b)[BLOCK..] == a[BLOCK..] + b;
      EncryptSplits(a[BLOCK..], b, c, enc);
      CarryOn(c, rest, iv);
      Regroup(c, rest, CbcEncrypt(b, Carry(rest, c), enc));
    }
  }

  lemma Regroup(a: seq<bv8>, b: seq<bv8>, c: seq<bv8>)
    ensures a + (b + c) == a + b + c
  {
  }

  lemma EncryptUnfolds(data: seq<bv8>, iv: Block, enc: Block -> Block)
    requires Whole(data)
    ensures data != [] ==>
      var c := enc(Add(data[..BLOCK], iv)); CbcEncrypt(data, iv, enc) == c + CbcEncrypt(data[BLOCK..], c, enc)
  {
  }

  /** And so is decrypting. */
  lemma {:induction false} DecryptSplits(a: seq<bv8>, b: seq<bv8>, iv: Block, dec: Block -> Block)
    requires Whole(a) && Whole(b)
    ensures Whole(a + b)
    ensures CbcDecrypt(a + b, iv, dec) == CbcDecrypt(a, iv, dec) + CbcDecrypt(b, Carry(a, iv), dec)
    decreases |a|
  {
    DecryptUnfolds(a, iv, dec);
    DecryptUnfolds(a + b, iv, dec);
    NothingBack(iv, dec);
    hide Add, CbcDecrypt, Carry;
    if a == [] {
      assert a + b == b;
    } else {
      assert (a + b)[..BLOCK] == a[..BLOCK] && (a + b)[BLOCK..] == a[BLOCK..] + b;
      assert a[..BLOCK] + a[BLOCK..] == a;
      DecryptSplits(a[BLOCK..], b, a[..BLOCK], dec);
      CarryOn(a[..BLOCK], a[BLOCK..], iv);
      Regroup(Add(dec(a[..BLOCK]), iv), CbcDecrypt(a[BLOCK..], a[..BLOCK], dec), CbcDecrypt(b, Carry(a, iv), dec));
    }
  }

  lemma DecryptUnfolds(data: seq<bv8>, iv: Block, dec: Block -> Block)
    requires Whole(data)
    ensures data != [] ==>
      CbcDecrypt(data, iv, dec) == Add(dec(data[..BLOCK]), iv) + CbcDecrypt(data[BLOCK..], data[..BLOCK], dec)
  {
  }

  lemma CarryOn(c: Block, rest: seq<bv8>, iv: Block)
    requires Whole(rest)
    ensures Whole(c + rest) && Carry(c + rest, iv) == Carry(rest, c)
  {
  }

  lemma NothingYet(iv: Block, enc: Block -> Block)
    ensures CbcEncrypt([], iv, enc) == [] && Carry([], iv) == iv
  {
  }

  lemma NothingBack(iv: Block, dec: Block -> Block)
    ensures CbcDecrypt([], iv, dec) == [] && Carry([], iv) == iv
  {
  }

  lemma OneMoreBack(data: seq<bv8>, at: nat, iv: Block, dec: Block -> Block)
    requires at % BLOCK == 0 && at + BLOCK <= |data|
    ensures CbcDecrypt(data[..at + BLOCK], iv, dec) ==
            CbcDecrypt(data[..at], iv, dec) + Add(dec(data[at..at + BLOCK]), Carry(data[..at], iv))
    ensures Carry(data[..at + BLOCK], iv) == data[at..at + BLOCK]
  {
    var last := data[at..at + BLOCK];
    DecryptSplits(data[..at], last, iv, dec);
    assert data[..at] + last == data[..at + BLOCK];
    hide Add;
    assert last[..BLOCK] == last && last[BLOCK..] == [];
  }

  /** A buffer with `n` bytes from an offset encrypted, or decrypted, in place. */
  ghost function EncryptedFrom(s: seq<bv8>, start: nat, n: nat, iv: Block, enc: Block -> Block): (r: seq<bv8>)
    requires start + n <= |s| && n % BLOCK == 0
    ensures |r| == |s|
  {
    s[..start] + CbcEncrypt(s[start..start + n], iv, enc) + s[start + n..]
  }

  ghost function DecryptedFrom(s: seq<bv8>, start: nat, n: nat, iv: Block, dec: Block -> Block): (r: seq<bv8>)
    requires start + n <= |s| && n % BLOCK == 0
    ensures |r| == |s|
  {
    s[..start] + CbcDecrypt(s[start..start + n], iv, dec) + s[start + n..]
  }

  /** What is where in such a buffer. */
  lemma EncryptedParts(s: seq<bv8>, start: nat, n: nat, iv: Block, enc: Block -> Block)
    requires start + n <= |s| && n % BLOCK == 0
    ensures var r := EncryptedFrom(s, start, n, iv, enc);
            && r[..start] == s[..start] && r[start..start + n] == CbcEncrypt(s[start..start + n], iv, enc)
            && r[start + n..] == s[start + n..]
  {
    hide CbcEncrypt;
  }

  lemma DecryptedParts(s: seq<bv8>, start: nat, n: nat, iv: Block, dec: Block -> Block)
    requires start + n <= |s| && n % BLOCK == 0
    ensures var r := DecryptedFrom(s, start, n, iv, dec);
            && r[..start] == s[..start] && r[start..start + n] == CbcDecrypt(s[start..start + n], iv, dec)
            && r[start + n..] == s[start + n..]
  {
    hide CbcDecrypt;
  }

  lemma EncryptedNothing(s: seq<bv8>, start: nat, iv: Block, enc: Block -> Block)
    requires start <= |s|
    ensures EncryptedFrom(s, start, 0, iv, enc) == s && Carry(s[start..start], iv) == iv
  {
    NothingYet(iv, enc);
    hide CbcEncrypt;
    assert s[start..start] == [];
  }

  lemma DecryptedNothing(s: seq<bv8>, start: nat, iv: Block, dec: Block -> Block)
    requires start <= |s|
    ensures DecryptedFrom(s, start, 0, iv, dec) == s && Carry(s[start..start], iv) == iv
  {
    NothingBack(iv, dec);
    hide CbcDecrypt;
    assert s[start..start] == [];
  }

  /** A longer run of a buffer, by its shorter run and its last block. */
  lemma RunParts(s: seq<bv8>, start: nat, n: nat)
    requires start + n + BLOCK <= |s|
    ensures s[start..][..n] == s[start..start + n] && s[start..][..n + BLOCK] == s[start..start + n + BLOCK]
    ensures s[start..][n..n + BLOCK] == s[start + n..start + n + BLOCK]
    ensures s[start + n..][..BLOCK] == s[start + n..start + n + BLOCK] && s[start + n..][BLOCK..] == s[start + n + BLOCK..]
  {
  }

  lemma EncryptedMore(was: seq<bv8>, before: seq<bv8>, after: seq<bv8>, start: nat, n: nat, iv: Block, enc: Block -> Block, carried: Block)
    requires start + n + BLOCK <= |was| && n % BLOCK == 0
    requires before == EncryptedFrom(was, start, n, iv, enc) && carried == Carry(before[start..start + n], iv)
    requires var at := start + n; after == before[..at] + enc(Add(before[at..at + BLOCK], carried)) + before[at + BLOCK..]
    ensures after == EncryptedFrom(was, start, n + BLOCK, iv, enc)
    ensures Carry(after[start..start + n + BLOCK], iv) == after[start + n..start + n + BLOCK]
  {
    EncryptedParts(was, start, n, iv, enc);
    RunParts(was, start, n);
    OneMoreBlock(was[start..], n, iv, enc);
    Unfolded(was, start, n, iv, enc);
    Unfolded(was, start, n + BLOCK, iv, enc);
    hide CbcEncrypt, Add, Carry, EncryptedFrom;
    Longer(was, before, after, start, n, before[start..start + n], enc(Add(before[start + n..start + n + BLOCK], carried)));
    LastBlock(after, start, n, iv);
  }

  /** A buffer changed in a longer run. */
  lemma Longer(was: seq<bv8>, before: seq<bv8>, after: seq<bv8>, start: nat, n: nat, x: seq<bv8>, y: Block)
    requires start + n + BLOCK <= |was| == |before| && |x| == n
    requires before == was[..start] + x + was[start + n..]
    requires var at := start + n; after == before[..at] + y + before[at + BLOCK..]
    ensures after == was[..start] + (x + y) + was[start + n + BLOCK..]
    ensures before[start + n..start + n + BLOCK] == was[start + n..start + n + BLOCK]
  {
    var at := start + n;
    assert before[..at] == was[..start] + x;
    assert before[at..] == was[at..];
    RunParts(was, start, n);
    RunParts(before, start, n);
  }

  lemma Unfolded(s: seq<bv8>, start: nat, n: nat, iv: Block, enc: Block -> Block)
    requires start + n <= |s| && n % BLOCK == 0
    ensures EncryptedFrom(s, start, n, iv, enc) == s[..start] + CbcEncrypt(s[start..start + n], iv, enc) + s[start + n..]
    ensures DecryptedFrom(s, start, n, iv, enc) == s[..start] + CbcDecrypt(s[start..start + n], iv, enc) + s[start + n..]
  {
  }

  lemma LastBlock(s: seq<bv8>, start: nat, n: nat, iv: Block)
    requires start + n + BLOCK <= |s| && n % BLOCK == 0
    ensures Carry(s[start..start + n + BLOCK], iv) == s[start + n..start + n + BLOCK]
  {
  }

  lemma DecryptedMore(was: seq<bv8>, before: seq<bv8>, after: seq<bv8>, start: nat, n: nat, iv: Block, dec: Block -> Block, carried: Block)
    requires start + n + BLOCK <= |was| && n % BLOCK == 0
    requires before == DecryptedFrom(was, start, n, iv, dec) && carried == Carry(was[start..start + n], iv)
    requires var at := start + n; after == before[..at] + Add(dec(before[at..at + BLOCK]), carried) + before[at + BLOCK..]
    ensures after == DecryptedFrom(was, start, n + BLOCK, iv, dec)
    ensures Carry(was[start..start + n + BLOCK], iv) == before[start + n..start + n + BLOCK]
  {
    DecryptedParts(was, start, n, iv, dec);
    RunParts(was, start, n);
    OneMoreBack(was[start..], n, iv, dec);
    Unfolded(was, start, n, iv, dec);
    Unfolded(was, start, n + BLOCK, iv, dec);
    hide CbcDecrypt, Add, Carry, DecryptedFrom;
    Longer(was, before, after, start, n, before[start..start + n], Add(dec(before[start + n..start + n + BLOCK]), carried));
    LastBlock(was, start, n, iv);
  }

  lemma OneMoreBlock(data: seq<bv8>, at: nat, iv: Block, enc: Block -> Block)
    requires at % BLOCK == 0 && at + BLOCK <= |data|
    ensures CbcEncrypt(data[..at + BLOCK], iv, enc) ==
            CbcEncrypt(data[..at], iv, enc) + enc(Add(data[at..at + BLOCK], Carry(CbcEncrypt(data[..at], iv, enc), iv)))
  {
    var last := data[at..at + BLOCK];
    EncryptSplits(data[..at], last, iv, enc);
    assert data[..at] + last == data[..at + BLOCK];
    hide Add;
    assert last[..BLOCK] == last && last[BLOCK..] == [];
  }
}

/**
 * The AES-256 block cipher and cipher block chaining of crypto/aes.c, in place on a buffer,
 * with decryption shown to undo encryption for every array of round keys.
 */
module Aes {
  import opened Common
  import opened SubstitutionTables
  import opened ByteField
  import opened Blocks
  import opened Chaining
  import Octets

  /** One block of key before the first round and one for each round: fifteen of them for a 256-bit key. */
  type RoundKeys = k: seq<bv8> | |k| % BLOCK == 0 && |k| >= 2 * BLOCK witness seq(15 * BLOCK, _ => 0)

  function Last(w: RoundKeys): nat { |w| / BLOCK - 1 }

  // ---- The steps of a round ------------------------------------------------------------------

  function SubByte(x: bv8): bv8 {
    TablesInvert(x as int);
    Sbox(x as int) as bv8
  }

  function UnsubByte(x: bv8): bv8 {
    EntriesAreBytes(x as int / 16, x as int % 16);
    Rsbox(x as int) as bv8
  }

  lemma UnsubUndoesSub(x: bv8)
    ensures UnsubByte(SubByte(x)) == x
  {
    var k := x as int;
    TablesInvert(k);
    hide Sbox, Rsbox;
    Octets.ByteRoundTrip(Sbox(k));
    BitsRoundTrip(x);
  }

  lemma BitsRoundTrip(x: bv8)
    ensures (x as int) as bv8 == x
  {
  }

  function Sub(s: Block): Block { seq(BLOCK, k requires 0 <= k < BLOCK => SubByte(s[k])) }

  function Unsub(s: Block): Block { seq(BLOCK, k requires 0 <= k < BLOCK => UnsubByte(s[k])) }

  /** Row j moves j columns to the left; a block's bytes stand four to a column. */
  function Shift(s: Block): Block {
    [s[0], s[5], s[10], s[15], s[4], s[9], s[14], s[3], s[8], s[13], s[2], s[7], s[12], s[1], s[6], s[11]]
  }

  function Unshift(s: Block): Block {
    [s[0], s[13], s[10], s[7], s[4], s[1], s[14], s[11], s[8], s[5], s[2], s[15], s[12], s[9], s[6], s[3]]
  }

  /** The next byte of the same column, around. */
  function Next(k: nat): (r: nat)
    requires k < BLOCK
    ensures r < BLOCK
  {
    if k % 4 == 3 then k - 3 else k + 1
  }

  lemma AroundTheColumn(k: nat)
    requires k < BLOCK
    ensures Next(Next(Next(Next(k)))) == k
  {
  }

  function MixAt(s: Block, k: nat): bv8
    requires k < BLOCK
  {
    Mix(s[k], s[Next(k)], s[Next(Next(k))], s[Next(Next(Next(k)))])
  }

  function MixColumns(s: Block): Block { seq(BLOCK, k requires 0 <= k < BLOCK => MixAt(s, k)) }

  function UnmixAt(s: Block, k: nat): bv8
    requires k < BLOCK
  {
    Unmix(s[k], s[Next(k)], s[Next(Next(k))], s[Next(Next(Next(k)))])
  }

  function UnmixColumns(s: Block): Block { seq(BLOCK, k requires 0 <= k < BLOCK => UnmixAt(s, k)) }

  function KeyOf(w: RoundKeys, round: nat): Block
    requires round <= Last(w)
  {
    w[BLOCK * round..BLOCK * round + BLOCK]
  }

  // ---- Each step and its inverse -------------------------------------------------------------

  lemma UnsubBlock(s: Block)
    ensures Unsub(Sub(s)) == s
  {
    hide SubByte, UnsubByte;
    forall k | 0 <= k < BLOCK
      ensures UnsubByte(SubByte(s[k])) == s[k]
    {
      UnsubUndoesSub(s[k]);
    }
  }

  lemma UnshiftBlock(s: Block)
    ensures Unshift(Shift(s)) == s
  {
  }

  lemma UnmixBlock(s: Block)
    ensures UnmixColumns(MixColumns(s)) == s
  {
    hide Mix, Unmix, Next;
    forall k | 0 <= k < BLOCK
      ensures UnmixAt(MixColumns(s), k) == s[k]
    {
      AroundTheColumn(k);
      UnmixUndoesMix(s[k], s[Next(k)], s[Next(Next(k))], s[Next(Next(Next(k)))]);
    }
  }

  // ---- The cipher ------------------------------------------------------------------------------

  /** The state after a number of full rounds. */
  function Rounds(s: Block, w: RoundKeys, r: nat): Block
    requires r < Last(w)
  {
    if r == 0 then Add(s, KeyOf(w, 0)) else Add(MixColumns(Shift(Sub(Rounds(s, w, r - 1)))), KeyOf(w, r))
  }

  /** The last round mixes no columns. */
  function Cipher(s: Block, w: RoundKeys): Block {
    Add(Shift(Sub(Rounds(s, w, Last(w) - 1))), KeyOf(w, Last(w)))
  }

  /** Decryption from the state it has at the start of a round, counting down. */
  function InverseRounds(s: Block, w: RoundKeys, r: nat): Block
    requires r < Last(w)
    decreases r
  {
    var t := Add(Unsub(Unshift(s)), KeyOf(w, r));
    if r == 0 then t else InverseRounds(UnmixColumns(t), w, r - 1)
  }

  function InverseCipher(s: Block, w: RoundKeys): Block { InverseRounds(Add(s, KeyOf(w, Last(w))), w, Last(w) - 1) }

  lemma {:induction false} RoundsUndone(s: Block, w: RoundKeys, r: nat)
    requires r < Last(w)
    ensures InverseRounds(Shift(Sub(Rounds(s, w, r))), w, r) == s
  {
    hide Sub, Unsub, Shift, Unshift, MixColumns, UnmixColumns, Add, KeyOf;
    var t := Rounds(s, w, r);
    UnshiftBlock(Sub(t));
    UnsubBlock(t);
    if r == 0 {
      AddTwice(s, KeyOf(w, 0));
    } else {
      var u := Shift(Sub(Rounds(s, w, r - 1)));
      AddTwice(MixColumns(u), KeyOf(w, r));
      UnmixBlock(u);
      RoundsUndone(s, w, r - 1);
    }
  }

  /** Decryption undoes encryption, whatever the round keys. */
  lemma InverseCipherUndoes(s: Block, w: RoundKeys)
    ensures InverseCipher(Cipher(s, w), w) == s
  {
    hide Rounds, InverseRounds, Sub, Shift, Add, KeyOf;
    AddTwice(Shift(Sub(Rounds(s, w, Last(w) - 1))), KeyOf(w, Last(w)));
    RoundsUndone(s, w, Last(w) - 1);
  }

  // ---- In place --------------------------------------------------------------------------------

  /** Nothing but the block at an offset changed. */
  twostate predicate Elsewhere(buf: array<bv8>, at: nat)
    reads buf
  {
    forall p :: 0 <= p < buf.Length && !(at <= p < at + BLOCK) ==> buf[p] == old(buf[p])
  }

  method AddRoundKey(buf: array<bv8>, at: nat, key: Block)
    requires at + BLOCK <= buf.Length
    modifies buf
    ensures buf[at..at + BLOCK] == Add(old(buf[at..at + BLOCK]), key) && Elsewhere(buf, at)
  {
    hide Xor;
    ghost var s: Block := buf[at..at + BLOCK];
    for i := 0 to 4
      invariant forall p :: at <= p < at + BLOCK ==> buf[p] == if p < at + 4 * i then Xor(s[p - at], key[p - at]) else s[p - at]
      invariant Elsewhere(buf, at)
    {
      for j := 0 to 4
        invariant forall p :: at <= p < at + BLOCK ==> buf[p] == if p < at + 4 * i + j then Xor(s[p - at], key[p - at]) else s[p - at]
        invariant Elsewhere(buf, at)
      {
        buf[at + 4 * i + j] := Xor(buf[at + 4 * i + j], key[4 * i + j]);
      }
    }
  }

  /** Substitutes every byte, a row of the state at a time. */
  method SubBytes(buf: array<bv8>, at: nat, inverse: bool)
    requires at + BLOCK <= buf.Length
    modifies buf
    ensures buf[at..at + BLOCK] == (if inverse then Unsub(old(buf[at..at + BLOCK])) else Sub(old(buf[at..at + BLOCK])))
    ensures Elsewhere(buf, at)
  {
    hide SubByte, UnsubByte;
    ghost var s: Block := buf[at..at + BLOCK];
    ghost var t: Block := if inverse then Unsub(s) else Sub(s);
    hide Turn;
    LastTurn();
    for i := 0 to 4
      invariant forall p :: at <= p < at + BLOCK ==> buf[p] == if Turn(p - at) < 4 * i then t[p - at] else s[p - at]
      invariant Elsewhere(buf, at)
    {
      for j := 0 to 4
        invariant forall p :: at <= p < at + BLOCK ==> buf[p] == if Turn(p - at) < 4 * i + j then t[p - at] else s[p - at]
        invariant Elsewhere(buf, at)
      {
        var p := at + 4 * j + i;
        TurnOf(i, j);
        assert buf[p] == s[p - at];
        buf[p] := if inverse then UnsubByte(buf[p]) else SubByte(buf[p]);
      }
    }
  }

  /** When a byte of a block gets its turn, rows of the state first. */
  function Turn(k: int): int { k % 4 * 4 + k / 4 }

  lemma TurnOf(i: nat, j: nat)
    requires i < 4 && j < 4
    ensures forall k {:trigger Turn(k)} :: 0 <= k < BLOCK ==> (Turn(k) == 4 * i + j <==> k == 4 * j + i)
  {
  }

  lemma LastTurn()
    ensures forall k {:trigger Turn(k)} :: 0 <= k < BLOCK ==> 0 <= Turn(k) < BLOCK
  {
  }

  /** Four bytes of a row, each taking the next one's place. */
  method Rotate(buf: array<bv8>, a: nat, b: nat, c: nat, d: nat)
    requires a < buf.Length && b < buf.Length && c < buf.Length && d < buf.Length
    requires a != b && a != c && a != d && b != c && b != d && c != d
    modifies buf
    ensures forall p :: 0 <= p < buf.Length ==>
      buf[p] == old(if p == a then buf[b] else if p == b then buf[c] else if p == c then buf[d] else if p == d then buf[a] else buf[p])
  {
    var temp := buf[a];
    buf[a] := buf[b];
    buf[b] := buf[c];
    buf[c] := buf[d];
    buf[d] := temp;
  }

  method Swap(buf: array<bv8>, a: nat, b: nat)
    requires a < buf.Length && b < buf.Length
    modifies buf
    ensures forall p :: 0 <= p < buf.Length ==> buf[p] == old(if p == a then buf[b] else if p == b then buf[a] else buf[p])
  {
    var temp := buf[a];
    buf[a] := buf[b];
    buf[b] := temp;
  }

  /** Rotates the rows of the state, one, two and three columns to the left. */
  method ShiftRows(buf: array<bv8>, at: nat)
    requires at + BLOCK <= buf.Length
    modifies buf
    ensures buf[at..at + BLOCK] == Shift(old(buf[at..at + BLOCK])) && Elsewhere(buf, at)
  {
    Rotate(buf, at + 1, at + 5, at + 9, at + 13);
    Swap(buf, at + 2, at + 10);
    Swap(buf, at + 6, at + 14);
    Rotate(buf, at + 3, at + 15, at + 11, at + 7);
  }

  /** Rotates them back to the right. */
  method UnshiftRows(buf: array<bv8>, at: nat)
    requires at + BLOCK <= buf.Length
    modifies buf
    ensures buf[at..at + BLOCK] == Unshift(old(buf[at..at + BLOCK])) && Elsewhere(buf, at)
  {
    Rotate(buf, at + 13, at + 9, at + 5, at + 1);
    Swap(buf, at + 2, at + 10);
    Swap(buf, at + 6, at + 14);
    Rotate(buf, at + 3, at + 7, at + 11, at + 15);
  }

  /** Mixes the four bytes from an offset, each from its neighbours as they were. */
  method MixColumn(buf: array<bv8>, p: nat)
    requires p + 4 <= buf.Length
    modifies buf
    ensures var a, b, c, d := old(buf[p]), old(buf[p + 1]), old(buf[p + 2]), old(buf[p + 3]);
            buf[p] == Mix(a, b, c, d) && buf[p + 1] == Mix(b, c, d, a) && buf[p + 2] == Mix(c, d, a, b) && buf[p + 3] == Mix(d, a, b, c)
    ensures forall q :: 0 <= q < buf.Length && !(p <= q < p + 4) ==> buf[q] == old(buf[q])
  {
    hide Xor, XTime, Sum;
    ghost var a, b, c, d := buf[p], buf[p + 1], buf[p + 2], buf[p + 3];
    SumTurns(a, b, c, d);
    SumTurns(b, c, d, a);
    SumTurns(c, d, a, b);
    var first := buf[p];
    var all := Sum(buf[p], buf[p + 1], buf[p + 2], buf[p + 3]);
    buf[p] := Xor(buf[p], Xor(XTime(Xor(buf[p], buf[p + 1])), all));
    buf[p + 1] := Xor(buf[p + 1], Xor(XTime(Xor(buf[p + 1], buf[p + 2])), all));
    buf[p + 2] := Xor(buf[p + 2], Xor(XTime(Xor(buf[p + 2], buf[p + 3])), all));
    buf[p + 3] := Xor(buf[p + 3], Xor(XTime(Xor(buf[p + 3], first)), all));
  }

  method UnmixColumn(buf: array<bv8>, p: nat)
    requires p + 4 <= buf.Length
    modifies buf
    ensures var a, b, c, d := old(buf[p]), old(buf[p + 1]), old(buf[p + 2]), old(buf[p + 3]);
            && buf[p] == Unmix(a, b, c, d) && buf[p + 1] == Unmix(b, c, d, a)
            && buf[p + 2] == Unmix(c, d, a, b) && buf[p + 3] == Unmix(d, a, b, c)
    ensures forall q :: 0 <= q < buf.Length && !(p <= q < p + 4) ==> buf[q] == old(buf[q])
  {
    hide Multiply, Sum, By9, By11, By13, By14;
    var a, b, c, d := buf[p], buf[p + 1], buf[p + 2], buf[p + 3];
    UnmixByProducts(a, b, c, d);
    buf[p] := Sum(Multiply(a, 0x0e), Multiply(b, 0x0b), Multiply(c, 0x0d), Multiply(d, 0x09));
    buf[p + 1] := Sum(Multiply(a, 0x09), Multiply(b, 0x0e), Multiply(c, 0x0b), Multiply(d, 0x0d));
    buf[p + 2] := Sum(Multiply(a, 0x0d), Multiply(b, 0x09), Multiply(c, 0x0e), Multiply(d, 0x0b));
    buf[p + 3] := Sum(Multiply(a, 0x0b), Multiply(b, 0x0d), Multiply(c, 0x09), Multiply(d, 0x0e));
  }

  lemma UnmixByProducts(a: bv8, b: bv8, c: bv8, d: bv8)
    ensures Sum(Multiply(a, 0x0e), Multiply(b, 0x0b), Multiply(c, 0x0d), Multiply(d, 0x09)) == Unmix(a, b, c, d)
    ensures Sum(Multiply(a, 0x09), Multiply(b, 0x0e), Multiply(c, 0x0b), Multiply(d, 0x0d)) == Unmix(b, c, d, a)
    ensures Sum(Multiply(a, 0x0d), Multiply(b, 0x09), Multiply(c, 0x0e), Multiply(d, 0x0b)) == Unmix(c, d, a, b)
    ensures Sum(Multiply(a, 0x0b), Multiply(b, 0x0d), Multiply(c, 0x09), Multiply(d, 0x0e)) == Unmix(d, a, b, c)
  {
    MultiplyBy(a);
    MultiplyBy(b);
    MultiplyBy(c);
    MultiplyBy(d);
    UnmixTurned(a, b, c, d);
    hide *;
  }

  lemma UnmixTurned(a: bv8, b: bv8, c: bv8, d: bv8)
    ensures Sum(By14(a), By11(b), By13(c), By9(d)) == Unmix(a, b, c, d)
    ensures Sum(By9(a), By14(b), By11(c), By13(d)) == Unmix(b, c, d, a)
    ensures Sum(By13(a), By9(b), By14(c), By11(d)) == Unmix(c, d, a, b)
    ensures Sum(By11(a), By13(b), By9(c), By14(d)) == Unmix(d, a, b, c)
  {
    hide Sum, By9, By11, By13, By14;
    SumTurns(By9(a), By14(b), By11(c), By13(d));
    SumTurns(By13(a), By9(b), By14(c), By11(d));
    SumTurns(By9(b), By14(c), By11(d), By13(a));
    SumTurns(By11(a), By13(b), By9(c), By14(d));
    SumTurns(By13(b), By9(c), By14(d), By11(a));
    SumTurns(By9(c), By14(d), By11(a), By13(b));
  }

  method MixAll(buf: array<bv8>, at: nat)
    requires at + BLOCK <= buf.Length
    modifies buf
    ensures buf[at..at + BLOCK] == MixColumns(old(buf[at..at + BLOCK])) && Elsewhere(buf, at)
  {
    hide Mix, Unmix, MixAt, UnmixAt;
    ghost var s: Block := buf[at..at + BLOCK];
    for i := 0 to 4
      invariant forall p :: at <= p < at + BLOCK ==> buf[p] == if p < at + 4 * i then MixAt(s, p - at) else s[p - at]
      invariant Elsewhere(buf, at)
    {
      ColumnOf(s, i);
      var q := at + 4 * i;
      assert buf[q] == s[4 * i] && buf[q + 1] == s[4 * i + 1] && buf[q + 2] == s[4 * i + 2] && buf[q + 3] == s[4 * i + 3];
      MixColumn(buf, q);
      assert buf[q] == MixAt(s, 4 * i) && buf[q + 1] == MixAt(s, 4 * i + 1);
      assert buf[q + 2] == MixAt(s, 4 * i + 2) && buf[q + 3] == MixAt(s, 4 * i + 3);
    }
  }

  method UnmixAll(buf: array<bv8>, at: nat)
    requires at + BLOCK <= buf.Length
    modifies buf
    ensures buf[at..at + BLOCK] == UnmixColumns(old(buf[at..at + BLOCK])) && Elsewhere(buf, at)
  {
    hide Mix, Unmix, MixAt, UnmixAt;
    ghost var s: Block := buf[at..at + BLOCK];
    for i := 0 to 4
      invariant forall p :: at <= p < at + BLOCK ==> buf[p] == if p < at + 4 * i then UnmixAt(s, p - at) else s[p - at]
      invariant Elsewhere(buf, at)
    {
      ColumnOf(s, i);
      var q := at + 4 * i;
      assert buf[q] == s[4 * i] && buf[q + 1] == s[4 * i + 1] && buf[q + 2] == s[4 * i + 2] && buf[q + 3] == s[4 * i + 3];
      UnmixColumn(buf, q);
      assert buf[q] == UnmixAt(s, 4 * i) && buf[q + 1] == UnmixAt(s, 4 * i + 1);
      assert buf[q + 2] == UnmixAt(s, 4 * i + 2) && buf[q + 3] == UnmixAt(s, 4 * i + 3);
    }
  }

  lemma ColumnOf(s: Block, i: nat)
    requires i < 4
    ensures var k := 4 * i;
            var a, b, c, d := s[k], s[k + 1], s[k + 2], s[k + 3];
            && MixAt(s, k) == Mix(a, b, c, d) && MixAt(s, k + 1) == Mix(b, c, d, a)
            && MixAt(s, k + 2) == Mix(c, d, a, b) && MixAt(s, k + 3) == Mix(d, a, b, c)
            && UnmixAt(s, k) == Unmix(a, b, c, d) && UnmixAt(s, k + 1) == Unmix(b, c, d, a)
            && UnmixAt(s, k + 2) == Unmix(c, d, a, b) && UnmixAt(s, k + 3) == Unmix(d, a, b, c)
  {
    hide Mix, Unmix, Next;
    AlongTheColumn(i);
  }

  lemma AlongTheColumn(i: nat)
    requires i < 4
    ensures var k := 4 * i; Next(k) == k + 1 && Next(k + 1) == k + 2 && Next(k + 2) == k + 3 && Next(k + 3) == k
  {
  }

  /** Encrypts the block at an offset. */
  method Encrypt(buf: array<bv8>, at: nat, w: RoundKeys)
    requires at + BLOCK <= buf.Length
    modifies buf
    ensures buf[at..at + BLOCK] == Cipher(old(buf[at..at + BLOCK]), w) && Elsewhere(buf, at)
  {
    hide Sub, Shift, MixColumns, Add, KeyOf;
    ghost var s: Block := buf[at..at + BLOCK];
    AddRoundKey(buf, at, KeyOf(w, 0));
    var round := 1;
    while true
      invariant 1 <= round <= Last(w)
      invariant buf[at..at + BLOCK] == Rounds(s, w, round - 1) && Elsewhere(buf, at)
      decreases Last(w) - round
    {
      SubBytes(buf, at, false);
      ShiftRows(buf, at);
      if round == Last(w) {
        break;
      }
      MixAll(buf, at);
      AddRoundKey(buf, at, KeyOf(w, round));
      round := round + 1;
    }
    AddRoundKey(buf, at, KeyOf(w, Last(w)));
  }

  /** Decrypts the block at an offset. */
  method Decrypt(buf: array<bv8>, at: nat, w: RoundKeys)
    requires at + BLOCK <= buf.Length
    modifies buf
    ensures buf[at..at + BLOCK] == InverseCipher(old(buf[at..at + BLOCK]), w) && Elsewhere(buf, at)
  {
    hide Unsub, Unshift, UnmixColumns, Add, KeyOf;
    ghost var s: Block := buf[at..at + BLOCK];
    AddRoundKey(buf, at, KeyOf(w, Last(w)));
    var round := Last(w) - 1;
    while true
      invariant 0 <= round < Last(w)
      invariant InverseRounds(buf[at..at + BLOCK], w, round) == InverseCipher(s, w) && Elsewhere(buf, at)
      decreases round
    {
      UnshiftRows(buf, at);
      SubBytes(buf, at, true);
      AddRoundKey(buf, at, KeyOf(w, round));
      if round == 0 {
        break;
      }
      UnmixAll(buf, at);
      round := round - 1;
    }
  }

  // ---- Cipher block chaining in place -------------------------------------------------------------

  /** The cipher under given keys, and its inverse. */
  function Under(w: RoundKeys): Block -> Block { (s: Block) => Cipher(s, w) }

  function Back(w: RoundKeys): Block -> Block { (s: Block) => InverseCipher(s, w) }

  /** Decrypting what was encrypted gives it back, for every key, every vector and every whole number of blocks. */
  lemma DecryptUndoesEncrypt(data: seq<bv8>, iv: Block, w: RoundKeys)
    requires Whole(data)
    ensures CbcDecrypt(CbcEncrypt(data, iv, Under(w)), iv, Back(w)) == data
  {
    hide Cipher, InverseCipher;
    forall s: Block
      ensures Back(w)(Under(w)(s)) == s
    {
      InverseCipherUndoes(s, w);
    }
    CbcRoundTrip(data, iv, Under(w), Back(w));
  }

  /** One block of a buffer exchanged. */
  function Splice(s: seq<bv8>, at: nat, block: Block): seq<bv8>
    requires at + BLOCK <= |s|
  {
    s[..at] + block + s[at + BLOCK..]
  }

  lemma SpliceIs(s: seq<bv8>, t: seq<bv8>, at: nat, block: Block)
    requires at + BLOCK <= |s| == |t| && block == t[at..at + BLOCK]
    requires forall p :: 0 <= p < |s| && !(at <= p < at + BLOCK) ==> t[p] == s[p]
    ensures t == Splice(s, at, block)
  {
  }

  /** The context of a stream: its keys, and the vector carried from call to call. */
  class Context {
    const roundKey: RoundKeys
    var iv: Block

    constructor (roundKey: RoundKeys, iv: Block)
      ensures this.roundKey == roundKey && this.iv == iv
    {
      this.roundKey, this.iv := roundKey, iv;
    }

    /**
     * Encrypts `n` bytes from an offset, in place, and keeps the vector for the next call.
     * Whole blocks are written: all of the last one, whether or not the bytes fill it. The
     * lengths are those whose end the 32-bit counter reaches.
     */
    method EncryptBuffer(buf: array<bv8>, start: nat, n: U32)
      requires start + Reach(n) <= buf.Length && n <= TWO32 - BLOCK
      modifies this, buf
      ensures buf[..] == EncryptedFrom(old(buf[..]), start, Reach(n), old(iv), Under(roundKey))
      ensures iv == Carry(buf[start..start + Reach(n)], old(iv))
    {
      hide EncryptedFrom, Cipher, Add, Carry, Reach;
      ghost var was, enc := buf[..], Under(roundKey);
      var carried := iv;
      var i: U32 := 0;
      EncryptedNothing(was, start, iv, enc);
      while i < n
        invariant i <= Reach(n) <= TWO32 - BLOCK && i % BLOCK == 0 && iv == old(iv)
        invariant buf[..] == EncryptedFrom(was, start, i, iv, enc)
        invariant carried == Carry(buf[start..start + i], iv)
        decreases TWO32 - i
      {
        ReachSteps(i, n);
        ghost var before := buf[..];
        EncryptNext(buf, start + i, carried);
        EncryptedMore(was, before, buf[..], start, i, iv, enc, carried);
        carried := buf[start + i..start + i + BLOCK];
        i := Add32(i, BLOCK);
      }
      ReachSteps(i, n);
      iv := carried;
    }

    /** One block, from the one before it. */
    method EncryptNext(buf: array<bv8>, at: nat, carried: Block)
      requires at + BLOCK <= buf.Length
      modifies buf
      ensures buf[..] == Splice(old(buf[..]), at, Cipher(Add(old(buf[at..at + BLOCK]), carried), roundKey))
    {
      hide Cipher, Add, Splice;
      AddRoundKey(buf, at, carried);
      Encrypt(buf, at, roundKey);
      SpliceIs(old(buf[..]), buf[..], at, buf[at..at + BLOCK]);
    }

    /**
     * Decrypts `n` bytes from an offset, in place, each block's ciphertext put by before it is
     * overwritten. Whole blocks are read and written, past the end of the bytes if need be.
     */
    method DecryptBuffer(buf: array<bv8>, start: nat, n: U32)
      requires start + Reach(n) <= buf.Length && n <= TWO32 - BLOCK
      modifies this, buf
      ensures buf[..] == DecryptedFrom(old(buf[..]), start, Reach(n), old(iv), Back(roundKey))
      ensures iv == Carry(old(buf[start..start + Reach(n)]), old(iv))
    {
      hide DecryptedFrom, InverseCipher, Add, Carry, Reach;
      ghost var was, dec := buf[..], Back(roundKey);
      var i: U32 := 0;
      DecryptedNothing(was, start, iv, dec);
      while i < n
        invariant i <= Reach(n) <= TWO32 - BLOCK && i % BLOCK == 0
        invariant buf[..] == DecryptedFrom(was, start, i, old(iv), dec)
        invariant iv == Carry(was[start..start + i], old(iv))
        decreases TWO32 - i
      {
        ReachSteps(i, n);
        ghost var before, carried := buf[..], iv;
        DecryptNext(buf, start + i);
        DecryptedMore(was, before, buf[..], start, i, old(iv), dec, carried);
        i := Add32(i, BLOCK);
      }
      ReachSteps(i, n);
    }

    method DecryptNext(buf: array<bv8>, at: nat)
      requires at + BLOCK <= buf.Length
      modifies this, buf
      ensures buf[..] == Splice(old(buf[..]), at, Add(InverseCipher(old(buf[at..at + BLOCK]), roundKey), old(iv)))
      ensures iv == old(buf[at..at + BLOCK])
    {
      hide InverseCipher, Add, Splice;
      var next := buf[at..at + BLOCK];
      Decrypt(buf, at, roundKey);
      AddRoundKey(buf, at, iv);
      iv := next;
      SpliceIs(old(buf[..]), buf[..], at, buf[at..at + BLOCK]);
    }
  }
}