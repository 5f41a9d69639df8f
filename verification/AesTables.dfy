/**
 * AES-256 as crypto/aes.c implements it: the substitution tables and the arithmetic of the
 * byte field, each with its inverse.
 */
module SubstitutionTables {

  // The substitution box, sixteen rows of sixteen.

  function S0(c: int): int {
    match c
    case 0 => 0x63 case 1 => 0x7c case 2 => 0x77 case 3 => 0x7b case 4 => 0xf2 case 5 => 0x6b case 6 => 0x6f case 7 => 0xc5
    case 8 => 0x30 case 9 => 0x01 case 10 => 0x67 case 11 => 0x2b case 12 => 0xfe case 13 => 0xd7 case 14 => 0xab case _ => 0x76
  }

  function S1(c: int): int {
    match c
    case 0 => 0xca case 1 => 0x82 case 2 => 0xc9 case 3 => 0x7d case 4 => 0xfa case 5 => 0x59 case 6 => 0x47 case 7 => 0xf0
    case 8 => 0xad case 9 => 0xd4 case 10 => 0xa2 case 11 => 0xaf case 12 => 0x9c case 13 => 0xa4 case 14 => 0x72 case _ => 0xc0
  }

  function S2(c: int): int {
    match c
    case 0 => 0xb7 case 1 => 0xfd case 2 => 0x93 case 3 => 0x26 case 4 => 0x36 case 5 => 0x3f case 6 => 0xf7 case 7 => 0xcc
    case 8 => 0x34 case 9 => 0xa5 case 10 => 0xe5 case 11 => 0xf1 case 12 => 0x71 case 13 => 0xd8 case 14 => 0x31 case _ => 0x15
  }

  function S3(c: int): int {
    match c
    case 0 => 0x04 case 1 => 0xc7 case 2 => 0x23 case 3 => 0xc3 case 4 => 0x18 case 5 => 0x96 case 6 => 0x05 case 7 => 0x9a
    case 8 => 0x07 case 9 => 0x12 case 10 => 0x80 case 11 => 0xe2 case 12 => 0xeb case 13 => 0x27 case 14 => 0xb2 case _ => 0x75
  }

  function S4(c: int): int {
    match c
    case 0 => 0x09 case 1 => 0x83 case 2 => 0x2c case 3 => 0x1a case 4 => 0x1b case 5 => 0x6e case 6 => 0x5a case 7 => 0xa0
    case 8 => 0x52 case 9 => 0x3b case 10 => 0xd6 case 11 => 0xb3 case 12 => 0x29 case 13 => 0xe3 case 14 => 0x2f case _ => 0x84
  }

  function S5(c: int): int {
    match c
    case 0 => 0x53 case 1 => 0xd1 case 2 => 0x00 case 3 => 0xed case 4 => 0x20 case 5 => 0xfc case 6 => 0xb1 case 7 => 0x5b
    case 8 => 0x6a case 9 => 0xcb case 10 => 0xbe case 11 => 0x39 case 12 => 0x4a case 13 => 0x4c case 14 => 0x58 case _ => 0xcf
  }

  function S6(c: int): int {
    match c
    case 0 => 0xd0 case 1 => 0xef case 2 => 0xaa case 3 => 0xfb case 4 => 0x43 case 5 => 0x4d case 6 => 0x33 case 7 => 0x85
    case 8 => 0x45 case 9 => 0xf9 case 10 => 0x02 case 11 => 0x7f case 12 => 0x50 case 13 => 0x3c case 14 => 0x9f case _ => 0xa8
  }

  function S7(c: int): int {
    match c
    case 0 => 0x51 case 1 => 0xa3 case 2 => 0x40 case 3 => 0x8f case 4 => 0x92 case 5 => 0x9d case 6 => 0x38 case 7 => 0xf5
    case 8 => 0xbc case 9 => 0xb6 case 10 => 0xda case 11 => 0x21 case 12 => 0x10 case 13 => 0xff case 14 => 0xf3 case _ => 0xd2
  }

  function S8(c: int): int {
    match c
    case 0 => 0xcd case 1 => 0x0c case 2 => 0x13 case 3 => 0xec case 4 => 0x5f case 5 => 0x97 case 6 => 0x44 case 7 => 0x17
    case 8 => 0xc4 case 9 => 0xa7 case 10 => 0x7e case 11 => 0x3d case 12 => 0x64 case 13 => 0x5d case 14 => 0x19 case _ => 0x73
  }

  function S9(c: int): int {
    match c
    case 0 => 0x60 case 1 => 0x81 case 2 => 0x4f case 3 => 0xdc case 4 => 0x22 case 5 => 0x2a case 6 => 0x90 case 7 => 0x88
    case 8 => 0x46 case 9 => 0xee case 10 => 0xb8 case 11 => 0x14 case 12 => 0xde case 13 => 0x5e case 14 => 0x0b case _ => 0xdb
  }

  function S10(c: int): int {
    match c
    case 0 => 0xe0 case 1 => 0x32 case 2 => 0x3a case 3 => 0x0a case 4 => 0x49 case 5 => 0x06 case 6 => 0x24 case 7 => 0x5c
    case 8 => 0xc2 case 9 => 0xd3 case 10 => 0xac case 11 => 0x62 case 12 => 0x91 case 13 => 0x95 case 14 => 0xe4 case _ => 0x79
  }

  function S11(c: int): int {
    match c
    case 0 => 0xe7 case 1 => 0xc8 case 2 => 0x37 case 3 => 0x6d case 4 => 0x8d case 5 => 0xd5 case 6 => 0x4e case 7 => 0xa9
    case 8 => 0x6c case 9 => 0x56 case 10 => 0xf4 case 11 => 0xea case 12 => 0x65 case 13 => 0x7a case 14 => 0xae case _ => 0x08
  }

  function S12(c: int): int {
    match c
    case 0 => 0xba case 1 => 0x78 case 2 => 0x25 case 3 => 0x2e case 4 => 0x1c case 5 => 0xa6 case 6 => 0xb4 case 7 => 0xc6
    case 8 => 0xe8 case 9 => 0xdd case 10 => 0x74 case 11 => 0x1f case 12 => 0x4b case 13 => 0xbd case 14 => 0x8b case _ => 0x8a
  }

  function S13(c: int): int {
    match c
    case 0 => 0x70 case 1 => 0x3e case 2 => 0xb5 case 3 => 0x66 case 4 => 0x48 case 5 => 0x03 case 6 => 0xf6 case 7 => 0x0e
    case 8 => 0x61 case 9 => 0x35 case 10 => 0x57 case 11 => 0xb9 case 12 => 0x86 case 13 => 0xc1 case 14 => 0x1d case _ => 0x9e
  }

  function S14(c: int): int {
    match c
    case 0 => 0xe1 case 1 => 0xf8 case 2 => 0x98 case 3 => 0x11 case 4 => 0x69 case 5 => 0xd9 case 6 => 0x8e case 7 => 0x94
    case 8 => 0x9b case 9 => 0x1e case 10 => 0x87 case 11 => 0xe9 case 12 => 0xce case 13 => 0x55 case 14 => 0x28 case _ => 0xdf
  }

  function S15(c: int): int {
    match c
    case 0 => 0x8c case 1 => 0xa1 case 2 => 0x89 case 3 => 0x0d case 4 => 0xbf case 5 => 0xe6 case 6 => 0x42 case 7 => 0x68
    case 8 => 0x41 case 9 => 0x99 case 10 => 0x2d case 11 => 0x0f case 12 => 0xb0 case 13 => 0x54 case 14 => 0xbb case _ => 0x16
  }

  /** An entry of it. */
  function SubAt(r: int, c: int): int {
    match r
    case 0 => S0(c)
    case 1 => S1(c)
    case 2 => S2(c)
    case 3 => S3(c)
    case 4 => S4(c)
    case 5 => S5(c)
    case 6 => S6(c)
    case 7 => S7(c)
    case 8 => S8(c)
    case 9 => S9(c)
    case 10 => S10(c)
    case 11 => S11(c)
    case 12 => S12(c)
    case 13 => S13(c)
    case 14 => S14(c)
    case _ => S15(c)
  }

  // The box that undoes it.

  function R0(c: int): int {
    match c
    case 0 => 0x52 case 1 => 0x09 case 2 => 0x6a case 3 => 0xd5 case 4 => 0x30 case 5 => 0x36 case 6 => 0xa5 case 7 => 0x38
    case 8 => 0xbf case 9 => 0x40 case 10 => 0xa3 case 11 => 0x9e case 12 => 0x81 case 13 => 0xf3 case 14 => 0xd7 case _ => 0xfb
  }

  function R1(c: int): int {
    match c
    case 0 => 0x7c case 1 => 0xe3 case 2 => 0x39 case 3 => 0x82 case 4 => 0x9b case 5 => 0x2f case 6 => 0xff case 7 => 0x87
    case 8 => 0x34 case 9 => 0x8e case 10 => 0x43 case 11 => 0x44 case 12 => 0xc4 case 13 => 0xde case 14 => 0xe9 case _ => 0xcb
  }

  function R2(c: int): int {
    match c
    case 0 => 0x54 case 1 => 0x7b case 2 => 0x94 case 3 => 0x32 case 4 => 0xa6 case 5 => 0xc2 case 6 => 0x23 case 7 => 0x3d
    case 8 => 0xee case 9 => 0x4c case 10 => 0x95 case 11 => 0x0b case 12 => 0x42 case 13 => 0xfa case 14 => 0xc3 case _ => 0x4e
  }

  function R3(c: int): int {
    match c
    case 0 => 0x08 case 1 => 0x2e case 2 => 0xa1 case 3 => 0x66 case 4 => 0x28 case 5 => 0xd9 case 6 => 0x24 case 7 => 0xb2
    case 8 => 0x76 case 9 => 0x5b case 10 => 0xa2 case 11 => 0x49 case 12 => 0x6d case 13 => 0x8b case 14 => 0xd1 case _ => 0x25
  }

  function R4(c: int): int {
    match c
    case 0 => 0x72 case 1 => 0xf8 case 2 => 0xf6 case 3 => 0x64 case 4 => 0x86 case 5 => 0x68 case 6 => 0x98 case 7 => 0x16
    case 8 => 0xd4 case 9 => 0xa4 case 10 => 0x5c case 11 => 0xcc case 12 => 0x5d case 13 => 0x65 case 14 => 0xb6 case _ => 0x92
  }

  function R5(c: int): int {
    match c
    case 0 => 0x6c case 1 => 0x70 case 2 => 0x48 case 3 => 0x50 case 4 => 0xfd case 5 => 0xed case 6 => 0xb9 case 7 => 0xda
    case 8 => 0x5e case 9 => 0x15 case 10 => 0x46 case 11 => 0x57 case 12 => 0xa7 case 13 => 0x8d case 14 => 0x9d case _ => 0x84
  }

  function R6(c: int): int {
    match c
    case 0 => 0x90 case 1 => 0xd8 case 2 => 0xab case 3 => 0x00 case 4 => 0x8c case 5 => 0xbc case 6 => 0xd3 case 7 => 0x0a
    case 8 => 0xf7 case 9 => 0xe4 case 10 => 0x58 case 11 => 0x05 case 12 => 0xb8 case 13 => 0xb3 case 14 => 0x45 case _ => 0x06
  }

  function R7(c: int): int {
    match c
    case 0 => 0xd0 case 1 => 0x2c case 2 => 0x1e case 3 => 0x8f case 4 => 0xca case 5 => 0x3f case 6 => 0x0f case 7 => 0x02
    case 8 => 0xc1 case 9 => 0xaf case 10 => 0xbd case 11 => 0x03 case 12 => 0x01 case 13 => 0x13 case 14 => 0x8a case _ => 0x6b
  }

  function R8(c: int): int {
    match c
    case 0 => 0x3a case 1 => 0x91 case 2 => 0x11 case 3 => 0x41 case 4 => 0x4f case 5 => 0x67 case 6 => 0xdc case 7 => 0xea
    case 8 => 0x97 case 9 => 0xf2 case 10 => 0xcf case 11 => 0xce case 12 => 0xf0 case 13 => 0xb4 case 14 => 0xe6 case _ => 0x73
  }

  function R9(c: int): int {
    match c
    case 0 => 0x96 case 1 => 0xac case 2 => 0x74 case 3 => 0x22 case 4 => 0xe7 case 5 => 0xad case 6 => 0x35 case 7 => 0x85
    case 8 => 0xe2 case 9 => 0xf9 case 10 => 0x37 case 11 => 0xe8 case 12 => 0x1c case 13 => 0x75 case 14 => 0xdf case _ => 0x6e
  }

  function R10(c: int): int {
    match c
    case 0 => 0x47 case 1 => 0xf1 case 2 => 0x1a case 3 => 0x71 case 4 => 0x1d case 5 => 0x29 case 6 => 0xc5 case 7 => 0x89
    case 8 => 0x6f case 9 => 0xb7 case 10 => 0x62 case 11 => 0x0e case 12 => 0xaa case 13 => 0x18 case 14 => 0xbe case _ => 0x1b
  }

  function R11(c: int): int {
    match c
    case 0 => 0xfc case 1 => 0x56 case 2 => 0x3e case 3 => 0x4b case 4 => 0xc6 case 5 => 0xd2 case 6 => 0x79 case 7 => 0x20
    case 8 => 0x9a case 9 => 0xdb case 10 => 0xc0 case 11 => 0xfe case 12 => 0x78 case 13 => 0xcd case 14 => 0x5a case _ => 0xf4
  }

  function R12(c: int): int {
    match c
    case 0 => 0x1f case 1 => 0xdd case 2 => 0xa8 case 3 => 0x33 case 4 => 0x88 case 5 => 0x07 case 6 => 0xc7 case 7 => 0x31
    case 8 => 0xb1 case 9 => 0x12 case 10 => 0x10 case 11 => 0x59 case 12 => 0x27 case 13 => 0x80 case 14 => 0xec case _ => 0x5f
  }

  function R13(c: int): int {
    match c
    case 0 => 0x60 case 1 => 0x51 case 2 => 0x7f case 3 => 0xa9 case 4 => 0x19 case 5 => 0xb5 case 6 => 0x4a case 7 => 0x0d
    case 8 => 0x2d case 9 => 0xe5 case 10 => 0x7a case 11 => 0x9f case 12 => 0x93 case 13 => 0xc9 case 14 => 0x9c case _ => 0xef
  }

  function R14(c: int): int {
    match c
    case 0 => 0xa0 case 1 => 0xe0 case 2 => 0x3b case 3 => 0x4d case 4 => 0xae case 5 => 0x2a case 6 => 0xf5 case 7 => 0xb0
    case 8 => 0xc8 case 9 => 0xeb case 10 => 0xbb case 11 => 0x3c case 12 => 0x83 case 13 => 0x53 case 14 => 0x99 case _ => 0x61
  }

  function R15(c: int): int {
    match c
    case 0 => 0x17 case 1 => 0x2b case 2 => 0x04 case 3 => 0x7e case 4 => 0xba case 5 => 0x77 case 6 => 0xd6 case 7 => 0x26
    case 8 => 0xe1 case 9 => 0x69 case 10 => 0x14 case 11 => 0x63 case 12 => 0x55 case 13 => 0x21 case 14 => 0x0c case _ => 0x7d
  }

  /** An entry of that. */
  function UnsubAt(r: int, c: int): int {
    match r
    case 0 => R0(c)
    case 1 => R1(c)
    case 2 => R2(c)
    case 3 => R3(c)
    case 4 => R4(c)
    case 5 => R5(c)
    case 6 => R6(c)
    case 7 => R7(c)
    case 8 => R8(c)
    case 9 => R9(c)
    case 10 => R10(c)
    case 11 => R11(c)
    case 12 => R12(c)
    case 13 => R13(c)
    case 14 => R14(c)
    case _ => R15(c)
  }

  /** A byte looked up in either box. */
  function Sbox(k: int): int { SubAt(k / 16, k % 16) }

  function Rsbox(k: int): int { UnsubAt(k / 16, k % 16) }

  /** The second box takes eight entries of a row of the first back to where they stand. */
  ghost predicate RowBack(r: int, from: int) {
    forall c :: from <= c < from + 8 ==> var v := SubAt(r, c); 0 <= v < 256 && UnsubAt(v / 16, v % 16) == 16 * r + c
  }

  lemma Row0()
    ensures RowBack(0, 0)
  {
  }

  lemma HalfRow0()
    ensures RowBack(0, 8)
  {
  }

  lemma Row1()
    ensures RowBack(1, 0)
  {
  }

  lemma HalfRow1()
    ensures RowBack(1, 8)
  {
  }

  lemma Row2()
    ensures RowBack(2, 0)
  {
  }

  lemma HalfRow2()
    ensures RowBack(2, 8)
  {
  }

  lemma Row3()
    ensures RowBack(3, 0)
  {
  }

  lemma HalfRow3()
    ensures RowBack(3, 8)
  {
  }

  lemma Row4()
    ensures RowBack(4, 0)
  {
  }

  lemma HalfRow4()
    ensures RowBack(4, 8)
  {
  }

  lemma Row5()
    ensures RowBack(5, 0)
  {
  }

  lemma HalfRow5()
    ensures RowBack(5, 8)
  {
  }

  lemma Row6()
    ensures RowBack(6, 0)
  {
  }

  lemma HalfRow6()
    ensures RowBack(6, 8)
  {
  }

  lemma Row7()
    ensures RowBack(7, 0)
  {
  }

  lemma HalfRow7()
    ensures RowBack(7, 8)
  {
  }

  lemma Row8()
    ensures RowBack(8, 0)
  {
  }

  lemma HalfRow8()
    ensures RowBack(8, 8)
  {
  }

  lemma Row9()
    ensures RowBack(9, 0)
  {
  }

  lemma HalfRow9()
    ensures RowBack(9, 8)
  {
  }

  lemma Row10()
    ensures RowBack(10, 0)
  {
  }

  lemma HalfRow10()
    ensures RowBack(10, 8)
  {
  }

  lemma Row11()
    ensures RowBack(11, 0)
  {
  }

  lemma HalfRow11()
    ensures RowBack(11, 8)
  {
  }

  lemma Row12()
    ensures RowBack(12, 0)
  {
  }

  lemma HalfRow12()
    ensures RowBack(12, 8)
  {
  }

  lemma Row13()
    ensures RowBack(13, 0)
  {
  }

  lemma HalfRow13()
    ensures RowBack(13, 8)
  {
  }

  lemma Row14()
    ensures RowBack(14, 0)
  {
  }

  lemma HalfRow14()
    ensures RowBack(14, 8)
  {
  }

  lemma Row15()
    ensures RowBack(15, 0)
  {
  }

  lemma HalfRow15()
    ensures RowBack(15, 8)
  {
  }

  lemma EveryRow(r: nat)
    requires r < 16
    ensures RowBack(r, 0) && RowBack(r, 8)
  {
    hide RowBack;
    match r
    case 0 => Row0(); HalfRow0();
    case 1 => Row1(); HalfRow1();
    case 2 => Row2(); HalfRow2();
    case 3 => Row3(); HalfRow3();
    case 4 => Row4(); HalfRow4();
    case 5 => Row5(); HalfRow5();
    case 6 => Row6(); HalfRow6();
    case 7 => Row7(); HalfRow7();
    case 8 => Row8(); HalfRow8();
    case 9 => Row9(); HalfRow9();
    case 10 => Row10(); HalfRow10();
    case 11 => Row11(); HalfRow11();
    case 12 => Row12(); HalfRow12();
    case 13 => Row13(); HalfRow13();
    case 14 => Row14(); HalfRow14();
    case 15 => Row15(); HalfRow15();
  }

  lemma EntriesAreBytes(r: int, c: int)
    ensures 0 <= UnsubAt(r, c) < 256
  {
  }

  /** Looking up and looking back. */
  lemma TablesInvert(k: nat)
    requires k < 256
    ensures 0 <= Sbox(k) < 256 && Rsbox(Sbox(k)) == k
  {
    hide SubAt, UnsubAt;
    EveryRow(k / 16);
  }
}

/** Bytes as elements of the field the columns are mixed in. */
module ByteField {

  /** Addition in the field. A function of its own, so that proofs can reason without its bits. */
  function Xor(a: bv8, b: bv8): bv8 { a ^ b }

  lemma XorTwice(a: bv8, b: bv8)
    ensures Xor(Xor(a, b), b) == a
  {
  }

  lemma XorZero(a: bv8)
    ensures Xor(a, 0) == a && Xor(0, a) == a
  {
  }

  lemma XorTurns(a: bv8, b: bv8)
    ensures Xor(a, b) == Xor(b, a)
  {
  }

  lemma XorRegroups(a: bv8, b: bv8, c: bv8)
    ensures Xor(Xor(a, b), c) == Xor(a, Xor(b, c))
  {
  }

  lemma XorCancels(a: bv8, b: bv8)
    ensures Xor(a, Xor(a, b)) == b
  {
  }

  /** Sums of sums, taken pairwise. */
  lemma XorPairs(a: bv8, b: bv8, p: bv8, q: bv8)
    ensures Xor(Xor(a, p), Xor(b, q)) == Xor(Xor(a, b), Xor(p, q))
  {
    hide Xor;
    XorRegroups(a, p, Xor(b, q));
    XorRegroups(p, b, q);
    XorTurns(p, b);
    XorRegroups(b, p, q);
    XorRegroups(a, b, Xor(p, q));
  }

  /** Multiplication by x: the bit shifted out comes back as 0x1b, four of its multiples by a power of two. */
  function XTime(x: bv8): bv8 {
    var high := x >> 7;
    (x << 1) ^ high ^ (high << 1) ^ (high << 3) ^ (high << 4)
  }

  lemma XTimeIsReduction(x: bv8)
    ensures XTime(x) == (x << 1) ^ (((x >> 7) & 1) * 0x1b)
  {
  }

  lemma XTimeAdds(a: bv8, b: bv8)
    ensures XTime(Xor(a, b)) == Xor(XTime(a), XTime(b))
  {
  }

  function Times4(x: bv8): bv8 { XTime(XTime(x)) }

  function Times8(x: bv8): bv8 { XTime(XTime(XTime(x))) }

  lemma TimesAdd(a: bv8, b: bv8)
    ensures Times4(Xor(a, b)) == Xor(Times4(a), Times4(b))
    ensures Times8(Xor(a, b)) == Xor(Times8(a), Times8(b))
  {
    hide XTime, Xor;
    XTimeAdds(a, b);
    XTimeAdds(XTime(a), XTime(b));
    XTimeAdds(XTime(XTime(a)), XTime(XTime(b)));
  }

  /** The general multiplication, whose second factor is below 32. */
  function Multiply(x: bv8, y: bv8): bv8 {
    Select(y, x, XTime(x), Times4(x), Times8(x), XTime(Times8(x)))
  }

  /** The sum of the multiples that the bits of a factor select. */
  function Select(y: bv8, x1: bv8, x2: bv8, x4: bv8, x8: bv8, x16: bv8): bv8 {
    Xor(Xor(Xor(Xor(Pick(y, x1), Pick(y >> 1, x2)), Pick(y >> 2, x4)), Pick(y >> 3, x8)), Pick(y >> 4, x16))
  }

  function Pick(y: bv8, x: bv8): bv8 { if y & 1 == 1 then x else 0 }

  function By9(x: bv8): bv8 { Xor(x, Times8(x)) }

  function By11(x: bv8): bv8 { Xor(Xor(x, XTime(x)), Times8(x)) }

  function By13(x: bv8): bv8 { Xor(Xor(x, Times4(x)), Times8(x)) }

  function By14(x: bv8): bv8 { Xor(Xor(XTime(x), Times4(x)), Times8(x)) }

  lemma MultiplyBy(x: bv8)
    ensures Multiply(x, 0x09) == By9(x) && Multiply(x, 0x0b) == By11(x)
    ensures Multiply(x, 0x0d) == By13(x) && Multiply(x, 0x0e) == By14(x)
  {
    hide XTime, Times4, Times8, Xor;
    XorZero(x);
    XorZero(0);
    XorZero(XTime(x));
    XorZero(Xor(x, XTime(x)));
    XorZero(By9(x));
    XorZero(By11(x));
    XorZero(By13(x));
    XorZero(By14(x));
  }

  lemma MultiplesAdd(a: bv8, b: bv8)
    ensures By9(Xor(a, b)) == Xor(By9(a), By9(b)) && By11(Xor(a, b)) == Xor(By11(a), By11(b))
    ensures By13(Xor(a, b)) == Xor(By13(a), By13(b)) && By14(Xor(a, b)) == Xor(By14(a), By14(b))
  {
    hide XTime, Xor, Times4, Times8;
    XTimeAdds(a, b);
    TimesAdd(a, b);
    XorPairs(a, b, Times8(a), Times8(b));
    XorPairs(a, b, XTime(a), XTime(b));
    XorPairs(Xor(a, XTime(a)), Xor(b, XTime(b)), Times8(a), Times8(b));
    XorPairs(a, b, Times4(a), Times4(b));
    XorPairs(Xor(a, Times4(a)), Xor(b, Times4(b)), Times8(a), Times8(b));
    XorPairs(XTime(a), XTime(b), Times4(a), Times4(b));
    XorPairs(Xor(XTime(a), Times4(a)), Xor(XTime(b), Times4(b)), Times8(a), Times8(b));
  }

  // ---- Mixing a column ----------------------------------------------------------------------

  /** One byte of a mixed column, from the column turned so that its own byte comes first. */
  function Mix(a: bv8, b: bv8, c: bv8, d: bv8): bv8 { Xor(a, Xor(XTime(Xor(a, b)), Sum(a, b, c, d))) }

  /** Which is the matrix product of section 5.1.3 of FIPS 197: two of the first, three of the second, one of each other. */
  lemma MixIsMatrix(a: bv8, b: bv8, c: bv8, d: bv8)
    ensures Mix(a, b, c, d) == Sum(XTime(a), Xor(XTime(b), b), c, d)
  {
    hide Xor, XTime;
    XTimeAdds(a, b);
    MatrixTerms(XTime(a), XTime(b), a, b, c, d);
  }

  lemma MatrixTerms(a2: bv8, b2: bv8, a: bv8, b: bv8, c: bv8, d: bv8)
    ensures Xor(a, Xor(Xor(a2, b2), Sum(a, b, c, d))) == Sum(a2, Xor(b2, b), c, d)
  {
    hide Xor;
    // a + ((a2 + b2) + (((a + b) + c) + d)): the two a cancel.
    XorRegroups(Xor(a, b), c, d);
    XorRegroups(a, b, Xor(c, d));
    XorRegroups(Xor(a2, b2), a, Xor(b, Xor(c, d)));
    XorTurns(Xor(a2, b2), a);
    XorRegroups(a, Xor(a2, b2), Xor(b, Xor(c, d)));
    XorCancels(a, Xor(Xor(a2, b2), Xor(b, Xor(c, d))));
    XorRegroups(a2, b2, Xor(b, Xor(c, d)));
    XorRegroups(b2, b, Xor(c, d));
    XorRegroups(a2, Xor(b2, b), Xor(c, d));
    XorRegroups(Xor(a2, Xor(b2, b)), c, d);
  }

  function Sum(a: bv8, b: bv8, c: bv8, d: bv8): bv8 { Xor(Xor(Xor(a, b), c), d) }

  lemma SumTurns(a: bv8, b: bv8, c: bv8, d: bv8)
    ensures Sum(a, b, c, d) == Sum(b, c, d, a)
  {
  }

  /** One byte of an unmixed column. */
  function Unmix(a: bv8, b: bv8, c: bv8, d: bv8): bv8 { Sum(By14(a), By11(b), By13(c), By9(d)) }

  lemma SumAdds(a: bv8, b: bv8, c: bv8, d: bv8, p: bv8, q: bv8, r: bv8, s: bv8)
    ensures Sum(Xor(a, p), Xor(b, q), Xor(c, r), Xor(d, s)) == Xor(Sum(a, b, c, d), Sum(p, q, r, s))
  {
    hide Xor;
    XorPairs(a, p, b, q);
    XorPairs(Xor(a, b), Xor(p, q), c, r);
    XorPairs(Xor(Xor(a, b), c), Xor(Xor(p, q), r), d, s);
  }

  lemma MixAdds(a: bv8, b: bv8, c: bv8, d: bv8, p: bv8, q: bv8, r: bv8, s: bv8)
    ensures Mix(Xor(a, p), Xor(b, q), Xor(c, r), Xor(d, s)) == Xor(Mix(a, b, c, d), Mix(p, q, r, s))
  {
    hide Xor, XTime, Sum;
    XorPairs(a, p, b, q);
    XTimeAdds(Xor(a, b), Xor(p, q));
    SumAdds(a, b, c, d, p, q, r, s);
    XorPairs(XTime(Xor(a, b)), XTime(Xor(p, q)), Sum(a, b, c, d), Sum(p, q, r, s));
    XorPairs(a, p, Xor(XTime(Xor(a, b)), Sum(a, b, c, d)), Xor(XTime(Xor(p, q)), Sum(p, q, r, s)));
  }

  lemma UnmixAdds(a: bv8, b: bv8, c: bv8, d: bv8, p: bv8, q: bv8, r: bv8, s: bv8)
    ensures Unmix(Xor(a, p), Xor(b, q), Xor(c, r), Xor(d, s)) == Xor(Unmix(a, b, c, d), Unmix(p, q, r, s))
  {
    hide Xor, Sum, By9, By11, By13, By14;
    MultiplesAdd(a, p);
    MultiplesAdd(b, q);
    MultiplesAdd(c, r);
    MultiplesAdd(d, s);
    SumAdds(By14(a), By11(b), By13(c), By9(d), By14(p), By11(q), By13(r), By9(s));
  }

  /** A byte of a column that was mixed and then unmixed. */
  function Both(a: bv8, b: bv8, c: bv8, d: bv8): bv8 {
    Unmix(Mix(a, b, c, d), Mix(b, c, d, a), Mix(c, d, a, b), Mix(d, a, b, c))
  }

  lemma BothAdds(a: bv8, b: bv8, c: bv8, d: bv8, p: bv8, q: bv8, r: bv8, s: bv8)
    ensures Both(Xor(a, p), Xor(b, q), Xor(c, r), Xor(d, s)) == Xor(Both(a, b, c, d), Both(p, q, r, s))
  {
    hide Xor, Mix, Unmix;
    MixAdds(a, b, c, d, p, q, r, s);
    MixAdds(b, c, d, a, q, r, s, p);
    MixAdds(c, d, a, b, r, s, p, q);
    MixAdds(d, a, b, c, s, p, q, r);
    UnmixAdds(Mix(a, b, c, d), Mix(b, c, d, a), Mix(c, d, a, b), Mix(d, a, b, c),
              Mix(p, q, r, s), Mix(q, r, s, p), Mix(r, s, p, q), Mix(s, p, q, r));
  }

  lemma BothFirst(x: bv8)
    ensures Both(x, 0, 0, 0) == x
  {
  }

  lemma BothSecond(x: bv8)
    ensures Both(0, x, 0, 0) == 0
  {
  }

  lemma BothThird(x: bv8)
    ensures Both(0, 0, x, 0) == 0
  {
  }

  lemma BothFourth(x: bv8)
    ensures Both(0, 0, 0, x) == 0
  {
  }

  /** Unmixing undoes mixing: it is enough to know it of columns with a single byte, since both only add. */
  lemma UnmixUndoesMix(a: bv8, b: bv8, c: bv8, d: bv8)
    ensures Both(a, b, c, d) == a
  {
    hide Xor, Both;
    XorZero(a);
    XorZero(b);
    XorZero(c);
    XorZero(d);
    XorZero(0);
    BothFirst(a);
    BothSecond(b);
    BothThird(c);
    BothFourth(d);
    BothAdds(a, 0, 0, 0, 0, b, 0, 0);
    BothAdds(a, b, 0, 0, 0, 0, c, 0);
    BothAdds(a, b, c, 0, 0, 0, 0, d);
  }
}
