/** The permission rule of include/fs.h, and what it says of files just made. */
module Permissions {
  import opened Common
  import opened Directory
  import opened FileSystem

  const WANT_READ: bv16 := 4
  const WANT_WRITE: bv16 := 2
  const WANT_EXEC: bv16 := 1

  /** Whether a mode grants everything wanted: the first class that matches decides. */
  predicate ModeAllows(mode: bv16, ownerUid: U32, ownerGid: U32, uid: U32, gid: U32, want: bv16) {
    if uid == 0 then true
    else
      var bits := if uid == ownerUid then (mode >> 6) & 7 else if gid == ownerGid then (mode >> 3) & 7 else mode & 7;
      bits & want == want
  }

  datatype Class = Owner | Group | Other

  function ClassOf(ownerUid: U32, ownerGid: U32, uid: U32, gid: U32): Class {
    if uid == ownerUid then Owner else if gid == ownerGid then Group else Other
  }

  /** The bit of a mode that stands for a right of a class, as `ls` shows them: rwxrwxrwx. */
  function BitOf(c: Class, right: bv16): bv16 {
    match c
    case Owner => if right == WANT_READ then 0x100 else if right == WANT_WRITE then 0x80 else 0x40
    case Group => if right == WANT_READ then 0x20 else if right == WANT_WRITE then 0x10 else 0x08
    case Other => if right == WANT_READ then 0x04 else if right == WANT_WRITE then 0x02 else 0x01
  }

  predicate Shows(mode: bv16, c: Class, right: bv16) { Has(mode, BitOf(c, right)) }

  /** Every right wanted is one the class has. */
  predicate Covered(mode: bv16, c: Class, want: bv16) {
    && (Has(want, WANT_READ) ==> Shows(mode, c, WANT_READ))
    && (Has(want, WANT_WRITE) ==> Shows(mode, c, WANT_WRITE))
    && (Has(want, WANT_EXEC) ==> Shows(mode, c, WANT_EXEC))
  }

  predicate Has(bits: bv16, right: bv16) { bits & right != 0 }

  lemma RightByRight(bits: bv16, want: bv16)
    requires bits < 8 && want < 8
    ensures bits & want == want <==>
              (Has(want, 4) ==> Has(bits, 4)) && (Has(want, 2) ==> Has(bits, 2)) && (Has(want, 1) ==> Has(bits, 1))
  {
  }

  lemma OwnerBits(mode: bv16)
    ensures var b := (mode >> 6) & 7;
            b < 8 && Has(b, 4) == Has(mode, 0x100) && Has(b, 2) == Has(mode, 0x80) && Has(b, 1) == Has(mode, 0x40)
  {
  }

  lemma GroupBits(mode: bv16)
    ensures var b := (mode >> 3) & 7;
            b < 8 && Has(b, 4) == Has(mode, 0x20) && Has(b, 2) == Has(mode, 0x10) && Has(b, 1) == Has(mode, 0x08)
  {
  }

  lemma OtherBits(mode: bv16)
    ensures var b := mode & 7;
            b < 8 && Has(b, 4) == Has(mode, 0x04) && Has(b, 2) == Has(mode, 0x02) && Has(b, 1) == Has(mode, 0x01)
  {
  }

  /** Root may do anything; anyone else exactly what the bits of their own class show, whatever another class may. */
  lemma AllowsExactly(mode: bv16, ownerUid: U32, ownerGid: U32, uid: U32, gid: U32, want: bv16)
    requires want < 8
    ensures ModeAllows(mode, ownerUid, ownerGid, uid, gid, want) <==>
              uid == 0 || Covered(mode, ClassOf(ownerUid, ownerGid, uid, gid), want)
  {
    hide Covered;
    if uid == ownerUid {
      OwnerCovered(mode, want);
    } else if gid == ownerGid {
      GroupCovered(mode, want);
    } else {
      OtherCovered(mode, want);
    }
  }

  lemma OwnerCovered(mode: bv16, want: bv16)
    requires want < 8
    ensures ((mode >> 6) & 7) & want == want <==> Covered(mode, Owner, want)
  {
    hide Has;
    OwnerBits(mode);
    RightByRight((mode >> 6) & 7, want);
  }

  lemma GroupCovered(mode: bv16, want: bv16)
    requires want < 8
    ensures ((mode >> 3) & 7) & want == want <==> Covered(mode, Group, want)
  {
    hide Has;
    GroupBits(mode);
    RightByRight((mode >> 3) & 7, want);
  }

  lemma OtherCovered(mode: bv16, want: bv16)
    requires want < 8
    ensures (mode & 7) & want == want <==> Covered(mode, Other, want)
  {
    hide Has;
    OtherBits(mode);
    RightByRight(mode & 7, want);
  }

  predicate EntryAllows(e: Entry, uid: U32, gid: U32, want: bv16)
    requires e.mode < 0x1_0000
  {
    ModeAllows(e.mode as bv16, e.uid, e.gid, uid, gid, want)
  }

  /** A file just created: anyone may read it, its creator alone may write it, and nobody but root may execute it. */
  lemma NewFileRights(name: string, size: U32, start: U32, parent: nat, who: Caller, slot: nat, uid: U32, gid: U32)
    ensures var e := NewFile(name, size, start, parent, who, slot);
            && e.mode < 0x1_0000
            && EntryAllows(e, uid, gid, WANT_READ)
            && (EntryAllows(e, uid, gid, WANT_WRITE) <==> uid == 0 || uid == who.uid)
            && (EntryAllows(e, uid, gid, WANT_EXEC) <==> uid == 0)
  {
    assert 420 as bv16 == 0x1A4;
  }

  /** A directory just made: anyone may list and search it, its maker alone may write in it. */
  lemma NewDirRights(name: string, parent: nat, who: Caller, slot: nat, uid: U32, gid: U32)
    ensures var e := NewDir(name, parent, who, slot);
            && e.mode < 0x1_0000
            && EntryAllows(e, uid, gid, WANT_READ | WANT_EXEC)
            && (EntryAllows(e, uid, gid, WANT_WRITE) <==> uid == 0 || uid == who.uid)
  {
    assert 493 as bv16 == 0x1ED;
  }

  /** Anyone not the creator but of the creator's group is judged by the group's bits, whatever they are changed to. */
  lemma NewFileClass(name: string, size: U32, start: U32, parent: nat, who: Caller, slot: nat, uid: U32, gid: U32)
    ensures var e := NewFile(name, size, start, parent, who, slot);
            ClassOf(e.uid, e.gid, uid, gid) == if uid == who.uid then Owner else if gid == who.gid then Group else Other
  {
  }

  /** An owner without a right is refused it, though the group has it. */
  lemma FirstClassDecides(uid: U32, gid: U32, other: U32)
    requires uid != 0 && other != 0 && other != uid
    ensures !ModeAllows(0x3F, uid, gid, uid, gid, WANT_READ) && ModeAllows(0x3F, uid, gid, other, gid, WANT_READ)
  {
  }
}
