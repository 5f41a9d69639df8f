/** Vocabulary shared by every component: status codes, bytes, 32-bit arithmetic. */
module Common {

  /** The errno values of the kernel that the modelled code returns. */
  datatype Status =
    | Ok
    | NoEnt
    | Io
    | NoMem
    | Acces
    | Exist
    | NoDev
    | Inval
    | NFile
    | FBig
    | NoSpc
    | Rofs
    | NotEmpty

  datatype Option<+T> = None | Some(value: T)

  type Byte = bv8

  const SECTOR_SIZE: nat := 512

  /** One 512-byte disk sector. */
  type Sector = s: seq<Byte> | |s| == SECTOR_SIZE witness seq(SECTOR_SIZE, _ => 0)

  const ZERO_SECTOR: Sector := seq(SECTOR_SIZE, _ => 0)

  const TWO32: nat := 0x1_0000_0000

  /** Values a `uint32_t` can hold. */
  type U32 = x: int | 0 <= x < TWO32

  /** Unsigned 32-bit addition and subtraction, with the wrap-around C gives them. */
  function Add32(a: U32, b: U32): U32 { (a + b) % TWO32 }

  function Sub32(a: U32, b: U32): U32 { (a - b) % TWO32 }
}
