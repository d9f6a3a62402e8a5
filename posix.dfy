/** The libc side of the adapter: fixed-width integers, Rust's `as` casts
    between them, the `<sys/stat.h>` file-type constants and the `stat`
    record that the backing directory returns. Field widths are those of the
    Apple `struct stat` (the one that carries `st_birthtime` and `st_flags`,
    both read by the translator). */
module Posix {

  type u16 = x: int | 0 <= x < 0x1_0000
  type u32 = x: int | 0 <= x < 0x1_0000_0000
  type u64 = x: int | 0 <= x < 0x1_0000_0000_0000_0000
  type i32 = x: int | -0x8000_0000 <= x < 0x8000_0000
  type i64 = x: int | -0x8000_0000_0000_0000 <= x < 0x8000_0000_0000_0000

  const TWO_32: int := 0x1_0000_0000
  const TWO_63: int := 0x8000_0000_0000_0000
  const TWO_64: int := 0x1_0000_0000_0000_0000

  /** `x as u32` for an integer of any width: the low 32 bits, read unsigned. */
  function AsU32(x: int): (r: u32)
    ensures 0 <= x < TWO_32 ==> r == x
    ensures -TWO_32 <= x < 0 ==> r == x + TWO_32
  {
    if 0 <= x < TWO_32 then x else x % TWO_32
  }

  /** `x as u64` (and `x as usize` on a 64-bit target): the low 64 bits, read unsigned. */
  function AsU64(x: int): (r: u64)
    ensures 0 <= x < TWO_64 ==> r == x
    ensures -TWO_64 <= x < 0 ==> r == x + TWO_64
  {
    if 0 <= x < TWO_64 then x else x % TWO_64
  }

  /** `ENOENT` ("no such file or directory"). */
  const ENOENT: i32 := 2

  // The file-type field of `st_mode` (octal values in the comments).
  const S_IFMT: bv16 := 0xF000    // 0o170000
  const S_IFIFO: bv16 := 0x1000   // 0o010000
  const S_IFCHR: bv16 := 0x2000   // 0o020000
  const S_IFDIR: bv16 := 0x4000   // 0o040000
  const S_IFBLK: bv16 := 0x6000   // 0o060000
  const S_IFREG: bv16 := 0x8000   // 0o100000
  const S_IFLNK: bv16 := 0xA000   // 0o120000
  const S_IFSOCK: bv16 := 0xC000  // 0o140000

  /** One of the seven file-type patterns `st_mode & S_IFMT` can legitimately take. */
  predicate IsKnownType(typ: bv16) {
    typ == S_IFREG || typ == S_IFDIR || typ == S_IFLNK || typ == S_IFBLK ||
    typ == S_IFCHR || typ == S_IFIFO || typ == S_IFSOCK
  }

  /** The fields of `struct stat` the translator reads; the timestamps are
      seconds since the Unix epoch. */
  datatype Stat = Stat(
    mode: bv16,
    nlink: u16,
    ino: u64,
    uid: u32,
    gid: u32,
    rdev: i32,
    atime: i64,
    mtime: i64,
    ctime: i64,
    birthtime: i64,
    size: i64,
    blocks: i64,
    blksize: i32,
    flags: u32)
}
