/** The values the adapter hands to the FUSE library: file-type tags,
    timestamps, durations, the attribute record and directory entries. */
module Fuse {
  import opened Posix

  /** The closed set of file types the protocol can report. */
  datatype FileType = RegularFile | Directory | Symlink | BlockDevice | CharDevice | NamedPipe | Socket

  /** A point in time, kept as the epoch seconds it was built from. */
  datatype SystemTime = UnixTime(secs: i64)

  datatype Duration = Duration(secs: u64, nanos: u32)

  /** The protocol's attribute record. */
  datatype FileAttr = FileAttr(
    ino: u64,
    size: u64,
    blocks: u64,
    atime: SystemTime,
    mtime: SystemTime,
    ctime: SystemTime,
    crtime: SystemTime,
    kind: FileType,
    perm: bv16,
    nlink: u32,
    uid: u32,
    gid: u32,
    rdev: u32,
    blksize: u32,
    flags: u32)

  /** One entry of a directory listing as passed to `ReplyDirectory::add`:
      `offset` is the cookie the kernel hands back to resume after it. */
  datatype DirEntry = DirEntry(ino: u64, offset: i64, kind: FileType, name: string)

  /** Size of a `fuse_dirent` header (ino, off, namelen, type). */
  const DIRENT_HEADER: nat := 24

  /** `n` rounded up to a multiple of 8, by steps of 8. */
  function Align8(n: nat): (m: nat)
    ensures n <= m < n + 8
  {
    if n == 0 then 0 else if n <= 8 then 8 else 8 + Align8(n - 8)
  }

  /** The rounding agrees with the usual `(n + 7) / 8 * 8` and gives a
      multiple of 8. */
  lemma {:induction false} Align8Formula(n: nat)
    ensures Align8(n) == (n + 7) / 8 * 8
    ensures Align8(n) % 8 == 0
  {
    if n > 8 {
      Align8Formula(n - 8);
      assert (n + 7) / 8 == (n - 8 + 7) / 8 + 1;
    }
  }

  /** Bytes an entry takes in the reply buffer: header plus name, padded to
      a multiple of 8 (the header itself is 24 bytes, a multiple of 8). */
  function EntrySize(name: string): (n: nat)
    ensures DIRENT_HEADER + |name| <= n < DIRENT_HEADER + |name| + 8
  {
    DIRENT_HEADER + Align8(|name|)
  }

  /** The entry size is `(24 + namelen + 7) / 8 * 8`, a multiple of 8. */
  lemma EntrySizeFormula(name: string)
    ensures EntrySize(name) == (DIRENT_HEADER + |name| + 7) / 8 * 8
    ensures EntrySize(name) % 8 == 0
  {
    Align8Formula(|name|);
  }
}
