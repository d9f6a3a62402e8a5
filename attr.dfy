/** The attribute translator: a backing `stat` record becomes the
    protocol's attribute record. */
module Attr {
  import opened Posix
  import opened Fuse

  /** The `<sys/stat.h>` type constant each tag stands for. */
  function TypeBits(k: FileType): (typ: bv16)
    ensures IsKnownType(typ)
    ensures typ & S_IFMT == typ
  {
    match k
    case RegularFile => S_IFREG
    case Directory => S_IFDIR
    case Symlink => S_IFLNK
    case BlockDevice => S_IFBLK
    case CharDevice => S_IFCHR
    case NamedPipe => S_IFIFO
    case Socket => S_IFSOCK
  }

  /** The tag of a masked type pattern. An unknown pattern makes
      `meta_into_file_attr` panic, so it is excluded here. */
  function KindOf(typ: bv16): (k: FileType)
    requires IsKnownType(typ)
    ensures TypeBits(k) == typ
    ensures forall j: FileType :: TypeBits(j) == typ ==> j == k
  {
    if typ == S_IFREG then RegularFile
    else if typ == S_IFDIR then Directory
    else if typ == S_IFLNK then Symlink
    else if typ == S_IFBLK then BlockDevice
    else if typ == S_IFCHR then CharDevice
    else if typ == S_IFIFO then NamedPipe
    else Socket
  }

  /** Distinct type patterns never share a tag. */
  lemma KindOfInjective(t1: bv16, t2: bv16)
    requires IsKnownType(t1) && IsKnownType(t2)
    ensures KindOf(t1) == KindOf(t2) <==> t1 == t2
  {
  }

  /** A tag survives the trip to its type constant and back. */
  lemma KindOfTypeBits(k: FileType)
    ensures KindOf(TypeBits(k)) == k
  {
  }

  /** The masked mode of a record the translator accepts. */
  predicate Translatable(s: Stat) {
    IsKnownType(s.mode & S_IFMT)
  }

  /** `meta_into_file_attr`: the kind is the tag of the type bits, `perm` is
      the mode with the type bits cleared (so the two put back together give
      the mode again), identity, ownership and flags are copied, and the other
      counters go through Rust's `as` casts. */
  function MetaIntoFileAttr(s: Stat): (a: FileAttr)
    requires Translatable(s)
    ensures TypeBits(a.kind) == s.mode & S_IFMT
    ensures a.perm & S_IFMT == 0
    ensures TypeBits(a.kind) | a.perm == s.mode
    ensures a.ino == s.ino && a.uid == s.uid && a.gid == s.gid && a.flags == s.flags
    ensures a.nlink == s.nlink
    ensures a.size == AsU64(s.size) && a.blocks == AsU64(s.blocks)
    ensures a.blksize == AsU32(s.blksize) && a.rdev == AsU32(s.rdev)
    ensures a.atime == UnixTime(s.atime) && a.mtime == UnixTime(s.mtime)
    ensures a.ctime == UnixTime(s.ctime) && a.crtime == UnixTime(s.birthtime)
  {
    FileAttr(
      ino := s.ino,
      size := AsU64(s.size),
      blocks := AsU64(s.blocks),
      atime := UnixTime(s.atime),
      mtime := UnixTime(s.mtime),
      ctime := UnixTime(s.ctime),
      crtime := UnixTime(s.birthtime),
      kind := KindOf(s.mode & S_IFMT),
      perm := s.mode & !S_IFMT,
      nlink := s.nlink,
      uid := s.uid,
      gid := s.gid,
      rdev := AsU32(s.rdev),
      blksize := AsU32(s.blksize),
      flags := s.flags)
  }

  /** Sizes, block counts, block sizes and device numbers that are in range
      for the protocol's unsigned fields arrive unchanged; a negative one
      (which the adapter casts without a check) wraps around. */
  lemma CountersPreserved(s: Stat)
    requires Translatable(s)
    ensures s.size >= 0 ==> MetaIntoFileAttr(s).size == s.size
    ensures s.size < 0 ==> MetaIntoFileAttr(s).size == s.size + TWO_64
    ensures s.blocks >= 0 ==> MetaIntoFileAttr(s).blocks == s.blocks
    ensures s.blksize >= 0 ==> MetaIntoFileAttr(s).blksize == s.blksize
    ensures s.rdev >= 0 ==> MetaIntoFileAttr(s).rdev == s.rdev
    ensures s.rdev < 0 ==> MetaIntoFileAttr(s).rdev == s.rdev + TWO_32
  {
  }
}
