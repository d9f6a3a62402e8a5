/** The request handlers of the `SwatchFS` adapter. The backing directory
    is an oracle that, per name, answers with a `stat` record, "not found"
    or another I/O error. */
module SwatchFs {
  import opened Posix
  import opened Fuse
  import opened Attr
  import opened Reply
  import opened Paging

  /** How a metadata query on the backing directory failed. */
  datatype ErrorKind = NotFound | OtherError

  datatype MetaResult = Found(stat: Stat) | Failed(kind: ErrorKind)

  /** The backing directory handle: the answer for the directory itself and
      the answer for each name looked up relative to it. */
  datatype Dir = Dir(selfMeta: MetaResult, children: map<string, MetaResult>) {
    /** `Dir::metadata(name)`: a name the directory does not hold is not found. */
    function Metadata(name: string): (r: MetaResult)
      ensures name !in children ==> r == Failed(NotFound)
      ensures name in children ==> r == children[name]
    {
      if name in children then children[name] else Failed(NotFound)
    }
  }

  /** The attribute and entry cache lifetime: one second. */
  const TTL: Duration := Duration(1, 0)

  /** The one file name the adapter answers `lookup` for. */
  const HELLO: string := "hello.txt"

  /** The fixed listing of the root directory. */
  const RootEntries: seq<Listed> := [
    Listed(1, Directory, "."),
    Listed(1, Directory, ".."),
    Listed(2, RegularFile, HELLO)
  ]

  /** `readdir` skips `offset as usize` rows: a negative offset wraps to a
      skip of at least 2^63 rows. */
  function Skip(offset: i64): (n: nat)
    ensures offset >= 0 ==> n == offset
    ensures offset < 0 ==> n >= TWO_63
  {
    AsU64(offset)
  }

  /** `lookup` translates the record of the one name it answers for. */
  predicate LookupWellDefined(root: Dir, parent: u64, name: string) {
    root.Metadata(name).Found? && parent == 1 && name == HELLO ==> Translatable(root.Metadata(name).stat)
  }

  /** `getattr(1)` unwraps the directory's own metadata and translates it. */
  predicate GetAttrWellDefined(root: Dir, ino: u64) {
    ino == 1 ==> root.selfMeta.Found? && Translatable(root.selfMeta.stat)
  }

  class SwatchFS {
    const root: Dir

    constructor (root: Dir)
      ensures this.root == root
    {
      this.root := root;
    }

    /** A name that is not found gets `ENOENT`; another I/O error gets no
        reply; `hello.txt` under the root gets its translated attributes with
        the backing inode number; any other existing name gets `ENOENT`. */
    method Lookup(parent: u64, name: string, reply: ReplyEntry)
      requires reply.sent == []
      requires LookupWellDefined(root, parent, name)
      modifies reply
      ensures root.Metadata(name) == Failed(NotFound) ==> reply.sent == [EntryErr(ENOENT)]
      ensures root.Metadata(name) == Failed(OtherError) ==> reply.sent == []
      ensures root.Metadata(name).Found? && parent == 1 && name == HELLO ==>
                reply.sent == [EntrySent(TTL, MetaIntoFileAttr(root.Metadata(name).stat), 0)]
      ensures root.Metadata(name).Found? && !(parent == 1 && name == HELLO) ==>
                reply.sent == [EntryErr(ENOENT)]
      ensures |reply.sent| <= 1
      ensures forall c :: c in reply.sent && c.EntrySent? ==>
                parent == 1 && name == HELLO && root.Metadata(name).Found? && c.attr.ino == root.Metadata(name).stat.ino
    {
      var meta := root.Metadata(name);
      if meta.Failed? {
        if meta.kind == NotFound {
          reply.Error(ENOENT);
        }
      } else if parent == 1 && name == HELLO {
        reply.Entry(TTL, MetaIntoFileAttr(meta.stat), 0);
      } else {
        reply.Error(ENOENT);
      }
    }

    /** Inode 1 gets the translated attributes of the backing directory
        itself; every other inode gets `ENOENT`. Exactly one reply is sent. */
    method GetAttr(ino: u64, reply: ReplyAttr)
      requires reply.sent == []
      requires GetAttrWellDefined(root, ino)
      modifies reply
      ensures ino == 1 ==> reply.sent == [AttrSent(TTL, MetaIntoFileAttr(root.selfMeta.stat))]
      ensures ino != 1 ==> reply.sent == [AttrErr(ENOENT)]
      ensures |reply.sent| == 1
      ensures reply.sent[0].AttrSent? ==> reply.sent[0].attr.kind == KindOf(root.selfMeta.stat.mode & S_IFMT)
    {
      if ino == 1 {
        reply.Attr(TTL, MetaIntoFileAttr(root.selfMeta.stat));
      } else {
        reply.Error(ENOENT);
      }
    }

    /** Inode 2 gets no reply at all; every other inode gets `ENOENT`. */
    method Read(ino: u64, reply: ReplyData)
      requires reply.sent == []
      modifies reply
      ensures ino == 2 ==> reply.sent == []
      ensures ino != 2 ==> reply.sent == [DataErr(ENOENT)]
    {
      if ino == 2 {
      } else {
        reply.Error(ENOENT);
      }
    }

    /** The loop of `readdir` over its listing: the rows from `offset` on are
        added, each with the index of the next row as its cookie, until the
        buffer rejects one; then `ok` is sent. */
    method AddRows(entries: seq<Listed>, offset: i64, reply: ReplyDirectory)
      requires Indexable(entries)
      requires reply.Valid() && !reply.finished
      modifies reply
      ensures reply.Valid() && reply.finished
      ensures reply.calls == old(reply.calls) + PageCalls(entries, Skip(offset), old(reply.used), reply.capacity) + [DirOk]
      ensures reply.buf == old(reply.buf) + Page(entries, Skip(offset), old(reply.used), reply.capacity)
    {
      ghost var total := reply.calls + PageCalls(entries, Skip(offset), reply.used, reply.capacity);
      ghost var content := reply.buf + Page(entries, Skip(offset), reply.used, reply.capacity);
      var i: nat := Skip(offset);
      while i < |entries|
        invariant reply.Valid() && !reply.finished
        invariant total == reply.calls + PageCalls(entries, i, reply.used, reply.capacity)
        invariant content == reply.buf + Page(entries, i, reply.used, reply.capacity)
        decreases |entries| - i
      {
        var e := entries[i];
        ghost var before, buf, used := reply.calls, reply.buf, reply.used;
        // the cookie of row i is the index of the row after it
        var full := reply.Add(e.ino, i + 1, e.kind, e.name);
        AddStep(entries, i, reply.capacity, full, used, before, buf, reply.used, reply.calls, reply.buf, total, content);
        if full {
          break;
        }
        i := i + 1;
      }
      reply.Ok();
    }

    /** Any inode but 1 gets `ENOENT` and no entry. Inode 1 gets the page of
        the fixed root listing that starts at `offset`, then `ok`. */
    method ReadDir(ino: u64, offset: i64, reply: ReplyDirectory)
      requires reply.Valid() && !reply.finished
      modifies reply
      ensures reply.Valid() && reply.finished
      ensures ino != 1 ==> reply.calls == old(reply.calls) + [DirErr(ENOENT)] && reply.buf == old(reply.buf)
      ensures ino == 1 ==>
                reply.calls == old(reply.calls) + PageCalls(RootEntries, Skip(offset), old(reply.used), reply.capacity) + [DirOk]
      ensures ino == 1 ==>
                reply.buf == old(reply.buf) + Page(RootEntries, Skip(offset), old(reply.used), reply.capacity)
      ensures ino == 1 && (offset < 0 || offset >= |RootEntries|) ==> reply.calls == old(reply.calls) + [DirOk]
    {
      if ino != 1 {
        reply.Error(ENOENT);
        return;
      }
      AddRows(RootEntries, offset, reply);
    }
  }

  /** The root listing paged with any buffer that holds one row: `.` and
      `..` (both inode 1) and `hello.txt` (inode 2), cookies 1, 2 and 3. */
  lemma RootListing(cap: nat)
    requires cap >= EntrySize(HELLO)
    ensures Drain(RootEntries, 0, cap) == [
      DirEntry(1, 1, Directory, "."),
      DirEntry(1, 2, Directory, ".."),
      DirEntry(2, 3, RegularFile, HELLO)
    ]
  {
    DrainFromStart(RootEntries, cap);
    var d := Drain(RootEntries, 0, cap);
    assert |d| == 3;
    assert d[0] == Tag(RootEntries, 0) && d[1] == Tag(RootEntries, 1) && d[2] == Tag(RootEntries, 2);
  }

  /** A mount whose backing directory holds `hello.txt` with inode `stat.ino`:
      `lookup(1, "hello.txt")` reports that backing inode, while a listing of
      the root from offset 0 in a buffer large enough for the whole listing
      reports `hello.txt` as inode 2. The two agree only when the backing
      inode happens to be 2. */
  method HelloScenario(selfMeta: MetaResult, stat: Stat, cap: nat) returns (looked: u64, listed: u64)
    requires Translatable(stat)
    requires cap >= EntrySize(".") + EntrySize("..") + EntrySize(HELLO)
    ensures looked == stat.ino
    ensures listed == 2
  {
    var fs := new SwatchFS(Dir(selfMeta, map[HELLO := Found(stat)]));
    var entry := new ReplyEntry();
    fs.Lookup(1, HELLO, entry);
    looked := entry.sent[0].attr.ino;
    var dir := new ReplyDirectory(cap);
    fs.ReadDir(1, 0, dir);
    PageStep(RootEntries, 0, 0, cap);
    PageStep(RootEntries, 1, EntrySize("."), cap);
    PageStep(RootEntries, 2, EntrySize(".") + EntrySize(".."), cap);
    assert dir.buf[2] == Tag(RootEntries, 2);
    listed := dir.buf[2].ino;
  }
}
