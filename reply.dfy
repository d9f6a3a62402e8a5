/** The reply objects a request handler answers through. Each records the
    calls made on it. The library's reply types are consumed by their
    final call, so every final call requires that none was made before. */
module Reply {
  import opened Posix
  import opened Fuse

  datatype EntryCall = EntrySent(ttl: Duration, attr: FileAttr, generation: u64) | EntryErr(err: i32)

  /** The reply to a `lookup` request. */
  class ReplyEntry {
    var sent: seq<EntryCall>

    constructor ()
      ensures sent == []
    {
      sent := [];
    }

    method Entry(ttl: Duration, attr: FileAttr, generation: u64)
      requires sent == []
      modifies this
      ensures sent == [EntrySent(ttl, attr, generation)]
    {
      sent := sent + [EntrySent(ttl, attr, generation)];
    }

    method Error(err: i32)
      requires sent == []
      modifies this
      ensures sent == [EntryErr(err)]
    {
      sent := sent + [EntryErr(err)];
    }
  }

  datatype AttrCall = AttrSent(ttl: Duration, attr: FileAttr) | AttrErr(err: i32)

  /** The reply to a `getattr` request. */
  class ReplyAttr {
    var sent: seq<AttrCall>

    constructor ()
      ensures sent == []
    {
      sent := [];
    }

    method Attr(ttl: Duration, attr: FileAttr)
      requires sent == []
      modifies this
      ensures sent == [AttrSent(ttl, attr)]
    {
      sent := sent + [AttrSent(ttl, attr)];
    }

    method Error(err: i32)
      requires sent == []
      modifies this
      ensures sent == [AttrErr(err)]
    {
      sent := sent + [AttrErr(err)];
    }
  }

  datatype DataCall = DataErr(err: i32)

  /** The reply to a `read` request; the adapter only ever answers it with an error. */
  class ReplyData {
    var sent: seq<DataCall>

    constructor ()
      ensures sent == []
    {
      sent := [];
    }

    method Error(err: i32)
      requires sent == []
      modifies this
      ensures sent == [DataErr(err)]
    {
      sent := sent + [DataErr(err)];
    }
  }

  /** A call on a directory reply: an `add` together with what it returned
      (`full` is true when the entry did not fit and was not added), `ok`
      or `error`. */
  datatype DirCall = DirAdd(entry: DirEntry, full: bool) | DirOk | DirErr(err: i32)

  /** Bytes a sequence of entries takes in a reply buffer. */
  function BytesOf(es: seq<DirEntry>): (n: nat) {
    if es == [] then 0 else EntrySize(es[0].name) + BytesOf(es[1..])
  }

  lemma {:induction false} BytesOfConcat(a: seq<DirEntry>, b: seq<DirEntry>)
    ensures BytesOf(a + b) == BytesOf(a) + BytesOf(b)
  {
    if a == [] {
      assert a + b == b;
    } else {
      assert (a + b)[1..] == a[1..] + b;
      BytesOfConcat(a[1..], b);
    }
  }

  lemma BytesOfSnoc(es: seq<DirEntry>, e: DirEntry)
    ensures BytesOf(es + [e]) == BytesOf(es) + EntrySize(e.name)
  {
    BytesOfConcat(es, [e]);
    assert [e][1..] == [];
  }

  /** The reply to a `readdir` request: a buffer of `capacity` bytes holding
      the entries added so far, and the calls made on it. */
  class ReplyDirectory {
    const capacity: nat
    var buf: seq<DirEntry>
    var used: nat
    var calls: seq<DirCall>
    var finished: bool

    /** The bytes in use are exactly those of the buffered entries, within capacity. */
    ghost predicate Valid()
      reads this
    {
      used == BytesOf(buf) && used <= capacity
    }

    constructor (capacity: nat)
      ensures Valid() && this.capacity == capacity
      ensures buf == [] && used == 0 && calls == [] && !finished
    {
      this.capacity := capacity;
      buf := [];
      used := 0;
      calls := [];
      finished := false;
    }

    /** Appends an entry if it fits; returns true ("buffer full") when it
        does not, and then leaves the buffer as it was. */
    method Add(ino: u64, offset: i64, kind: FileType, name: string) returns (full: bool)
      requires Valid() && !finished
      modifies this
      ensures Valid() && !finished
      ensures full <==> old(used) + EntrySize(name) > capacity
      ensures buf == if full then old(buf) else old(buf) + [DirEntry(ino, offset, kind, name)]
      ensures used == if full then old(used) else old(used) + EntrySize(name)
      ensures calls == old(calls) + [DirAdd(DirEntry(ino, offset, kind, name), full)]
    {
      var e := DirEntry(ino, offset, kind, name);
      full := used + EntrySize(name) > capacity;
      if !full {
        BytesOfSnoc(buf, e);
        buf := buf + [e];
        used := used + EntrySize(name);
      }
      calls := calls + [DirAdd(e, full)];
    }

    method Ok()
      requires Valid() && !finished
      modifies this
      ensures Valid() && finished
      ensures buf == old(buf) && used == old(used) && calls == old(calls) + [DirOk]
    {
      calls := calls + [DirOk];
      finished := true;
    }

    method Error(err: i32)
      requires Valid() && !finished
      modifies this
      ensures Valid() && finished
      ensures buf == old(buf) && used == old(used) && calls == old(calls) + [DirErr(err)]
    {
      calls := calls + [DirErr(err)];
      finished := true;
    }
  }
}
